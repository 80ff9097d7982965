/**
 * The wrapping 64-bit window cursor: which values it can reach, and when a loop that waits for
 * it to exceed a bound comes to an end.
 */
module Cursors {
  import opened Types

  /** The cursor after `n` additions of `a`, each of which may wrap. */
  function Advance(c: u64, a: u64, n: nat): u64
    decreases n
  {
    if n == 0 then c else Advance(WrapAdd(c, a), a, n - 1)
  }

  function Pow2(k: nat): nat {
    if k == 0 then 1 else 2 * Pow2(k - 1)
  }

  /** The greatest power of two that divides both `a` and 2^k. */
  function Grain(a: nat, k: nat): nat {
    if k == 0 || a % 2 == 1 then 1 else 2 * Grain(a / 2, k - 1)
  }

  /** gcd(a, 2^64): 2^64 itself when `a` is zero. */
  function Step(a: u64): nat {
    Grain(a, 64)
  }

  /**
   * Whether a cursor at `c` ever exceeds `bound`. A caller can compute this beforehand;
   * ExitsExactly says that it is right.
   */
  predicate Exits(c: u64, a: u64, bound: int)
  {
    StepFacts(a);
    bound < U64_LIMIT - Step(a) + c % Step(a)
  }

  // ---------- number theory of the cursor ----------

  lemma {:induction false} GrainDivides(a: nat, k: nat) returns (x: nat, y: nat)
    ensures Grain(a, k) >= 1
    ensures a == x * Grain(a, k) && Pow2(k) == y * Grain(a, k)
  {
    if k == 0 || a % 2 == 1 {
      x, y := a, Pow2(k);
    } else {
      x, y := GrainDivides(a / 2, k - 1);
      var g := Grain(a / 2, k - 1);
      assert a == 2 * (x * g) == x * (2 * g);
      assert Pow2(k) == 2 * (y * g) == y * (2 * g);
    }
  }

  lemma Halve(q: int, p: nat) returns (h: int)
    requires q % 2 == 0
    ensures h * (2 * p) == q * p
  {
    h := q / 2;
    assert q == 2 * h;
  }

  lemma Distribute(x: int, y: int, d: int)
    ensures (x + y) * d == x * d + y * d
  {}

  lemma {:induction false} OddInverse(a: nat, k: nat) returns (m: nat, q: int)
    requires a % 2 == 1
    ensures m * a == 1 + q * Pow2(k)
  {
    if k == 0 {
      m, q := 1, a - 1;
    } else {
      var p := Pow2(k - 1);
      m, q := OddInverse(a, k - 1);
      if q % 2 == 0 {
        q := Halve(q, p);
      } else {
        Distribute(m, p, a);
        Distribute(q, a, p);
        m := m + p;
        q := Halve(q + a, p);
      }
    }
  }

  lemma MulAssoc(x: int, y: int, z: int)
    ensures (x * y) * z == x * (y * z)
  {}

  lemma MulSwap(x: int, y: int, z: int)
    ensures x * (y * z) == y * (x * z)
  {
    MulAssoc(x, y, z);
    MulAssoc(y, x, z);
  }

  lemma {:induction false} Bezout(a: nat, k: nat) returns (m: nat, q: int)
    ensures m * a == Grain(a, k) + q * Pow2(k)
  {
    if k == 0 {
      m, q := 0, -1;
    } else if a % 2 == 1 {
      m, q := OddInverse(a, k);
    } else {
      var b := a / 2;
      m, q := Bezout(b, k - 1);
      MulSwap(m, 2, b);
      MulSwap(q, 2, Pow2(k - 1));
    }
  }

  lemma {:induction false} Pow2Sum(j: nat, k: nat)
    ensures Pow2(j + k) == Pow2(j) * Pow2(k)
  {
    if j > 0 { Pow2Sum(j - 1, k); }
  }

  lemma Pow2Of64()
    ensures Pow2(64) == U64_LIMIT
  {
    assert Pow2(8) == 0x100;
    Pow2Sum(8, 8);
    Pow2Sum(16, 16);
    Pow2Sum(32, 32);
  }

  lemma MulOrder(x: int, y: int, d: int)
    requires d > 0
    ensures x <= y <==> x * d <= y * d
    ensures x < y <==> x * d < y * d
    ensures x < y ==> x * d + d <= y * d
  {
    if x < y {
      Distribute(y - x - 1, x + 1, d);
      Distribute(x, 1, d);
      assert (y - x - 1) * d >= 0;
    } else {
      Distribute(x - y, y, d);
      assert (x - y) * d >= 0;
    }
    assert x > y ==> (x - y - 1) * d >= 0;
    Distribute(x - y - 1, y + 1, d);
    Distribute(y, 1, d);
  }

  lemma StepFacts(a: u64)
    ensures 1 <= Step(a) <= U64_LIMIT
    ensures exists x: nat :: a == x * Step(a)
    ensures exists y: nat :: U64_LIMIT == y * Step(a)
  {
    var x, y := GrainDivides(a, 64);
    Pow2Of64();
    MulOrder(0, y, Step(a));
  }

  lemma ModAddMultiple(r: int, k: int, d: nat)
    requires d > 0
    ensures (r + k * d) % d == r % d
  {
    var q, s := r / d, r % d;
    assert r + k * d == (q + k) * d + s;
    DivModUnique(r + k * d, q + k, s, d);
  }

  lemma DivModUnique(n: int, q: int, r: int, d: nat)
    requires d > 0 && n == q * d + r && 0 <= r < d
    ensures n / d == q && n % d == r
  {
    var q', r' := n / d, n % d;
    assert n == q' * d + r';
    assert (q - q') * d == r' - r;
    MulOrder(q, q', d);
    MulOrder(q', q, d);
  }

  lemma {:induction false} AdvanceClosedForm(c: u64, a: u64, n: nat)
    ensures Advance(c, a, n) == (c + n * a) % U64_LIMIT
    decreases n
  {
    if n == 0 {
    } else {
      var c' := WrapAdd(c, a);
      AdvanceClosedForm(c', a, n - 1);
      assert c + n * a == c + a + (n - 1) * a;
      if c + a >= U64_LIMIT {
        ModAddMultiple(c' + (n - 1) * a, 1, U64_LIMIT);
      }
    }
  }

  /** The residue of the cursor modulo gcd(a, 2^64) never changes. */
  lemma {:induction false} AdvanceKeepsResidue(c: u64, a: u64, n: nat)
    ensures Step(a) >= 1 && Advance(c, a, n) % Step(a) == c % Step(a)
    decreases n
  {
    StepFacts(a);
    if n > 0 {
      var g := Step(a);
      var x: nat :| a == x * g;
      var y: nat :| U64_LIMIT == y * g;
      var c' := WrapAdd(c, a);
      ModAddMultiple(c, x, g);
      ModAddMultiple(c, x - y, g);
      assert (x - y) * g == x * g - y * g;
      AdvanceKeepsResidue(c', a, n - 1);
    }
  }

  /** No cursor value is above the greatest u64 with the cursor's residue. */
  lemma {:induction false} AdvanceBound(c: u64, a: u64, n: nat)
    ensures Step(a) >= 1 && Advance(c, a, n) <= U64_LIMIT - Step(a) + c % Step(a)
  {
    hide Advance, Grain;
    AdvanceKeepsResidue(c, a, n);
    StepFacts(a);
    var g, v := Step(a), Advance(c, a, n);
    var y: nat :| U64_LIMIT == y * g;
    assert v == (v / g) * g + c % g;
    MulOrder(v / g, y, g);
  }

  /** That greatest value is reached. */
  lemma AdvanceReachesTop(c: u64, a: u64) returns (n: nat)
    ensures Step(a) >= 1 && Advance(c, a, n) == U64_LIMIT - Step(a) + c % Step(a)
  {
    hide Advance, Grain, Pow2;
    StepFacts(a);
    Pow2Of64();
    var g := Step(a);
    var m, q := Bezout(a, 64);
    var k;
    n, k := Combine(c, a, g, m, q, U64_LIMIT);
    ModAddMultiple(U64_LIMIT - g + c % g, k, U64_LIMIT);
    AdvanceClosedForm(c, a, n);
  }

  lemma QuotientBelow(c: nat, g: nat) returns (cq: nat)
    requires g > 0
    ensures cq == c / g && cq <= c && c == cq * g + c % g
  {
    cq := c / g;
    Distribute(g - 1, 1, cq);
    assert c == cq * g + c % g;
    assert (g - 1) * cq >= 0;
  }

  lemma NatProduct(x: nat, y: nat)
    ensures x * y >= 0
  {}

  lemma Expand(t: int, m: int, a: int, g: int, qL: int)
    requires m * a == g + qL
    ensures (t * m) * a == t * g + t * qL
  {
    MulAssoc(t, m, a);
    Distribute(g, qL, t);
  }

  lemma Subtract(x: int, y: int, d: int)
    ensures (x - y) * d == x * d - y * d
  {
    Distribute(x - y, y, d);
  }

  lemma Combine(c: nat, a: nat, g: nat, m: nat, q: int, L: nat) returns (n: nat, k: int)
    requires g > 0 && c < L && m * a == g + q * L
    ensures c + n * a == (L - g + c % g) + k * L
  {
    var cq := QuotientBelow(c, g);
    var t: nat := L - 1 - cq;
    var tq := t * q;
    NatProduct(t, m);
    n, k := t * m, g + tq - 1;
    Expand(t, m, a, g, q * L);
    MulAssoc(t, q, L);
    Subtract(L, 1 + cq, g);
    Distribute(1, cq, g);
    Subtract(g + tq, 1, L);
    Distribute(g, tq, L);
    Gathered(c, c % g, n * a, t * g, tq * L, k * L, cq * g, L * g, g, L);
  }

  lemma Gathered(c: int, r: int, na: int, tg: int, tqL: int, kL: int, cg: int, Lg: int, g: int, L: int)
    requires c == cg + r && na == tg + tqL && tg == Lg - g - cg && kL == Lg + tqL - L
    ensures c + na == (L - g + r) + kL
  {}

  /**
   * A loop that adds `a` to its cursor until the cursor exceeds `bound` ends if and only if
   * bound < 2^64 - g + (c mod g), where g = gcd(a, 2^64); with a == 0 the loop is stuck at c.
   */
  lemma ExitsExactly(c: u64, a: u64, bound: int)
    ensures Exits(c, a, bound) <==> exists n: nat :: Advance(c, a, n) > bound
  {
    if Exits(c, a, bound) {
      var n := AdvanceReachesTop(c, a);
      assert Advance(c, a, n) > bound;
    }
    if n: nat :| Advance(c, a, n) > bound {
      AdvanceBound(c, a, n);
    }
  }

  /** How many additions it takes. */
  ghost function ExitCount(c: u64, a: u64, bound: int): (n: nat)
    requires Exits(c, a, bound)
    ensures Advance(c, a, n) > bound
    ensures forall m: nat :: m < n ==> Advance(c, a, m) <= bound
  {
    ExitsExactly(c, a, bound);
    var n: nat :| Advance(c, a, n) > bound;
    Least(c, a, bound, n)
  }

  ghost function Least(c: u64, a: u64, bound: int, n: nat): (m: nat)
    requires Advance(c, a, n) > bound
    decreases n
    ensures m <= n && Advance(c, a, m) > bound
    ensures forall k: nat :: k < m ==> Advance(c, a, k) <= bound
  {
    if c > bound then 0 else 1 + Least(WrapAdd(c, a), a, bound, n - 1)
  }

  lemma ExitStep(c: u64, a: u64, bound: int)
    requires Exits(c, a, bound)
    ensures c > bound ==> ExitCount(c, a, bound) == 0
    ensures c <= bound ==> Exits(WrapAdd(c, a), a, bound)
                           && ExitCount(c, a, bound) == 1 + ExitCount(WrapAdd(c, a), a, bound)
  {
    var n := ExitCount(c, a, bound);
    if c > bound {
      assert Advance(c, a, 0) > bound;
    } else {
      var c' := WrapAdd(c, a);
      assert Advance(c', a, n - 1) > bound;
      ExitsExactly(c', a, bound);
      var n' := ExitCount(c', a, bound);
      assert Advance(c, a, n' + 1) == Advance(c', a, n');
      assert n <= n' + 1;
      assert n' <= n - 1;
    }
  }

  /** Stepping the cursor does not change which bounds it will ever exceed. */
  lemma ExitsAgain(c: u64, a: u64, bound: int)
    ensures Exits(c, a, bound) <==> Exits(WrapAdd(c, a), a, bound)
  {
    AdvanceKeepsResidue(c, a, 1);
  }

  // ---------- cursors that do not wrap ----------

  /** The least multiple of `a` above `t`. */
  function NextEnd(t: int, a: int): int
    requires a > 0
  {
    (t / a + 1) * a
  }

  lemma MultipleStep(w: int, a: int)
    requires a > 0 && w % a == 0
    ensures (w + a) % a == 0 && (w - a) % a == 0
    ensures (w + a) / a == w / a + 1
  {
    assert w == (w / a) * a;
    assert w + a == (w / a + 1) * a;
    assert w - a == (w / a - 1) * a;
    DivModUnique(w + a, w / a + 1, 0, a);
    DivModUnique(w - a, w / a - 1, 0, a);
  }

  lemma NextEndIsLeast(t: int, a: int)
    requires a > 0
    ensures NextEnd(t, a) % a == 0 && t < NextEnd(t, a) <= t + a
    ensures forall w: int :: w % a == 0 && w > t ==> w >= NextEnd(t, a)
  {
    var q, r := t / a, t % a;
    assert t == q * a + r;
    assert NextEnd(t, a) == q * a + a;
    DivModUnique(q * a + a, q + 1, 0, a) by { assert q * a + a == (q + 1) * a; }
    forall w: int | w % a == 0 && w > t
      ensures w >= NextEnd(t, a)
    {
      MultipleAbove(w, t, a);
    }
  }

  lemma MultipleAbove(w: int, t: int, a: int)
    requires a > 0 && w % a == 0 && w > t
    ensures w >= NextEnd(t, a)
  {
    var q, p := t / a, w / a;
    assert w == p * a && t == q * a + t % a;
    MulOrder(p, q, a);
    MulOrder(q, p, a);
    assert NextEnd(t, a) == q * a + a;
  }

  /** None of the additions by which the cursor comes to exceed `t` wraps. */
  ghost predicate AdditionsExact(c: u64, a: u64, t: u64)
    requires Exits(c, a, t)
  {
    forall n: nat :: n < ExitCount(c, a, t) ==> Advance(c, a, n) + a < U64_LIMIT
  }

  /**
   * From a multiple of `a` none of the additions that a loop makes until its cursor exceeds `t`
   * wraps, if and only if the least multiple of `a` above `t` is a 64-bit value (or no addition
   * is made at all).
   */
  lemma {:induction false} NoWrapExactly(c: u64, a: u64, t: u64)
    requires a > 0 && c % a == 0 && Exits(c, a, t)
    ensures AdditionsExact(c, a, t) <==> (c > t || NextEnd(t, a) < U64_LIMIT)
    decreases ExitCount(c, a, t)
  {
    hide Exits, NextEnd, Grain;
    ExitStep(c, a, t);
    if c <= t {
      NextEndIsLeast(t, a);
      MultipleStep(c, a);
      assert Advance(c, a, 0) == c;
      if c + a < U64_LIMIT {
        NoWrapExactly(c + a, a, t);
        AdditionsFirst(c, a, t);
      } else {
        MultipleStep(NextEnd(t, a), a);
        if c > NextEnd(t, a) - a { MultipleBelow(c, NextEnd(t, a) - a, a); }
        assert !AdditionsExact(c, a, t);
      }
    }
  }

  lemma AdditionsFirst(c: u64, a: u64, t: u64)
    requires Exits(c, a, t) && c <= t && c + a < U64_LIMIT && Exits(c + a, a, t)
    ensures AdditionsExact(c, a, t) <==> AdditionsExact(c + a, a, t)
  {
    hide Exits, Grain;
    ExitStep(c, a, t);
    var next: u64 := c + a;
    assert WrapAdd(c, a) == next;
    if AdditionsExact(c, a, t) {
      forall n: nat | n < ExitCount(next, a, t)
        ensures Advance(next, a, n) + a < U64_LIMIT
      {
        assert Advance(c, a, n + 1) == Advance(next, a, n);
      }
    }
    if AdditionsExact(next, a, t) {
      forall n: nat | n < ExitCount(c, a, t)
        ensures Advance(c, a, n) + a < U64_LIMIT
      {
        if n > 0 { assert Advance(c, a, n) == Advance(next, a, n - 1); }
      }
    }
  }

  /** One addition on the way to a multiple that is a 64-bit value. */
  lemma NoWrapStep(cursor: u64, a: u64, t: int) returns (next: u64)
    requires a > 0 && cursor % a == 0 && cursor <= t && NextEnd(t, a) < U64_LIMIT
    ensures next == WrapAdd(cursor, a) == cursor + a
    ensures next % a == 0 && next <= NextEnd(t, a)
  {
    MultipleStep(cursor, a);
    MultipleStep(NextEnd(t, a), a) by { NextEndIsLeast(t, a); }
    NextEndIsLeast(t, a);
    if cursor + a > NextEnd(t, a) { MultipleBelow(cursor + a, NextEnd(t, a), a); }
    next := cursor + a;
  }

  /** A cursor exceeds every bound below a value that it can reach without wrapping. */
  lemma {:induction false} ExitsBelow(cursor: u64, a: u64, goal: u64, bound: int)
    requires a > 0 && cursor <= goal && (goal - cursor) % a == 0 && bound < goal
    ensures Exits(cursor, a, bound)
    decreases goal - cursor
  {
    hide Exits;
    if cursor == goal {
      assert Advance(cursor, a, 0) > bound;
      ExitsExactly(cursor, a, bound);
    } else {
      MultipleStep(goal - cursor, a);
      MultipleBelow(goal - cursor, 0, a);
      ExitsBelow(cursor + a, a, goal, bound);
      assert WrapAdd(cursor, a) == cursor + a;
      ExitsAgain(cursor, a, bound);
    }
  }

  lemma MultipleBelow(v: int, w: int, a: int)
    requires a > 0 && v % a == 0 && w % a == 0 && v > w
    ensures v >= w + a
  {
    MultipleAbove(v, w, a);
    assert w == (w / a) * a;
    assert NextEnd(w, a) == (w / a) * a + a;
  }
}
