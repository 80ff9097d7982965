/** The sorted event buffer of the time window, and what its contents mean. */
module EventBuffers {
  import opened Types

  predicate Sorted(s: seq<Event>) {
    forall i, j :: 0 <= i < j < |s| ==> s[i].ts <= s[j].ts
  }

  /** Index of the first event of a sorted sequence whose timestamp is at least `t`. */
  ghost predicate IsLowerBound(s: seq<Event>, t: int, k: nat) {
    k <= |s|
    && (forall i :: 0 <= i < k ==> s[i].ts < t)
    && (forall i :: k <= i < |s| ==> t <= s[i].ts)
  }

  /** The events with timestamp in [a, b), in the order in which `s` lists them. */
  function Between(s: seq<Event>, a: int, b: int): seq<Event> {
    if s == [] then []
    else if a <= s[0].ts < b then [s[0]] + Between(s[1..], a, b)
    else Between(s[1..], a, b)
  }

  /** A sorted sequence after insertion at the lower bound of the new timestamp. */
  function Inserted(s: seq<Event>, e: Event): seq<Event> {
    if s == [] || e.ts <= s[0].ts then [e] + s else [s[0]] + Inserted(s[1..], e)
  }

  /** The buffer after every event of `h` has been inserted, nothing being removed. */
  function Arrange(h: seq<Event>): seq<Event> {
    if h == [] then [] else Inserted(Arrange(h[..|h| - 1]), h[|h| - 1])
  }

  function Reverse<T>(s: seq<T>): seq<T> {
    if s == [] then [] else Reverse(s[1..]) + [s[0]]
  }

  /**
   * The batch meaning of the window [a, b) over an arrival history: timestamp by timestamp,
   * and within one timestamp the latest arrival first.
   */
  function Window(h: seq<Event>, a: int, b: int): seq<Event>
    decreases b - a
  {
    if a >= b then [] else Reverse(Between(h, a, a + 1)) + Window(h, a + 1, b)
  }

  // ---------- filtering by timestamp ----------

  lemma {:induction false} BetweenConcat(s: seq<Event>, t: seq<Event>, a: int, b: int)
    ensures Between(s + t, a, b) == Between(s, a, b) + Between(t, a, b)
  {
    if s == [] {
      assert s + t == t;
    } else {
      assert (s + t)[1..] == s[1..] + t;
      BetweenConcat(s[1..], t, a, b);
    }
  }

  lemma BetweenAppend(s: seq<Event>, e: Event, a: int, b: int)
    ensures Between(s + [e], a, b)
            == if a <= e.ts < b then Between(s, a, b) + [e] else Between(s, a, b)
  {
    BetweenConcat(s, [e], a, b);
    assert Between([e][1..], a, b) == [];
  }

  lemma {:induction false} BetweenAll(s: seq<Event>, a: int, b: int)
    requires forall i :: 0 <= i < |s| ==> a <= s[i].ts < b
    ensures Between(s, a, b) == s
  {
    if s != [] { BetweenAll(s[1..], a, b); }
  }

  lemma {:induction false} BetweenNone(s: seq<Event>, a: int, b: int)
    requires forall i :: 0 <= i < |s| ==> !(a <= s[i].ts < b)
    ensures Between(s, a, b) == []
  {
    if s != [] { BetweenNone(s[1..], a, b); }
  }

  lemma {:induction false} BetweenNested(s: seq<Event>, a: int, b: int, c: int, d: int)
    requires c <= a && b <= d
    ensures Between(Between(s, c, d), a, b) == Between(s, a, b)
  {
    if s != [] {
      BetweenNested(s[1..], a, b, c, d);
      assert c <= s[0].ts < d ==> Between(s, c, d)[1..] == Between(s[1..], c, d);
    }
  }

  lemma {:induction false} BetweenMembers(s: seq<Event>, a: int, b: int)
    ensures |Between(s, a, b)| <= |s|
    ensures forall e :: e in Between(s, a, b) <==> e in s && a <= e.ts < b
    ensures forall e :: multiset(Between(s, a, b))[e] == if a <= e.ts < b then multiset(s)[e] else 0
  {
    if s != [] {
      BetweenMembers(s[1..], a, b);
      assert s == [s[0]] + s[1..];
      assert multiset(s) == multiset{s[0]} + multiset(s[1..]);
    }
  }

  /** In a sorted sequence the events of [a, b) are the slice between the two lower bounds. */
  lemma SliceIsBetween(s: seq<Event>, a: int, b: int, lo: nat, hi: nat)
    requires Sorted(s) && lo <= hi
    requires IsLowerBound(s, a, lo) && IsLowerBound(s, b, hi)
    ensures s[lo..hi] == Between(s, a, b)
  {
    assert s == s[..lo] + (s[lo..hi] + s[hi..]);
    BetweenMiddle(s[..lo], s[lo..hi], s[hi..], a, b);
  }

  lemma BetweenMiddle(front: seq<Event>, mid: seq<Event>, back: seq<Event>, a: int, b: int)
    requires forall i :: 0 <= i < |front| ==> front[i].ts < a
    requires forall i :: 0 <= i < |mid| ==> a <= mid[i].ts < b
    requires forall i :: 0 <= i < |back| ==> b <= back[i].ts
    ensures Between(front + (mid + back), a, b) == mid
  {
    BetweenNone(front, a, b);
    BetweenAll(mid, a, b);
    BetweenNone(back, a, b);
    BetweenConcat(front, mid + back, a, b);
    BetweenConcat(mid, back, a, b);
  }

  lemma {:induction false} BetweenSorted(s: seq<Event>, a: int, b: int)
    requires Sorted(s)
    ensures Sorted(Between(s, a, b))
  {
    if s != [] {
      BetweenSorted(s[1..], a, b);
      BetweenMembers(s[1..], a, b);
      SortedCons(s[0], Between(s[1..], a, b));
    }
  }

  lemma SortedCons(x: Event, rest: seq<Event>)
    requires Sorted(rest)
    requires forall e :: e in rest ==> x.ts <= e.ts
    ensures Sorted([x] + rest)
  {
    forall j | 0 <= j < |rest|
      ensures x.ts <= rest[j].ts
    {
      assert rest[j] in rest;
    }
  }

  // ---------- insertion ----------

  lemma {:induction false} InsertedAtLowerBound(s: seq<Event>, e: Event, k: nat)
    requires IsLowerBound(s, e.ts, k)
    ensures Inserted(s, e) == s[..k] + [e] + s[k..]
  {
    if k == 0 {
      assert s[..0] + [e] + s[0..] == [e] + s;
    } else {
      InsertedAtLowerBound(s[1..], e, k - 1);
      assert s[..k] + [e] + s[k..] == [s[0]] + (s[1..][..k - 1] + [e] + s[1..][k - 1..]);
    }
  }

  lemma {:induction false} InsertedSorted(s: seq<Event>, e: Event)
    requires Sorted(s)
    ensures Sorted(Inserted(s, e))
    ensures multiset(Inserted(s, e)) == multiset(s) + multiset{e}
  {
    if s == [] || e.ts <= s[0].ts {
    } else {
      InsertedSorted(s[1..], e);
      var rest := Inserted(s[1..], e);
      assert s == [s[0]] + s[1..];
      InsertedMembers(s[1..], e);
      SortedCons(s[0], rest);
    }
  }

  lemma {:induction false} InsertedMembers(s: seq<Event>, e: Event)
    ensures forall x :: x in Inserted(s, e) <==> x == e || x in s
  {
    if s == [] || e.ts <= s[0].ts {
    } else {
      InsertedMembers(s[1..], e);
      assert s == [s[0]] + s[1..];
    }
  }

  /** Insertion commutes with looking at a range of timestamps. */
  lemma {:induction false} BetweenInserted(s: seq<Event>, e: Event, a: int, b: int)
    requires Sorted(s)
    ensures Between(Inserted(s, e), a, b)
            == if a <= e.ts < b then Inserted(Between(s, a, b), e) else Between(s, a, b)
  {
    if s == [] {
    } else if e.ts <= s[0].ts {
      assert ([e] + s)[1..] == s;
      InsertedInFront(Between(s, a, b), e) by { BetweenMembers(s, a, b); }
    } else {
      var x, tail := s[0], s[1..];
      BetweenInserted(tail, e, a, b);
      assert ([x] + Inserted(tail, e))[1..] == Inserted(tail, e);
      if a <= x.ts < b {
        assert ([x] + Between(tail, a, b))[1..] == Between(tail, a, b);
      } else if a <= e.ts < b {
        assert Between(s, a, b) == Between(tail, a, b);
      }
    }
  }

  lemma InsertedInFront(s: seq<Event>, e: Event)
    requires forall x :: x in s ==> e.ts <= x.ts
    ensures Inserted(s, e) == [e] + s
  {
    assert s != [] ==> s[0] in s;
  }

  lemma {:induction false} ArrangeSorted(h: seq<Event>)
    ensures Sorted(Arrange(h))
    ensures multiset(Arrange(h)) == multiset(h)
  {
    hide Inserted;
    if h != [] {
      ArrangeSorted(h[..|h| - 1]);
      InsertedSorted(Arrange(h[..|h| - 1]), h[|h| - 1]);
      assert h == h[..|h| - 1] + [h[|h| - 1]];
    }
  }

  lemma {:induction false} ReverseAppend<T>(s: seq<T>, x: T)
    ensures Reverse(s + [x]) == [x] + Reverse(s)
  {
    if s != [] {
      ReverseAppend(s[1..], x);
      assert (s + [x])[1..] == s[1..] + [x];
    }
  }

  lemma InsertAmongTies(s: seq<Event>, e: Event)
    ensures Inserted(Between(s, e.ts, e.ts + 1), e) == [e] + Between(s, e.ts, e.ts + 1)
  {
    BetweenMembers(s, e.ts, e.ts + 1);
    InsertedInFront(Between(s, e.ts, e.ts + 1), e);
  }

  lemma NothingReversed(t: int)
    ensures Between([], t, t + 1) == [] && Reverse(Between([], t, t + 1)) == []
  {}

  /** Equal timestamps sit in reverse arrival order. */
  lemma {:induction false} TiesAreReversed(h: seq<Event>, t: int)
    ensures Between(Arrange(h), t, t + 1) == Reverse(Between(h, t, t + 1))
  {
    hide Inserted, Between, Reverse;
    if h == [] {
      NothingReversed(t);
    } else {
      var front, e := h[..|h| - 1], h[|h| - 1];
      TiesAreReversed(front, t);
      ArrangeSorted(front);
      BetweenInserted(Arrange(front), e, t, t + 1);
      BetweenAppend(front, e, t, t + 1);
      assert h == front + [e];
      if e.ts == t {
        InsertAmongTies(Arrange(front), e);
        ReverseAppend(Between(front, t, t + 1), e);
      }
    }
  }

  lemma SeqAssoc<T>(a: seq<T>, b: seq<T>, c: seq<T>)
    ensures a + b + c == a + (b + c)
  {}

  lemma SplitAt<T>(s: seq<T>, k: nat)
    requires k < |s|
    ensures s == s[..k] + ([s[k]] + s[k + 1..])
  {}

  /** A sorted sequence lists the events of [a, c) before those of [c, b). */
  lemma {:induction false} BetweenSplit(s: seq<Event>, a: int, c: int, b: int)
    requires Sorted(s) && a <= c <= b
    ensures Between(s, a, b) == Between(s, a, c) + Between(s, c, b)
  {
    if s != [] {
      var tail := s[1..];
      BetweenSplit(tail, a, c, b);
      if c <= s[0].ts {
        BetweenNone(tail, a, c);
        assert Between(s, a, c) == [];
      } else {
        assert Between(s, c, b) == Between(tail, c, b);
        SeqAssoc([s[0]], Between(tail, a, c), Between(tail, c, b));
      }
    }
  }

  /**
   * Querying the buffer is looking at a window of the arrival history: sorted by timestamp,
   * ties in reverse arrival order.
   */
  lemma {:induction false} QueryIsWindow(h: seq<Event>, a: int, b: int)
    ensures Between(Arrange(h), a, b) == Window(h, a, b)
    decreases b - a
  {
    if a >= b {
      BetweenNone(Arrange(h), a, b);
    } else {
      QueryIsWindow(h, a + 1, b);
      TiesAreReversed(h, a);
      ArrangeSorted(h);
      BetweenSplit(Arrange(h), a, a + 1, b);
    }
  }

  /** Events outside [a, b) do not change what the window [a, b) shows. */
  lemma {:induction false} WindowIgnores(h: seq<Event>, e: Event, a: int, b: int)
    requires !(a <= e.ts < b)
    ensures Window(h + [e], a, b) == Window(h, a, b)
    decreases b - a
  {
    hide Between, Reverse;
    if a < b {
      WindowIgnores(h, e, a + 1, b);
      BetweenAppend(h, e, a, a + 1);
    }
  }

  /** A window holds every copy of exactly the events whose timestamps lie in it. */
  lemma WindowMembers(h: seq<Event>, a: int, b: int, e: Event)
    ensures multiset(Window(h, a, b))[e] == if a <= e.ts < b then multiset(h)[e] else 0
  {
    QueryIsWindow(h, a, b);
    ArrangeSorted(h);
    BetweenMembers(Arrange(h), a, b);
  }

  // ---------- the buffer itself ----------

  class EventBuffer {
    var events: seq<Event>

    ghost predicate Valid()
      reads this
    {
      Sorted(events)
    }

    constructor ()
      ensures Valid() && events == []
    {
      events := [];
    }

    /** std::ranges::lower_bound over the timestamps: halves the remaining length each round. */
    method LowerBound(t: u64) returns (first: nat)
      requires Valid()
      ensures IsLowerBound(events, t, first)
    {
      first := 0;
      var len: nat := |events|;
      while len > 0
        invariant 0 <= len && first + len <= |events|
        invariant forall i :: 0 <= i < first ==> events[i].ts < t
        invariant forall i :: first + len <= i < |events| ==> t <= events[i].ts
      {
        var half := len / 2;
        if events[first + half].ts < t {
          first := first + half + 1;
          len := len - half - 1;
        } else {
          len := half;
        }
      }
    }

    method Insert(event: Event)
      requires Valid()
      modifies this
      ensures Valid()
      ensures events == Inserted(old(events), event)
    {
      var pos := LowerBound(event.ts);
      InsertedAtLowerBound(events, event, pos);
      InsertedSorted(events, event);
      events := events[..pos] + [event] + events[pos..];
    }

    method Extract(start: u64, end: u64) returns (result: seq<Event>)
      requires Valid() && start <= end
      modifies this
      ensures Valid()
      ensures result == Between(old(events), start, end)
      ensures events == Between(old(events), 0, start) + Between(old(events), end, U64_LIMIT)
    {
      var lo := LowerBound(start);
      var hi := LowerBound(end);
      BoundsInOrder(events, start, end, lo, hi);
      SliceIsBetween(events, start, end, lo, hi);
      SliceIsBetween(events, 0, start, 0, lo);
      SliceIsBetween(events, end, U64_LIMIT, hi, |events|);
      result := events[lo..hi];
      assert events[0..lo] == events[..lo] && events[hi..|events|] == events[hi..];
      events := events[..lo] + events[hi..];
    }

    method Query(start: u64, end: u64) returns (result: seq<Event>)
      requires Valid() && start <= end
      ensures result == Between(events, start, end)
    {
      var lo := LowerBound(start);
      var hi := LowerBound(end);
      BoundsInOrder(events, start, end, lo, hi);
      SliceIsBetween(events, start, end, lo, hi);
      result := [];
      var it := lo;
      while it != hi
        invariant lo <= it <= hi
        invariant result == events[lo..it]
        decreases hi - it
      {
        result := result + [events[it]];
        it := it + 1;
      }
    }

    method CleanupBefore(timestamp: u64)
      requires Valid()
      modifies this
      ensures Valid()
      ensures events == Between(old(events), timestamp, U64_LIMIT)
    {
      var pos := LowerBound(timestamp);
      SliceIsBetween(events, timestamp, U64_LIMIT, pos, |events|);
      events := events[pos..];
    }

    method Empty() returns (r: bool)
      ensures r <==> events == []
    {
      r := |events| == 0;
    }
  }

  lemma BoundsInOrder(s: seq<Event>, a: int, b: int, lo: nat, hi: nat)
    requires a <= b && IsLowerBound(s, a, lo) && IsLowerBound(s, b, hi)
    ensures lo <= hi
  {
    assert hi < |s| ==> b <= s[hi].ts;
  }
}
