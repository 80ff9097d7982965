/**
 * The slot engine: one thread per slot, started in order, and a main thread that polls the slots'
 * running flags one at a time until it has seen them all down.
 */
module Engines {
  import opened Types
  import opened Chains
  import Splits
  import opened Networks
  import opened Schedules
  import opened TimeWindows

  /** Where the main thread is in SlotEngine::execute: before starting slot k, before polling slot i. */
  datatype Main = Starting(k: nat) | Polling(i: nat) | Returned

  /** `crashed`: a started slot had no pipeline to run. */
  datatype Engine = Engine(net: Net, flags: seq<bool>, main: Main, crashed: bool)

  datatype Turn = MainTurn | SlotTurn(slot: nat)

  function Launch(segments: seq<seq<Op>>, source: seq<Event>, slots: nat): Engine {
    Engine(Init(segments, source), seq(slots, _ => false), Starting(0), false)
  }

  predicate Started(e: Engine, slot: nat) {
    slot < |e.flags| && (e.main.Starting? ==> slot < e.main.k)
  }

  predicate Sized(e: Engine) {
    |e.net.procs| == |e.net.inputs|
  }

  /** A slot's thread lives from its start until it has lowered its own flag. */
  predicate CanTurn(e: Engine, t: Turn)
    requires Sized(e)
  {
    && !e.crashed
    && match t
       case MainTurn => !e.main.Returned?
       case SlotTurn(j) =>
         && Started(e, j) && e.flags[j]
         && (j < |e.net.procs| ==> Enabled(e.net, j) || e.net.procs[j].phase.Terminated?)
  }

  function Turned(e: Engine, t: Turn): (e': Engine)
    requires Sized(e) && CanTurn(e, t)
    ensures Sized(e')
  {
    match t
    case MainTurn =>
      (match e.main
       case Starting(k) =>
         if k < |e.flags| then e.(flags := e.flags[k := true], main := Starting(k + 1))
         else e.(main := Polling(0))
       case Polling(i) =>
         if i >= |e.flags| then e.(main := Returned)
         else if e.flags[i] then e.(main := Polling(0))
         else e.(main := Polling(i + 1)))
    case SlotTurn(j) =>
      if j >= |e.net.procs| then e.(crashed := true)
      else if e.net.procs[j].phase.Terminated? then e.(flags := e.flags[j := false])
      else e.(net := After(e.net, j))
  }

  predicate ValidTurns(e: Engine, turns: seq<Turn>)
    requires Sized(e)
    decreases |turns|
  {
    turns == [] || (CanTurn(e, turns[0]) && ValidTurns(Turned(e, turns[0]), turns[1..]))
  }

  function Drive(e: Engine, turns: seq<Turn>): (e': Engine)
    requires Sized(e) && ValidTurns(e, turns)
    ensures Sized(e')
    decreases |turns|
  {
    if turns == [] then e else Drive(Turned(e, turns[0]), turns[1..])
  }

  ghost predicate EngineInv(e: Engine, segments: seq<seq<Op>>, source: seq<Event>, slots: nat) {
    && Inv(e.net, segments, source)
    && |e.net.procs| == |e.net.inputs| == |segments| && |e.flags| == slots
    && (e.main.Starting? ==> e.main.k <= slots)
    && (e.main.Starting? ==> forall j :: e.main.k <= j < slots ==> !e.flags[j])
    // a flag that is down after its slot was started stays down: the pipeline has terminated
    && (forall j :: 0 <= j < slots && Started(e, j) && !e.flags[j] ==>
          j < |segments| && e.net.procs[j].phase.Terminated?)
    && (e.main.Polling? ==> e.main.i <= slots && forall j :: 0 <= j < e.main.i ==> !e.flags[j])
    && (e.main.Returned? ==> forall j :: 0 <= j < slots ==> !e.flags[j])
    // pipelines beyond the slots are never run
    && (forall j :: slots <= j < |segments| ==> e.net.procs[j].phase.Created?)
    && (e.crashed ==> slots > |segments|)
  }

  lemma LaunchInv(segments: seq<seq<Op>>, source: seq<Event>, slots: nat)
    ensures EngineInv(Launch(segments, source, slots), segments, source, slots)
  {
    hide Inv;
    InitInv(segments, source);
  }

  lemma MainKeepsInv(e: Engine, segments: seq<seq<Op>>, source: seq<Event>, slots: nat)
    requires EngineInv(e, segments, source, slots) && CanTurn(e, MainTurn)
    ensures EngineInv(Turned(e, MainTurn), segments, source, slots)
  {
    hide Inv, Enabled, After;
  }

  lemma SlotKeepsInv(e: Engine, segments: seq<seq<Op>>, source: seq<Event>, slots: nat, j: nat)
    requires WellCut(segments)
    requires EngineInv(e, segments, source, slots) && CanTurn(e, SlotTurn(j))
    ensures EngineInv(Turned(e, SlotTurn(j)), segments, source, slots)
  {
    if j < |segments| && !e.net.procs[j].phase.Terminated? {
      StepKeepsInv(e.net, segments, source, j);
      forall i | 0 <= i < |segments| && i != j
        ensures After(e.net, j).procs[i] == e.net.procs[i]
      {
        StepFrame(e.net, j, i);
      }
      hide Inv, Enabled, After;
    } else {
      hide Inv, Enabled, After;
    }
  }

  lemma {:induction false} DriveKeepsInv(
    e: Engine, segments: seq<seq<Op>>, source: seq<Event>, slots: nat, turns: seq<Turn>)
    requires WellCut(segments) && EngineInv(e, segments, source, slots)
    requires Sized(e) && ValidTurns(e, turns)
    ensures EngineInv(Drive(e, turns), segments, source, slots)
    decreases |turns|
  {
    hide EngineInv, CanTurn, Turned;
    if turns != [] {
      match turns[0] {
        case MainTurn => MainKeepsInv(e, segments, source, slots);
        case SlotTurn(j) => SlotKeepsInv(e, segments, source, slots, j);
      }
      DriveKeepsInv(Turned(e, turns[0]), segments, source, slots, turns[1..]);
    }
  }

  lemma DownMeansEnded(e: Engine, segments: seq<seq<Op>>, source: seq<Event>, slots: nat, j: nat)
    requires EngineInv(e, segments, source, slots) && e.main.Returned? && j < slots
    ensures j < |segments| && e.net.procs[j].phase.Terminated?
  {
    hide Inv;
    assert Started(e, j) && !e.flags[j];
  }

  /**
   * Whenever execute returns, no slot was without a pipeline, and all pipelines have terminated
   * if and only if there are as many slots as pipelines. The flags are polled one at a time, but
   * what has been seen down stays down.
   */
  lemma ExecuteReturns(segments: seq<seq<Op>>, source: seq<Event>, slots: nat, turns: seq<Turn>)
    requires WellCut(segments)
    requires ValidTurns(Launch(segments, source, slots), turns)
    requires Drive(Launch(segments, source, slots), turns).main.Returned?
    ensures var e := Drive(Launch(segments, source, slots), turns);
            && |e.net.procs| == |segments| && slots <= |segments| && !e.crashed
            && (forall j :: 0 <= j < slots ==> e.net.procs[j].phase.Terminated?)
            && (forall j :: slots <= j < |segments| ==> e.net.procs[j].phase.Created?)
            && (AllTerminated(e.net) <==> slots == |segments|)
  {
    hide Inv, Drive, ValidTurns;
    LaunchInv(segments, source, slots);
    DriveKeepsInv(Launch(segments, source, slots), segments, source, slots, turns);
    var e := Drive(Launch(segments, source, slots), turns);
    forall j | 0 <= j < slots
      ensures j < |segments| && e.net.procs[j].phase.Terminated?
    {
      DownMeansEnded(e, segments, source, slots, j);
    }
    if slots > 0 { DownMeansEnded(e, segments, source, slots, slots - 1); }
    if slots < |segments| {
      assert e.net.procs[slots].phase.Created?;
    }
  }

  /**
   * With as many slots as pipelines the engine never crashes, and when it returns every operator
   * is in the state in which running the pipelines one after the other leaves it.
   */
  lemma ExecuteComputesSequentialRun(
    segments: seq<seq<Op>>, source: seq<Event>, turns: seq<Turn>)
    requires WellCut(segments)
    requires ValidTurns(Launch(segments, source, |segments|), turns)
    ensures !Drive(Launch(segments, source, |segments|), turns).crashed
    ensures |Drive(Launch(segments, source, |segments|), turns).net.procs| == |segments|
    ensures Drive(Launch(segments, source, |segments|), turns).main.Returned? ==>
              && Splits.SeqRun(segments, source).Done?
              && forall i :: 0 <= i < |segments| ==>
                   Drive(Launch(segments, source, |segments|), turns).net.procs[i].ops
                   == Splits.SeqRun(segments, source).value[i]
  {
    hide Inv, Drive, ValidTurns, Splits.SeqRun, NoHang;
    var n := |segments|;
    LaunchInv(segments, source, n);
    DriveKeepsInv(Launch(segments, source, n), segments, source, n, turns);
    var e := Drive(Launch(segments, source, n), turns);
    if e.main.Returned? {
      ExecuteReturns(segments, source, n, turns);
      TerminationMeansNoHang(e.net, segments, source);
      EndState(e.net, segments, source);
    }
  }

  // ---------- slots without a pipeline ----------

  lemma NeverReturned(e: Engine, segments: seq<seq<Op>>, source: seq<Event>, slots: nat)
    requires slots > |segments| && EngineInv(e, segments, source, slots)
    ensures !e.main.Returned?
  {
    hide EngineInv;
    if e.main.Returned? { DownMeansEnded(e, segments, source, slots, |segments|); }
  }

  /** Starting the slots up to one that has no pipeline, and letting that one run, crashes. */
  lemma {:induction false} TurnsToCrash(e: Engine, segments: seq<seq<Op>>, source: seq<Event>, slots: nat)
    returns (turns: seq<Turn>)
    requires slots > |segments| && EngineInv(e, segments, source, slots) && Sized(e) && !e.crashed
    ensures ValidTurns(e, turns) && Drive(e, turns).crashed
    decreases if e.main.Starting? then slots - e.main.k else 0
  {
    hide Inv;
    var j := |segments|;
    NeverReturned(e, segments, source, slots);
    if e.main.Starting? && e.main.k <= j {
      MainKeepsInv(e, segments, source, slots);
      var rest := TurnsToCrash(Turned(e, MainTurn), segments, source, slots);
      TurnFirst(e, MainTurn, rest);
      turns := [MainTurn] + rest;
    } else {
      assert Started(e, j) && CanTurn(e, SlotTurn(j));
      TurnFirst(e, SlotTurn(j), []);
      turns := [SlotTurn(j)] + [];
    }
  }

  /**
   * With more slots than pipelines execute never returns, and from every state that any turns lead
   * to some more turns crash it, if it has not crashed yet: a started slot runs a pipeline it has
   * not got.
   */
  lemma ExecuteCrashes(segments: seq<seq<Op>>, source: seq<Event>, slots: nat, turns: seq<Turn>)
    requires WellCut(segments) && slots > |segments|
    requires ValidTurns(Launch(segments, source, slots), turns)
    ensures var e := Drive(Launch(segments, source, slots), turns);
            && !e.main.Returned?
            && (!e.crashed ==> exists more: seq<Turn> :: ValidTurns(e, more) && Drive(e, more).crashed)
  {
    hide EngineInv, WellCut, ValidTurns, Drive;
    LaunchInv(segments, source, slots);
    DriveKeepsInv(Launch(segments, source, slots), segments, source, slots, turns);
    var e := Drive(Launch(segments, source, slots), turns);
    NeverReturned(e, segments, source, slots);
    if !e.crashed {
      var more := TurnsToCrash(e, segments, source, slots);
    }
  }

  lemma TurnFirst(e: Engine, t: Turn, rest: seq<Turn>)
    requires Sized(e) && CanTurn(e, t) && ValidTurns(Turned(e, t), rest)
    ensures ValidTurns(e, [t] + rest) && Drive(e, [t] + rest) == Drive(Turned(e, t), rest)
  {
    hide CanTurn, Turned;
    assert ([t] + rest)[1..] == rest;
  }

  // ---------- it does return ----------

  /** Slots among the first `k` whose thread has not yet lowered its flag. */
  function Alive(e: Engine, k: nat): nat
    requires k <= |e.flags|
  {
    if k == 0 then 0 else Alive(e, k - 1) + if Started(e, k - 1) && !e.flags[k - 1] then 0 else 1
  }

  function SlotTurns(turns: seq<Turn>): nat {
    if turns == [] then 0 else (if turns[0].SlotTurn? then 1 else 0) + SlotTurns(turns[1..])
  }

  function Budget(e: Engine, segments: seq<seq<Op>>, source: seq<Event>): int
    requires |e.net.procs| == |e.net.inputs| == |segments|
  {
    Total(e.net, segments, source, |segments|) + Alive(e, |e.flags|)
  }

  lemma {:induction false} AliveAfter(e: Engine, t: Turn, k: nat)
    requires Sized(e) && CanTurn(e, t) && k <= |e.flags|
    requires e.main.Starting? ==> forall j :: e.main.k <= j < |e.flags| ==> !e.flags[j]
    requires t.SlotTurn? ==> t.slot < |e.net.procs|
    ensures |Turned(e, t).flags| == |e.flags|
    ensures Alive(Turned(e, t), k)
            == Alive(e, k) - if t.SlotTurn? && t.slot < k && e.net.procs[t.slot].phase.Terminated? then 1 else 0
  {
    hide After, Enabled;
    if k > 0 { AliveAfter(e, t, k - 1); }
  }

  lemma TurnUses(e: Engine, segments: seq<seq<Op>>, source: seq<Event>, t: Turn)
    requires WellCut(segments) && NoHang(segments, source)
    requires EngineInv(e, segments, source, |segments|) && CanTurn(e, t)
    ensures |Turned(e, t).net.procs| == |Turned(e, t).net.inputs| == |segments|
    ensures Budget(Turned(e, t), segments, source)
            <= Budget(e, segments, source) - if t.SlotTurn? then 1 else 0
  {
    if t.SlotTurn? && !e.net.procs[t.slot].phase.Terminated? {
      StepUses(e.net, segments, source, t.slot);
    }
    hide Total, Inv, After, Enabled, NoHang;
    AliveAfter(e, t, |e.flags|);
  }

  /** However the threads take turns, the slots' threads take only boundedly many. */
  lemma {:induction false} SlotTurnsBounded(
    e: Engine, segments: seq<seq<Op>>, source: seq<Event>, turns: seq<Turn>)
    requires WellCut(segments) && NoHang(segments, source)
    requires EngineInv(e, segments, source, |segments|)
    requires Sized(e) && ValidTurns(e, turns)
    requires |e.net.procs| == |e.net.inputs| == |segments|
    ensures SlotTurns(turns) <= Budget(e, segments, source)
    decreases |turns|
  {
    hide EngineInv, CanTurn, Turned, Budget, NoHang;
    if turns == [] {
      BudgetIsNat(e, segments, source);
    } else {
      TurnUses(e, segments, source, turns[0]);
      match turns[0] {
        case MainTurn => MainKeepsInv(e, segments, source, |segments|);
        case SlotTurn(j) => SlotKeepsInv(e, segments, source, |segments|, j);
      }
      SlotTurnsBounded(Turned(e, turns[0]), segments, source, turns[1..]);
    }
  }

  lemma BudgetIsNat(e: Engine, segments: seq<seq<Op>>, source: seq<Event>)
    requires WellCut(segments) && NoHang(segments, source)
    requires EngineInv(e, segments, source, |segments|)
    requires |e.net.procs| == |e.net.inputs| == |segments|
    ensures Budget(e, segments, source) >= 0
  {
    hide Inv, NoHang;
    TotalIsNat(e.net, segments, source, |segments|);
  }

  /** Unless all flags are down, some slot's thread can take a turn or a slot is still to be started. */
  lemma SomeoneCanTurn(e: Engine, segments: seq<seq<Op>>, source: seq<Event>)
    requires WellCut(segments) && NoHang(segments, source)
    requires EngineInv(e, segments, source, |segments|) && !e.main.Starting?
    requires exists j :: 0 <= j < |segments| && e.flags[j]
    ensures exists j: nat :: CanTurn(e, SlotTurn(j))
  {
    hide Inv, NoHang, After;
    var j :| 0 <= j < |segments| && e.flags[j];
    if e.net.procs[j].phase.Terminated? {
      assert CanTurn(e, SlotTurn(j));
    } else {
      NotStuck(e.net, segments, source);
      var i: nat :| Enabled(e.net, i);
      EnabledIsLive(e.net, i);
      assert CanTurn(e, SlotTurn(i));
    }
  }

  lemma EnabledIsLive(net: Net, i: nat)
    requires |net.procs| == |net.inputs| && Enabled(net, i)
    ensures i < |net.procs| && !net.procs[i].phase.Terminated?
  {}

  /** Once all flags are down the main thread returns after one more pass over the slots. */
  lemma {:induction false} ReturnsOnceDown(e: Engine) returns (turns: seq<Turn>)
    requires Sized(e) && !e.crashed && e.main.Polling? && e.main.i <= |e.flags|
    requires forall j :: 0 <= j < |e.flags| ==> !e.flags[j]
    ensures |turns| == |e.flags| - e.main.i + 1 && SlotTurns(turns) == 0
    ensures ValidTurns(e, turns) && Drive(e, turns).main.Returned?
    decreases |e.flags| - e.main.i
  {
    var e' := Turned(e, MainTurn);
    if e.main.i == |e.flags| {
      turns := [MainTurn];
      assert turns[1..] == [];
      assert Drive(e', []) == e';
    } else {
      var rest := ReturnsOnceDown(e');
      turns := [MainTurn] + rest;
      assert turns[1..] == rest;
    }
  }

  lemma InvFacts(e: Engine, segments: seq<seq<Op>>, source: seq<Event>)
    requires EngineInv(e, segments, source, |segments|)
    ensures Sized(e) && !e.crashed && |e.net.procs| == |e.flags| == |segments|
    ensures e.main.Starting? ==> e.main.k <= |segments|
    ensures e.main.Polling? ==> e.main.i <= |segments|
  {
    hide Inv;
  }

  /** A schedule that ends: start every slot, let the threads run until all flags are down, poll. */
  lemma {:induction false} TurnsToReturn(e: Engine, segments: seq<seq<Op>>, source: seq<Event>)
    returns (turns: seq<Turn>)
    requires WellCut(segments) && NoHang(segments, source)
    requires EngineInv(e, segments, source, |segments|)
    requires |e.net.procs| == |e.net.inputs| == |segments|
    ensures ValidTurns(e, turns) && Drive(e, turns).main.Returned?
    decreases Budget(e, segments, source), if e.main.Starting? then |segments| - e.main.k + 1 else 0
  {
    hide EngineInv, Budget, NoHang, WellCut, Turned, CanTurn;
    InvFacts(e, segments, source);
    BudgetIsNat(e, segments, source);
    if e.main.Returned? {
      turns := [];
    } else if e.main.Polling? && forall j :: 0 <= j < |segments| ==> !e.flags[j] {
      turns := ReturnsOnceDown(e);
    } else {
      var t := NextTurn(e, segments, source);
      TurnUses(e, segments, source, t);
      var rest := TurnsToReturn(Turned(e, t), segments, source);
      TurnFirst(e, t, rest);
      turns := [t] + rest;
    }
  }

  /** The next turn of that schedule. */
  lemma NextTurn(e: Engine, segments: seq<seq<Op>>, source: seq<Event>) returns (t: Turn)
    requires WellCut(segments) && NoHang(segments, source)
    requires EngineInv(e, segments, source, |segments|) && Sized(e) && |e.flags| == |segments|
    requires e.main.Starting? || (e.main.Polling? && exists j :: 0 <= j < |segments| && e.flags[j])
    ensures CanTurn(e, t) && EngineInv(Turned(e, t), segments, source, |segments|)
    ensures if e.main.Starting? then
              t.MainTurn? && (Turned(e, t).main == Polling(0) || Turned(e, t).main == Starting(e.main.k + 1))
            else t.SlotTurn?
  {
    hide EngineInv, NoHang, WellCut, Enabled, After;
    InvFacts(e, segments, source);
    if e.main.Starting? {
      t := MainTurn;
      MainKeepsInv(e, segments, source, |segments|);
    } else {
      SomeoneCanTurn(e, segments, source);
      var j: nat :| CanTurn(e, SlotTurn(j));
      t := SlotTurn(j);
      SlotKeepsInv(e, segments, source, |segments|, j);
    }
  }

  /**
   * With as many slots as pipelines: if running the pipelines in sequence does not hang, execute
   * can go on to return from every state that any turns have led to; and it can return at all
   * only if that run does not hang.
   */
  lemma ExecuteCanAlwaysReturn(segments: seq<seq<Op>>, source: seq<Event>, turns: seq<Turn>)
    requires WellCut(segments)
    requires ValidTurns(Launch(segments, source, |segments|), turns)
    ensures Splits.SeqRun(segments, source).Done? <==>
            exists more: seq<Turn> ::
              var e := Drive(Launch(segments, source, |segments|), turns);
              ValidTurns(e, more) && Drive(e, more).main.Returned?
  {
    hide EngineInv, NoHang, WellCut, Splits.SeqRun, ValidTurns, Drive;
    var n := |segments|;
    LaunchInv(segments, source, n);
    DriveKeepsInv(Launch(segments, source, n), segments, source, n, turns);
    var e := Drive(Launch(segments, source, n), turns);
    SeqRunStages(segments, source);
    InvFacts(e, segments, source);
    if Splits.SeqRun(segments, source).Done? {
      var more := TurnsToReturn(e, segments, source);
      assert ValidTurns(e, more) && Drive(e, more).main.Returned?;
    }
    if more: seq<Turn> :| ValidTurns(e, more) && Drive(e, more).main.Returned? {
      DriveKeepsInv(e, segments, source, n, more);
      ReturnedMeansNoHang(Drive(e, more), segments, source);
    }
  }

  lemma ReturnedMeansNoHang(e: Engine, segments: seq<seq<Op>>, source: seq<Event>)
    requires WellCut(segments) && EngineInv(e, segments, source, |segments|) && e.main.Returned?
    ensures NoHang(segments, source)
  {
    hide Inv, NoHang, WellCut;
    forall j | 0 <= j < |segments|
      ensures e.net.procs[j].phase.Terminated?
    {
      DownMeansEnded(e, segments, source, |segments|, j);
    }
    TerminationMeansNoHang(e.net, segments, source);
  }
}
