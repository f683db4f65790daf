/** What the sweeper takes out of the registry, and when: which entries can still be looked up, and a recording
    that finishes too late for it. */
module RttSweep {
  import opened Wrappers
  import opened RttRegistry

  /** Some address leads to the entry, so its value can still be looked up. */
  predicate Mapped(s: State, id: nat) {
    exists a <- s.entries :: s.entries[a] == id
  }

  /** The sweeper's next step takes the entry out of the table. */
  predicate Deletes(s: State, step: Step, id: nat) {
    step.SweepAdvance? && s.sweeper.Deleting? && s.sweeper.addr in s.entries && s.entries[s.sweeper.addr] == id
  }

  /** Some step of the run took the entry out. */
  predicate Deleted(steps: seq<Step>, id: nat)
    decreases |steps|
  {
    |steps| > 0 && (
      || Deleted(steps[..|steps| - 1], id)
      || (Run(steps[..|steps| - 1]).Some? && Deletes(Run(steps[..|steps| - 1]).value, steps[|steps| - 1], id)))
  }

  /** Different addresses lead to different entries. */
  predicate OwnEntries(s: State) {
    forall a, b :: a in s.entries && b in s.entries && a != b ==> s.entries[a] != s.entries[b]
  }

  /** One step keeps an entry in the table, puts the new one in, or takes out exactly the one it deletes. */
  lemma StepMaps(s: State, step: Step, id: nat)
    requires Inv(s) && OwnEntries(s) && Enabled(s, step)
    ensures var t := Apply(s, step);
      && OwnEntries(t) && |s.heap| <= |t.heap| <= |s.heap| + 1
      && (id < |s.heap| ==> (Mapped(t, id) <==> Mapped(s, id) && !Deletes(s, step, id)))
      && (id == |s.heap| < |t.heap| ==> Mapped(t, id))
      && (Deletes(s, step, id) ==> id < |s.heap|)
  {
    hide EntryHolds, ThreadHolds, SampleCount, CountingThreads, Smooth, OwnEntries, Mapped;
    match step {
      case Advance(tid) => ThreadStepMaps(s, tid, id);
      case SweepAdvance =>
        assert SweeperHolds(s);
        if s.sweeper.Deleting? {
          DroppedEntryMaps(s, s.sweeper.addr, id);
          SameTable(s.(entries := s.entries - {s.sweeper.addr}), Apply(s, step), id);
        } else {
          SameTable(s, Apply(s, step), id);
        }
      case _ => SameTable(s, Apply(s, step), id);
    }
    if Deletes(s, step, id) {
      assert s.entries[s.sweeper.addr] < |s.heap|;
    }
  }

  lemma SameTable(s: State, t: State, id: nat)
    requires s.entries == t.entries
    ensures (OwnEntries(s) <==> OwnEntries(t)) && (Mapped(s, id) <==> Mapped(t, id))
  {
  }

  lemma ThreadStepMaps(s: State, tid: ThreadId, id: nat)
    requires Inv(s) && OwnEntries(s) && Enabled(s, Advance(tid))
    ensures var t := AdvanceThread(s, tid);
      && OwnEntries(t) && |s.heap| <= |t.heap| <= |s.heap| + 1
      && (id < |s.heap| ==> (Mapped(t, id) <==> Mapped(s, id)))
      && (id == |s.heap| < |t.heap| ==> Mapped(t, id))
  {
    hide EntryHolds, ThreadHolds, SampleCount, CountingThreads, SweeperHolds, Smooth, OwnEntries, Mapped;
    var t := AdvanceThread(s, tid);
    if s.threads[tid].Storing? && s.threads[tid].addr !in s.entries {
      NewEntryMaps(s, s.threads[tid].addr, id);
      SameTable(s.(entries := s.entries[s.threads[tid].addr := |s.heap|]), t, id);
    } else {
      SameTable(s, t, id);
    }
  }

  lemma NewEntryMaps(s: State, addr: Addr, id: nat)
    requires Inv(s) && OwnEntries(s) && addr !in s.entries
    ensures var t := s.(entries := s.entries[addr := |s.heap|]);
      OwnEntries(t) && Mapped(t, |s.heap|) && (id < |s.heap| ==> (Mapped(t, id) <==> Mapped(s, id)))
  {
    hide EntryHolds, ThreadHolds, SampleCount, CountingThreads, SweeperHolds;
    var entries := s.entries[addr := |s.heap|];
    assert entries[addr] == |s.heap|;
    if Mapped(s, id) {
      var a :| a in s.entries && s.entries[a] == id;
      assert entries[a] == id;
    }
  }

  lemma DroppedEntryMaps(s: State, addr: Addr, id: nat)
    requires OwnEntries(s) && addr in s.entries
    ensures var t := s.(entries := s.entries - {addr});
      OwnEntries(t) && (Mapped(t, id) <==> Mapped(s, id) && s.entries[addr] != id)
  {
    var entries := s.entries - {addr};
    if Mapped(s, id) && s.entries[addr] != id {
      var a :| a in s.entries && s.entries[a] == id;
      assert a in entries && entries[a] == id;
    }
  }

  lemma {:induction false} RunMaps(steps: seq<Step>, id: nat)
    requires Run(steps).Some?
    ensures var s := Run(steps).value;
      && OwnEntries(s) && (Deleted(steps, id) ==> id < |s.heap|)
      && (id < |s.heap| ==> (Mapped(s, id) <==> !Deleted(steps, id)))
    decreases |steps|
  {
    hide Inv, Apply, Enabled, Mapped, Deletes;
    if |steps| > 0 {
      var init := steps[..|steps| - 1];
      RunMaps(init, id);
      ReachableStatesHold(init);
      StepMaps(Run(init).value, steps[|steps| - 1], id);
    }
  }

  /** A finished sample stays in its entry for good, but the entry can be looked up exactly until a sweep takes it
      out of the table. */
  lemma SampleIsReachableIff(steps: seq<Step>, id: nat)
    requires Run(steps).Some? && id < |Run(steps).value.heap|
    ensures Mapped(Run(steps).value, id) <==> !Deleted(steps, id)
  {
    hide Run, Mapped, Deleted;
    RunMaps(steps, id);
  }

  // ---------------------------------------------------------------- which entries a sweep takes

  /** The sweeper's step finds the stamp of the entry below the cutoff. */
  predicate FindsIdle(s: State, step: Step, id: nat) {
    && step.SweepAdvance? && s.sweeper.Checking? && s.sweeper.id == id < |s.heap|
    && s.heap[id].lastSeen < s.sweeper.cutoff
  }

  /** Some step of the run found the entry idle. */
  predicate FoundIdle(steps: seq<Step>, id: nat)
    decreases |steps|
  {
    |steps| > 0 && (
      || FoundIdle(steps[..|steps| - 1], id)
      || (Run(steps[..|steps| - 1]).Some? && FindsIdle(Run(steps[..|steps| - 1]).value, steps[|steps| - 1], id)))
  }

  /** The sweeper is about to take the entry out. */
  predicate Condemned(s: State, id: nat) {
    s.sweeper.Deleting? && s.sweeper.addr in s.entries && s.entries[s.sweeper.addr] == id
  }

  /** The entry under check is still the one its address leads to. */
  predicate ChecksMapped(s: State) {
    s.sweeper.Checking? ==> s.sweeper.addr in s.entries && s.entries[s.sweeper.addr] == s.sweeper.id
  }

  lemma StepCondemns(s: State, step: Step, id: nat)
    requires Inv(s) && ChecksMapped(s) && Enabled(s, step)
    ensures ChecksMapped(Apply(s, step))
    ensures Condemned(Apply(s, step), id) <==> FindsIdle(s, step, id) || (Condemned(s, id) && !Deletes(s, step, id))
  {
    hide EntryHolds, ThreadHolds, SampleCount, CountingThreads, Smooth;
    assert SweeperHolds(s);
    if step.Advance? {
      ThreadKeepsEntries(s, step.tid);
    }
  }

  lemma ThreadKeepsEntries(s: State, tid: ThreadId)
    requires Enabled(s, Advance(tid))
    ensures var t := AdvanceThread(s, tid);
      t.sweeper == s.sweeper && forall a <- s.entries :: a in t.entries && t.entries[a] == s.entries[a]
  {
    hide Smooth;
  }

  lemma {:induction false} RunCondemns(steps: seq<Step>, id: nat)
    requires Run(steps).Some?
    ensures ChecksMapped(Run(steps).value)
    ensures FoundIdle(steps, id) <==> Deleted(steps, id) || Condemned(Run(steps).value, id)
    decreases |steps|
  {
    hide Inv, Apply, Enabled, FindsIdle, Condemned, ChecksMapped;
    if |steps| > 0 {
      var init := steps[..|steps| - 1];
      RunCondemns(init, id);
      ReachableStatesHold(init);
      StepCondemns(Run(init).value, steps[|steps| - 1], id);
      DeletesCondemned(Run(init).value, steps[|steps| - 1], id);
    } else {
      NothingCondemned(id);
    }
  }

  lemma DeletesCondemned(s: State, step: Step, id: nat)
    ensures Deletes(s, step, id) ==> Condemned(s, id)
  {
  }

  lemma NothingCondemned(id: nat)
    ensures ChecksMapped(Initial) && !Condemned(Initial, id)
  {
  }

  /** An entry with its samples can be looked up exactly unless a sweep found its stamp below the cutoff and has come
      to the deletion since. So a stamp that is not below the cutoff at every check keeps the entry, however late a
      recording is; and one that is below at a check does not, however fresh it is at the deletion. */
  lemma MappedUnlessFoundIdle(steps: seq<Step>, id: nat)
    requires Run(steps).Some? && id < |Run(steps).value.heap|
    ensures Mapped(Run(steps).value, id) <==> !FoundIdle(steps, id) || Condemned(Run(steps).value, id)
  {
    hide Run, Mapped, Deleted, FoundIdle, Condemned;
    SampleIsReachableIff(steps, id);
    RunCondemns(steps, id);
    if Condemned(Run(steps).value, id) {
      CondemnedIsMapped(Run(steps).value, id);
    }
  }

  lemma CondemnedIsMapped(s: State, id: nat)
    requires Condemned(s, id)
    ensures Mapped(s, id)
  {
    assert s.entries[s.sweeper.addr] == id;
  }

  /** A thread at the stamp and a sweeper at the deletion of the same idle entry: the thread finishes first and
      the sweeper, whose check is past, deletes the entry all the same. */
  function LateSteps(tid: ThreadId): seq<Step> {
    [Advance(tid), Advance(tid), Advance(tid), SweepAdvance]
  }

  function RunFrom(s: State, steps: seq<Step>): Option<State>
    decreases |steps|
  {
    if |steps| == 0 then Some(s)
    else if Enabled(s, steps[0]) then RunFrom(Apply(s, steps[0]), steps[1..]) else None
  }

  lemma {:induction false} RunOfConcat(a: seq<Step>, b: seq<Step>)
    requires Run(a).Some?
    ensures Run(a + b) == RunFrom(Run(a).value, b)
    decreases |b|
  {
    hide Enabled, Apply;
    if |b| == 0 {
      assert a + b == a;
    } else {
      assert (a + [b[0]])[..|a|] == a && a + b == (a + [b[0]]) + b[1..];
      if Enabled(Run(a).value, b[0]) {
        RunOfConcat(a + [b[0]], b[1..]);
      } else {
        StoppedRun(a + [b[0]], b[1..]);
      }
    }
  }

  lemma {:induction false} StoppedRun(a: seq<Step>, b: seq<Step>)
    requires Run(a).None?
    ensures Run(a + b).None?
    decreases |b|
  {
    hide Enabled, Apply;
    if |b| == 0 {
      assert a + b == a;
    } else {
      var init := b[..|b| - 1];
      StoppedRun(a, init);
      assert (a + b)[..|a + b| - 1] == a + init;
    }
  }

  /** Where the first recording of an address, a second one up to its look-up, and a sweep up to its check leave
      the registry. */
  function IdleSteps(a: Addr): seq<Step> {
    [Begin(0, a, 5, 0), Advance(0), Advance(0), Advance(0), Advance(0), Advance(0), Advance(0),
     Begin(1, a, 7, 100), Advance(1), SweepBegin(50), SweepVisit(a), SweepAdvance]
  }

  function Idle(a: Addr): State {
    State(map[a := 0], [Entry(5, 0, [5, 5])], 1, map[1 := Stamping(0, 7, 100)], Deleting(50, a), 1)
  }

  lemma IdleIsReached(a: Addr)
    ensures Run(IdleSteps(a)) == Some(Idle(a))
  {
    var first := [Begin(0, a, 5, 0), Advance(0), Advance(0), Advance(0), Advance(0), Advance(0), Advance(0)];
    var second := [Begin(1, a, 7, 100), Advance(1), SweepBegin(50), SweepVisit(a), SweepAdvance];
    RecordOnce(a);
    assert [] + first == first;
    RunOfConcat([], first);
    RunOfConcat(first, second);
    IdleSecond(a);
    assert IdleSteps(a) == first + second;
  }

  function Recorded(a: Addr): State {
    State(map[a := 0], [Entry(5, 0, [5, 5])], 1, map[], Resting, 1)
  }

  /** The first recording once it holds its new entry and has counted it. */
  function Counted(a: Addr): State {
    State(map[a := 0], [Entry(5, 0, [5])], 1, map[0 := Stamping(0, 5, 0)], Resting, 0)
  }

  lemma RecordOnce(a: Addr)
    ensures RunFrom(Initial, [Begin(0, a, 5, 0), Advance(0), Advance(0), Advance(0), Advance(0), Advance(0),
                              Advance(0)])
         == Some(Recorded(a))
  {
    var s1 := Initial.(threads := map[0 := Loading(a, 5, 0)]);
    var s2 := Initial.(threads := map[0 := Storing(a, 5, 0)]);
    var e := Entry(5, 0, [5]);
    var s3 := State(map[a := 0], [e], 0, map[0 := Counting(0, 5, 0)], Resting, 0);
    assert Apply(Initial, Begin(0, a, 5, 0)) == s1 && Apply(s1, Advance(0)) == s2;
    assert [] + [e] == [e] && Apply(s2, Advance(0)) == s3;
    assert Apply(s3, Advance(0)) == Counted(a);
    RecordRest(a);
    hide Apply, Counted, RunFrom;
    OneStep(s3, Advance(0), [Advance(0), Advance(0), Advance(0)]);
    OneStep(s2, Advance(0), [Advance(0), Advance(0), Advance(0), Advance(0)]);
    OneStep(s1, Advance(0), [Advance(0), Advance(0), Advance(0), Advance(0), Advance(0)]);
    OneStep(Initial, Begin(0, a, 5, 0), [Advance(0), Advance(0), Advance(0), Advance(0), Advance(0), Advance(0)]);
  }

  lemma RecordRest(a: Addr)
    ensures RunFrom(Counted(a), [Advance(0), Advance(0), Advance(0)]) == Some(Recorded(a))
  {
    var s4, e := Counted(a), Entry(5, 0, [5]);
    var s5 := s4.(threads := map[0 := Reading(0, 5)]);
    var s6 := s4.(threads := map[0 := Swapping(0, 5, 5)]);
    assert [e][0 := e] == [e] && Apply(s4, Advance(0)) == s5;
    assert Apply(s5, Advance(0)) == s6;
    assert [5] + [5] == [5, 5] && Smooth(5, 5) == 5 && s6.threads - {0} == map[];
    assert Apply(s6, Advance(0)) == Recorded(a);
    hide Apply;
    OneStep(s6, Advance(0), []);
    OneStep(s5, Advance(0), [Advance(0)]);
    OneStep(s4, Advance(0), [Advance(0), Advance(0)]);
  }

  lemma OneStep(s: State, step: Step, rest: seq<Step>)
    requires Enabled(s, step)
    ensures RunFrom(s, [step] + rest) == RunFrom(Apply(s, step), rest)
  {
    hide Enabled, Apply;
    assert ([step] + rest)[1..] == rest;
  }

  lemma IdleSecond(a: Addr)
    ensures RunFrom(Recorded(a), [Begin(1, a, 7, 100), Advance(1), SweepBegin(50), SweepVisit(a), SweepAdvance])
         == Some(Idle(a))
  {
    var s0 := Recorded(a);
    var s1 := s0.(threads := map[1 := Loading(a, 7, 100)]);
    var s2 := s0.(threads := map[1 := Stamping(0, 7, 100)]);
    var s3 := s2.(sweeper := Ranging(50));
    var s4 := s2.(sweeper := Checking(50, a, 0));
    assert Apply(s0, Begin(1, a, 7, 100)) == s1 && Apply(s1, Advance(1)) == s2;
    assert Apply(s2, SweepBegin(50)) == s3 && Apply(s3, SweepVisit(a)) == s4 && Apply(s4, SweepAdvance) == Idle(a);
    hide Apply;
    OneStep(s4, SweepAdvance, []);
    OneStep(s3, SweepVisit(a), [SweepAdvance]);
    OneStep(s2, SweepBegin(50), [SweepVisit(a), SweepAdvance]);
    OneStep(s1, Advance(1), [SweepBegin(50), SweepVisit(a), SweepAdvance]);
    OneStep(s0, Begin(1, a, 7, 100), [Advance(1), SweepBegin(50), SweepVisit(a), SweepAdvance]);
  }

  /** The second recording once it has read the value it will swap. */
  function Late(a: Addr): State {
    State(map[a := 0], [Entry(5, 100, [5, 5])], 1, map[1 := Swapping(0, 7, 5)], Deleting(50, a), 1)
  }

  /** What is left: the entry with all its samples, and no address that leads to it. */
  const LOST := State(map[], [Entry(5, 100, [5, 5, 7])], 1, map[], Uncounting(50), 2)

  lemma LateStamp(a: Addr)
    ensures RunFrom(Idle(a), LateSteps(1)) == RunFrom(Late(a), [Advance(1), SweepAdvance])
  {
    var s0 := Idle(a);
    var s1 := s0.(heap := [Entry(5, 100, [5, 5])], threads := map[1 := Reading(0, 7)]);
    assert Apply(s0, Advance(1)) == s1 && Apply(s1, Advance(1)) == Late(a);
    hide Apply, Late, RunFrom;
    OneStep(s1, Advance(1), [Advance(1), SweepAdvance]);
    OneStep(s0, Advance(1), [Advance(1), Advance(1), SweepAdvance]);
  }

  lemma LateSwap(a: Addr)
    ensures RunFrom(Late(a), [Advance(1), SweepAdvance]) == Some(LOST)
  {
    var s2 := Late(a);
    var s3 := s2.(heap := [Entry(5, 100, [5, 5, 7])], threads := map[], finished := 2);
    assert [5, 5] + [7] == [5, 5, 7] && Smooth(5, 7) == 5 && s2.threads - {1} == map[];
    assert Apply(s2, Advance(1)) == s3;
    assert s3.entries - {a} == map[] && Apply(s3, SweepAdvance) == LOST;
    hide Apply;
    OneStep(s3, SweepAdvance, []);
    OneStep(s2, Advance(1), [SweepAdvance]);
  }

  /** Samples are lost to look-ups this way: the second recording finishes with a stamp past the cutoff, and no
      address leads to its entry any more. */
  lemma FinishedSampleIsLost(a: Addr)
    ensures Run(IdleSteps(a) + LateSteps(1)).Some?
    ensures var s := Run(IdleSteps(a) + LateSteps(1)).value;
      s.finished == 2 && s.heap == [Entry(5, 100, [5, 5, 7])] && s.threads == map[] && !Mapped(s, 0)
  {
    hide Run, RunFrom, Idle, Late, IdleSteps, LateSteps;
    IdleIsReached(a);
    RunOfConcat(IdleSteps(a), LateSteps(1));
    LateStamp(a);
    LateSwap(a);
  }
}
