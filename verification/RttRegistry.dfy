/** The round-trip-time registry under every interleaving of its atomic steps: any number of threads that
    record samples, and one sweeper that drops idle entries. */
module RttRegistry {
  import opened Arithmetic
  import opened Wrappers

  type Addr = string
  type ThreadId = nat

  /** The longest duration in whole milliseconds. */
  const MAX_SAMPLE := 9_223_372_036_854

  // ---------------------------------------------------------------- smoothing

  /** One smoothing step in 64-bit arithmetic. */
  function Smooth(value: nat, sample: nat): nat {
    if value == 0 then sample else ((sample + (4 * value) % UINT64) % UINT64) / 5
  }

  /** The value after the first sample and the smoothing of all further ones. */
  function Fold(samples: seq<nat>): nat
    requires |samples| > 0
  {
    if |samples| == 1 then samples[0] else Smooth(Fold(samples[..|samples| - 1]), samples[|samples| - 1])
  }

  predicate IsSample(x: nat) {
    1 <= x <= MAX_SAMPLE
  }

  lemma SmoothIsAverage(value: nat, sample: nat)
    requires IsSample(value) && IsSample(sample)
    ensures Smooth(value, sample) == (sample + 4 * value) / 5
    ensures (if value <= sample then value else sample) <= Smooth(value, sample)
         <= (if value <= sample then sample else value)
  {
  }

  /** The smoothed value stays between any bounds on the samples; so it is never zero and never wraps. */
  lemma {:induction false} FoldIsBetween(samples: seq<nat>, lo: nat, hi: nat)
    requires |samples| > 0 && 1 <= lo && hi <= MAX_SAMPLE
    requires forall i :: 0 <= i < |samples| ==> lo <= samples[i] <= hi
    ensures lo <= Fold(samples) <= hi
  {
    if |samples| > 1 {
      FoldIsBetween(samples[..|samples| - 1], lo, hi);
      SmoothIsAverage(Fold(samples[..|samples| - 1]), samples[|samples| - 1]);
    }
  }

  /** n smoothing steps with the same sample. */
  function Repeated(value: nat, sample: nat, n: nat): nat {
    if n == 0 then value else Smooth(Repeated(value, sample, n - 1), sample)
  }

  /** From above, a constant sample is reached exactly, one step for each millisecond at the latest. */
  lemma {:induction false} ReachedFromAbove(value: nat, sample: nat, n: nat)
    requires IsSample(value) && IsSample(sample) && sample <= value
    ensures sample <= Repeated(value, sample, n) <= value
    ensures Repeated(value, sample, n) <= sample + (if n <= value - sample then value - sample - n else 0)
  {
    if n > 0 {
      ReachedFromAbove(value, sample, n - 1);
      SmoothIsAverage(Repeated(value, sample, n - 1), sample);
    }
  }

  /** From below, the value comes to within 4 ms of a constant sample and stays there. */
  lemma {:induction false} ReachedFromBelow(value: nat, sample: nat, n: nat)
    requires IsSample(value) && IsSample(sample) && value <= sample
    ensures value <= Repeated(value, sample, n) <= sample
    ensures Repeated(value, sample, n) + 4 + (if n <= sample - value then sample - value - n else 0) >= sample
  {
    if n > 0 {
      ReachedFromBelow(value, sample, n - 1);
      SmoothIsAverage(Repeated(value, sample, n - 1), sample);
    }
  }

  /** The gap is real: from strictly below, a constant sample is never reached; and from four or more below, the
      value settles at exactly four below, one step for each millisecond at the latest. */
  lemma {:induction false} SettlesFourBelow(value: nat, sample: nat, n: nat)
    requires IsSample(value) && IsSample(sample) && value < sample
    ensures Repeated(value, sample, n) < sample
    ensures value + 4 <= sample ==> Repeated(value, sample, n) <= sample - 4
    ensures value + 4 <= sample && n >= sample - value ==> Repeated(value, sample, n) == sample - 4
  {
    if n > 0 {
      SettlesFourBelow(value, sample, n - 1);
      ReachedFromBelow(value, sample, n - 1);
      SmoothIsAverage(Repeated(value, sample, n - 1), sample);
    }
    ReachedFromBelow(value, sample, n);
  }

  // ---------------------------------------------------------------- states

  /** An entry with the history of samples that entered its value. */
  datatype Entry = Entry(value: nat, lastSeen: int, samples: seq<nat>)

  /** Where a recording thread stands; id is the entry it holds. */
  datatype Thread =
    | Loading(addr: Addr, sample: nat, now: int)
    | Storing(addr: Addr, sample: nat, now: int)
    | Counting(id: nat, sample: nat, now: int)
    | Stamping(id: nat, sample: nat, now: int)
    | Reading(id: nat, sample: nat)
    | Swapping(id: nat, sample: nat, seen: nat)

  datatype Sweeper =
    | Resting
    | Ranging(cutoff: int)
    | Checking(cutoff: int, addr: Addr, id: nat)
    | Deleting(cutoff: int, addr: Addr)
    | Uncounting(cutoff: int)

  datatype State = State(entries: map<Addr, nat>, heap: seq<Entry>, tracked: int, threads: map<ThreadId, Thread>,
                         sweeper: Sweeper, finished: nat)

  datatype Step =
    | Begin(tid: ThreadId, addr: Addr, sample: nat, now: int)
    | Advance(tid: ThreadId)
    | SweepBegin(cutoff: int)
    | SweepVisit(addr: Addr)
    | SweepAdvance
    | SweepEnd

  const Initial := State(map[], [], 0, map[], Resting, 0)

  predicate Enabled(s: State, step: Step) {
    match step
    case Begin(tid, _, sample, _) => tid !in s.threads && IsSample(sample)
    case Advance(tid) => tid in s.threads && (Holds(s.threads[tid]) ==> s.threads[tid].id < |s.heap|)
    case SweepBegin(_) => s.sweeper.Resting?
    case SweepVisit(addr) => s.sweeper.Ranging? && addr in s.entries
    case SweepAdvance =>
      !s.sweeper.Resting? && !s.sweeper.Ranging? && (s.sweeper.Checking? ==> s.sweeper.id < |s.heap|)
    case SweepEnd => s.sweeper.Ranging?
  }

  predicate Holds(t: Thread) {
    !t.Loading? && !t.Storing?
  }

  /** The next atomic step of a recording thread. */
  function AdvanceThread(s: State, tid: ThreadId): State
    requires Enabled(s, Advance(tid))
  {
    match s.threads[tid]
    case Loading(addr, sample, now) =>
      if addr in s.entries then s.(threads := s.threads[tid := Stamping(s.entries[addr], sample, now)])
      else s.(threads := s.threads[tid := Storing(addr, sample, now)])
    case Storing(addr, sample, now) =>
      if addr in s.entries then s.(threads := s.threads[tid := Stamping(s.entries[addr], sample, now)])
      else s.(heap := s.heap + [Entry(sample, now, [sample])], entries := s.entries[addr := |s.heap|],
              threads := s.threads[tid := Counting(|s.heap|, sample, now)])
    case Counting(id, sample, now) =>
      s.(tracked := s.tracked + 1, threads := s.threads[tid := Stamping(id, sample, now)])
    case Stamping(id, sample, now) =>
      s.(heap := s.heap[id := s.heap[id].(lastSeen := now)], threads := s.threads[tid := Reading(id, sample)])
    case Reading(id, sample) =>
      s.(threads := s.threads[tid := Swapping(id, sample, s.heap[id].value)])
    case Swapping(id, sample, seen) =>
      var e := s.heap[id];
      if e.value == seen then
        s.(heap := s.heap[id := e.(value := Smooth(seen, sample), samples := e.samples + [sample])],
           threads := s.threads - {tid}, finished := s.finished + 1)
      else s.(threads := s.threads[tid := Reading(id, sample)])
  }

  function Apply(s: State, step: Step): State
    requires Enabled(s, step)
  {
    match step
    case Begin(tid, addr, sample, now) => s.(threads := s.threads[tid := Loading(addr, sample, now)])
    case Advance(tid) => AdvanceThread(s, tid)
    case SweepBegin(cutoff) => s.(sweeper := Ranging(cutoff))
    case SweepVisit(addr) => s.(sweeper := Checking(s.sweeper.cutoff, addr, s.entries[addr]))
    case SweepAdvance => (
      match s.sweeper
      case Checking(cutoff, addr, id) =>
        s.(sweeper := if s.heap[id].lastSeen < cutoff then Deleting(cutoff, addr) else Ranging(cutoff))
      case Deleting(cutoff, addr) => s.(entries := s.entries - {addr}, sweeper := Uncounting(cutoff))
      case Uncounting(cutoff) => s.(tracked := s.tracked - 1, sweeper := Ranging(cutoff))
      case _ => s)
    case SweepEnd => s.(sweeper := Resting)
  }

  // ---------------------------------------------------------------- invariant

  function CountingThreads(s: State): set<ThreadId> {
    set t <- s.threads | s.threads[t].Counting?
  }

  function PendingDecrements(s: State): nat {
    if s.sweeper.Uncounting? then 1 else 0
  }

  predicate EntryHolds(e: Entry) {
    && |e.samples| > 0 && (forall i :: 0 <= i < |e.samples| ==> IsSample(e.samples[i]))
    && e.value == Fold(e.samples)
  }

  predicate ThreadHolds(s: State, t: Thread) {
    IsSample(t.sample) && (Holds(t) ==> t.id < |s.heap|)
  }

  predicate SweeperHolds(s: State) {
    && (s.sweeper.Checking? ==> s.sweeper.addr in s.entries && s.sweeper.id < |s.heap|)
    && (s.sweeper.Deleting? ==> s.sweeper.addr in s.entries)
  }

  /** All samples ever folded into entries. */
  function SampleCount(heap: seq<Entry>): nat {
    if |heap| == 0 then 0 else |heap[0].samples| + SampleCount(heap[1..])
  }

  predicate Inv(s: State) {
    && s.tracked == |s.entries| + PendingDecrements(s) - |CountingThreads(s)|
    && (forall i :: 0 <= i < |s.heap| ==> EntryHolds(s.heap[i]))
    && (forall a <- s.entries :: s.entries[a] < |s.heap|)
    && (forall t <- s.threads :: ThreadHolds(s, s.threads[t]))
    && SweeperHolds(s)
    && SampleCount(s.heap) == |s.heap| + s.finished
  }

  lemma {:induction false} SampleCountUpdate(heap: seq<Entry>, id: nat, e: Entry)
    requires id < |heap|
    ensures SampleCount(heap[id := e]) == SampleCount(heap) - |heap[id].samples| + |e.samples|
  {
    if id > 0 {
      assert heap[id := e][1..] == heap[1..][id - 1 := e];
      SampleCountUpdate(heap[1..], id - 1, e);
    } else {
      assert heap[0 := e][1..] == heap[1..];
    }
  }

  lemma {:induction false} SampleCountAppend(heap: seq<Entry>, e: Entry)
    ensures SampleCount(heap + [e]) == SampleCount(heap) + |e.samples|
  {
    if |heap| == 0 {
      assert heap + [e] == [e];
    } else {
      assert (heap + [e])[1..] == heap[1..] + [e];
      SampleCountAppend(heap[1..], e);
    }
  }

  lemma EntryTakesSample(e: Entry, sample: nat)
    requires EntryHolds(e) && IsSample(sample)
    ensures EntryHolds(e.(value := Smooth(e.value, sample), samples := e.samples + [sample]))
  {
    assert (e.samples + [sample])[..|e.samples|] == e.samples;
  }

  lemma NewEntryHolds(sample: nat, now: int)
    requires IsSample(sample)
    ensures EntryHolds(Entry(sample, now, [sample]))
  {
  }

  lemma StampKeepsEntry(e: Entry, now: int)
    requires EntryHolds(e)
    ensures EntryHolds(e.(lastSeen := now))
  {
  }

  /** A thread that changes its place, but not whether it has an increment pending. */
  lemma ThreadMoves(s: State, tid: ThreadId, t: Thread)
    requires Inv(s) && ThreadHolds(s, t) && !t.Counting?
    requires tid in s.threads ==> !s.threads[tid].Counting?
    ensures Inv(s.(threads := s.threads[tid := t]))
  {
    hide EntryHolds, SampleCount;
    assert CountingThreads(s.(threads := s.threads[tid := t])) == CountingThreads(s);
  }

  lemma IncrementDone(s: State, tid: ThreadId, t: Thread)
    requires Inv(s) && ThreadHolds(s, t) && !t.Counting? && tid in s.threads && s.threads[tid].Counting?
    ensures Inv(s.(tracked := s.tracked + 1, threads := s.threads[tid := t]))
  {
    hide EntryHolds, SampleCount;
    assert CountingThreads(s.(tracked := s.tracked + 1, threads := s.threads[tid := t])) == CountingThreads(s) - {tid};
  }

  /** The state once a fresh entry is stored and the storing thread has its increment pending. */
  function Stored(s: State, tid: ThreadId, addr: Addr, sample: nat, now: int): State {
    s.(heap := s.heap + [Entry(sample, now, [sample])], entries := s.entries[addr := |s.heap|],
       threads := s.threads[tid := Counting(|s.heap|, sample, now)])
  }

  lemma StoredIsCounted(s: State, tid: ThreadId, addr: Addr, sample: nat, now: int)
    requires tid in s.threads && !s.threads[tid].Counting? && addr !in s.entries
    ensures |Stored(s, tid, addr, sample, now).entries| == |s.entries| + 1
    ensures |CountingThreads(Stored(s, tid, addr, sample, now))| == |CountingThreads(s)| + 1
  {
    var s1 := Stored(s, tid, addr, sample, now);
    assert CountingThreads(s1) == CountingThreads(s) + {tid};
    assert s1.entries.Keys == s.entries.Keys + {addr};
  }

  lemma StoredThreadsHold(s: State, tid: ThreadId, addr: Addr, sample: nat, now: int)
    requires Inv(s) && IsSample(sample)
    ensures var s1 := Stored(s, tid, addr, sample, now);
      forall t <- s1.threads :: ThreadHolds(s1, s1.threads[t])
  {
    hide EntryHolds, SampleCount, CountingThreads, IsSample, SweeperHolds;
    var s1 := Stored(s, tid, addr, sample, now);
    forall t | t in s1.threads ensures ThreadHolds(s1, s1.threads[t]) {
      if t != tid {
        assert ThreadHolds(s, s.threads[t]);
      }
    }
  }

  lemma EntryStored(s: State, tid: ThreadId, addr: Addr, sample: nat, now: int)
    requires Inv(s) && tid in s.threads && !s.threads[tid].Counting? && addr !in s.entries && IsSample(sample)
    ensures Inv(Stored(s, tid, addr, sample, now))
  {
    hide EntryHolds, SampleCount, CountingThreads, ThreadHolds;
    NewEntryHolds(sample, now);
    SampleCountAppend(s.heap, Entry(sample, now, [sample]));
    StoredIsCounted(s, tid, addr, sample, now);
    StoredThreadsHold(s, tid, addr, sample, now);
  }

  /** An entry is rewritten without gaining a sample. */
  lemma EntryRewritten(s: State, id: nat, e: Entry)
    requires Inv(s) && id < |s.heap| && EntryHolds(e) && |e.samples| == |s.heap[id].samples|
    ensures Inv(s.(heap := s.heap[id := e]))
  {
    hide EntryHolds, SampleCount;
    SampleCountUpdate(s.heap, id, e);
    assert CountingThreads(s.(heap := s.heap[id := e])) == CountingThreads(s);
  }

  /** The swap succeeds: the entry gains one sample and the recording is finished. */
  lemma SampleSwappedIn(s: State, tid: ThreadId, id: nat, e: Entry)
    requires Inv(s) && tid in s.threads && !s.threads[tid].Counting?
    requires id < |s.heap| && EntryHolds(e) && |e.samples| == |s.heap[id].samples| + 1
    ensures Inv(s.(heap := s.heap[id := e], threads := s.threads - {tid}, finished := s.finished + 1))
  {
    hide EntryHolds, SampleCount;
    SampleCountUpdate(s.heap, id, e);
    assert CountingThreads(s.(heap := s.heap[id := e], threads := s.threads - {tid}, finished := s.finished + 1))
      == CountingThreads(s);
  }

  lemma AdvanceKeepsInv(s: State, tid: ThreadId)
    requires Inv(s) && Enabled(s, Advance(tid))
    ensures Inv(AdvanceThread(s, tid))
  {
    assert ThreadHolds(s, s.threads[tid]);
    match s.threads[tid] {
      case Loading(addr, sample, now) =>
        ThreadMoves(s, tid, if addr in s.entries then Stamping(s.entries[addr], sample, now)
                            else Storing(addr, sample, now));
      case Storing(addr, sample, now) =>
        if addr in s.entries {
          ThreadMoves(s, tid, Stamping(s.entries[addr], sample, now));
        } else {
          EntryStored(s, tid, addr, sample, now);
        }
      case Counting(id, sample, now) => IncrementDone(s, tid, Stamping(id, sample, now));
      case Stamping(id, sample, now) =>
        StampKeepsEntry(s.heap[id], now);
        EntryRewritten(s, id, s.heap[id].(lastSeen := now));
        hide Inv, EntryHolds;
        ThreadMoves(s.(heap := s.heap[id := s.heap[id].(lastSeen := now)]), tid, Reading(id, sample));
      case Reading(id, sample) => ThreadMoves(s, tid, Swapping(id, sample, s.heap[id].value));
      case Swapping(id, sample, seen) =>
        var e := s.heap[id];
        if e.value == seen {
          EntryTakesSample(e, sample);
          SampleSwappedIn(s, tid, id, e.(value := Smooth(seen, sample), samples := e.samples + [sample]));
        } else {
          ThreadMoves(s, tid, Reading(id, sample));
        }
    }
  }

  /** The sweeper moves without touching the table or the counter. */
  lemma SweeperMoves(s: State, sweeper: Sweeper)
    requires Inv(s) && !s.sweeper.Uncounting? && !sweeper.Uncounting? && SweeperHolds(s.(sweeper := sweeper))
    ensures Inv(s.(sweeper := sweeper))
  {
    hide EntryHolds, SampleCount;
    assert CountingThreads(s.(sweeper := sweeper)) == CountingThreads(s);
  }

  lemma EntryDropped(s: State, addr: Addr, cutoff: int)
    requires Inv(s) && addr in s.entries && !s.sweeper.Uncounting?
    ensures Inv(s.(entries := s.entries - {addr}, sweeper := Uncounting(cutoff)))
  {
    hide EntryHolds, SampleCount;
    var s1 := s.(entries := s.entries - {addr}, sweeper := Uncounting(cutoff));
    assert CountingThreads(s1) == CountingThreads(s);
    assert s.entries.Keys == s1.entries.Keys + {addr};
  }

  lemma DecrementDone(s: State, cutoff: int)
    requires Inv(s) && s.sweeper.Uncounting?
    ensures Inv(s.(tracked := s.tracked - 1, sweeper := Ranging(cutoff)))
  {
    hide EntryHolds, SampleCount;
    assert CountingThreads(s.(tracked := s.tracked - 1, sweeper := Ranging(cutoff))) == CountingThreads(s);
  }

  lemma StepKeepsInv(s: State, step: Step)
    requires Inv(s) && Enabled(s, step)
    ensures Inv(Apply(s, step))
  {
    match step {
      case Begin(tid, addr, sample, now) => ThreadMoves(s, tid, Loading(addr, sample, now));
      case Advance(tid) => AdvanceKeepsInv(s, tid);
      case SweepBegin(cutoff) => SweeperMoves(s, Ranging(cutoff));
      case SweepVisit(addr) => SweeperMoves(s, Checking(s.sweeper.cutoff, addr, s.entries[addr]));
      case SweepAdvance => SweepAdvanceKeepsInv(s);
      case SweepEnd => SweeperMoves(s, Resting);
    }
  }

  lemma SweepAdvanceKeepsInv(s: State)
    requires Inv(s) && Enabled(s, SweepAdvance)
    ensures Inv(Apply(s, SweepAdvance))
  {
    match s.sweeper {
      case Checking(cutoff, addr, id) =>
        SweeperMoves(s, if s.heap[id].lastSeen < cutoff then Deleting(cutoff, addr) else Ranging(cutoff));
      case Deleting(cutoff, addr) => EntryDropped(s, addr, cutoff);
      case Uncounting(cutoff) => DecrementDone(s, cutoff);
      case _ =>
    }
  }

  // ---------------------------------------------------------------- runs

  /** The state after the steps, if each was enabled when it was taken. */
  function Run(steps: seq<Step>): Option<State>
    decreases |steps|
  {
    if |steps| == 0 then Some(Initial)
    else
      var last := steps[|steps| - 1];
      match Run(steps[..|steps| - 1])
      case None => None
      case Some(before) => if Enabled(before, last) then Some(Apply(before, last)) else None
  }

  lemma {:induction false} ReachableStatesHold(steps: seq<Step>)
    requires Run(steps).Some?
    ensures Inv(Run(steps).value)
    decreases |steps|
  {
    hide Inv, Apply, Enabled;
    if |steps| == 0 {
      InitialHolds();
    } else {
      ReachableStatesHold(steps[..|steps| - 1]);
      StepKeepsInv(Run(steps[..|steps| - 1]).value, steps[|steps| - 1]);
    }
  }

  lemma InitialHolds()
    ensures Inv(Initial)
  {
  }

  predicate Between(samples: seq<nat>, lo: nat, hi: nat) {
    forall i :: 0 <= i < |samples| ==> lo <= samples[i] <= hi
  }

  /** In every reachable state: the counter is the number of entries up to the increments and decrements
      under way; every entry's value is the smoothing of its samples in the order they were swapped in,
      lies between the least and the greatest of them, and is not zero; and every finished recording
      entered some entry exactly once, beside the sample each entry was created with. */
  lemma RegistryIsConsistent(steps: seq<Step>)
    requires Run(steps).Some?
    ensures var s := Run(steps).value;
      && s.tracked == |s.entries| + PendingDecrements(s) - |CountingThreads(s)|
      && (forall e <- s.heap :: |e.samples| > 0 && e.value == Fold(e.samples) && e.value > 0)
      && (forall e, lo: nat, hi: nat ::
            e in s.heap && 1 <= lo && hi <= MAX_SAMPLE && Between(e.samples, lo, hi) ==> lo <= e.value <= hi)
      && SampleCount(s.heap) == |s.heap| + s.finished
  {
    hide Run;
    ReachableStatesHold(steps);
    var s := Run(steps).value;
    forall e | e in s.heap ensures |e.samples| > 0 && e.value == Fold(e.samples) && e.value > 0 {
      var i :| 0 <= i < |s.heap| && s.heap[i] == e;
      FoldIsBetween(e.samples, 1, MAX_SAMPLE);
    }
    forall e, lo: nat, hi: nat | e in s.heap && 1 <= lo && hi <= MAX_SAMPLE && Between(e.samples, lo, hi)
      ensures lo <= e.value <= hi
    {
      var i :| 0 <= i < |s.heap| && s.heap[i] == e;
      FoldIsBetween(e.samples, lo, hi);
    }
  }
}
