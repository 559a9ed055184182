// Whole runs of the log queue: any sequence of pushes and pops from the empty
// queue, with any outcome of the mutex and of the semaphore.

module LogHistory {
  import opened Bits
  import opened LogRecord
  import opened LogQueueSpec

  datatype Op =
    | Push(record: Record, gotMutex: bool)
    | Pop(signalled: bool, gotMutex: bool)

  // The queue's own state, and what an observer of the run wrote down: every
  // accepted record, how many of the oldest have left the queue, the bytes that
  // left by each door, and each delivered record with its place in push order.
  datatype History = History(
    st: State, accepted: seq<Record>, removed: nat,
    poppedBytes: nat, evictedBytes: nat, evictedRecords: nat, refused: nat,
    delivered: seq<(nat, Record)>)

  const START := History(State([], Stats(0, 0, 0, 0, 0, 0)), [], 0, 0, 0, 0, 0, [])

  ghost predicate OpsOk(ops: seq<Op>) {
    forall i | 0 <= i < |ops| :: ops[i].Push? ==> ops[i].record.WellFormed()
  }

  function PopOp(st: State, op: Op): (State, Popped)
    requires op.Pop?
  {
    if !op.signalled || !op.gotMutex then (st, Nothing) else PopRecord(st)
  }

  ghost predicate Tracks(h: History) {
    TracksRecords(h) && TracksStats(h)
  }

  ghost predicate TracksRecords(h: History) {
    && Holds(h.st.content, h.accepted, h.removed)
    && |Frames(h.accepted)| == h.poppedBytes + h.evictedBytes + |h.st.content|
    && h.removed == |h.delivered| + h.evictedRecords
    && InOrder(h.delivered, h.accepted, h.removed)
  }

  predicate TracksStats(h: History) {
    Counters(h.st.stats, |h.accepted|, |h.delivered|, h.evictedRecords + h.refused, h.evictedBytes)
  }

  ghost predicate Holds(content: seq<u8>, accepted: seq<Record>, removed: nat) {
    && removed <= |accepted|
    && AllWellFormed(accepted)
    && content == Frames(accepted[removed..])
    && |content| <= CAPACITY
  }

  predicate Counters(s: Stats, pushed: nat, popped: nat, dropped: nat, overruns: nat) {
    && s.pushed == pushed % TWO32
    && s.popped == popped % TWO32
    && s.dropped == dropped % TWO32
    && s.overruns == overruns % TWO32
  }

  // Each delivery is the accepted record at its recorded place, places ascend
  ghost predicate InOrder(delivered: seq<(nat, Record)>, accepted: seq<Record>, removed: nat) {
    && (forall j | 0 <= j < |delivered| ::
          delivered[j].0 < removed && delivered[j].0 < |accepted| && delivered[j].1 == accepted[delivered[j].0])
    && (forall i, j | 0 <= i < j < |delivered| :: delivered[i].0 < delivered[j].0)
  }

  function FrameSize(r: Record): nat { HEADER_SIZE + |r.syslog| + |r.uart| }

  function Accept(h: History, st: State, r: Record, k: nat): History
    requires AllWellFormed(h.accepted) && h.removed + k <= |h.accepted|
  {
    h.(st := st, accepted := h.accepted + [r], removed := h.removed + k,
       evictedBytes := h.evictedBytes + Bytes(h.accepted[h.removed..][..k]), evictedRecords := h.evictedRecords + k)
  }

  function DeliverTo(h: History, st: State, r: Record): History {
    h.(st := st, removed := h.removed + 1, poppedBytes := h.poppedBytes + FrameSize(r),
       delivered := h.delivered + [(h.removed, r)])
  }

  function After(h: History, op: Op): History
    requires h.removed <= |h.accepted|
    requires op.Push? ==> op.record.WellFormed() && AllWellFormed(h.accepted)
  {
    match op
    case Push(r, gotMutex) =>
      var st := PushRecord(h.st, r, gotMutex);
      if !gotMutex then h.(st := st, refused := h.refused + 1)
      else
        FrameFits(r);
        Accept(h, st, r, Evicted(h.accepted[h.removed..], |Frame(r)|))
    case Pop(_, _) =>
      var (st, popped) := PopOp(h.st, op);
      match popped
      case Nothing => h.(st := st)
      case Flushed(r) => DeliverTo(h, st, r)
  }

  lemma FramesOne(r: Record)
    requires r.WellFormed()
    ensures AllWellFormed([r]) && Frames([r]) == Frame(r)
  {
    assert [r][1..] == [];
  }

  lemma HoldsPush(content: seq<u8>, all: seq<Record>, i: nat, content': seq<u8>, k: nat, r: Record)
    requires Holds(content, all, i) && r.WellFormed() && k <= |all[i..]|
    requires AllWellFormed(all[i..][k..] + [r]) && content' == Frames(all[i..][k..] + [r]) && |content'| <= CAPACITY
    ensures Holds(content', all + [r], i + k)
    ensures |Frames(all + [r])| - |Frames(all)| == Bytes(all[i..][..k]) + |content'| - |content|
  {
    FramesOne(r);
    FramesConcat(all, [r]);
    BytesSplit(all[i..], k);
    FramesConcat(all[i..][k..], [r]);
    assert (all + [r])[i + k..] == all[i..][k..] + [r];
  }

  lemma OrderPush(delivered: seq<(nat, Record)>, accepted: seq<Record>, removed: nat, r: Record, k: nat)
    requires InOrder(delivered, accepted, removed)
    ensures InOrder(delivered, accepted + [r], removed + k)
  {
  }

  lemma OrderPop(delivered: seq<(nat, Record)>, accepted: seq<Record>, removed: nat)
    requires InOrder(delivered, accepted, removed) && removed < |accepted|
    ensures InOrder(delivered + [(removed, accepted[removed])], accepted, removed + 1)
  {
  }

  lemma CountOn(x: nat, n: nat)
    ensures Add32(x % TWO32, n) == (x + n) % TWO32
  {
    ModOfSum(x, n, TWO32);
  }

  lemma AcceptStats(h: History, st: State, r: Record, k: nat)
    requires TracksStats(h) && AllWellFormed(h.accepted) && h.removed + k <= |h.accepted|
    requires st.stats.pushed == Add32(h.st.stats.pushed, 1) && st.stats.popped == h.st.stats.popped
    requires st.stats.dropped == Add32(h.st.stats.dropped, k)
    requires st.stats.overruns == Add32(h.st.stats.overruns, Bytes(h.accepted[h.removed..][..k]))
    ensures TracksStats(Accept(h, st, r, k))
  {
    CountOn(|h.accepted|, 1);
    CountOn(h.evictedRecords + h.refused, k);
    CountOn(h.evictedBytes, Bytes(h.accepted[h.removed..][..k]));
  }

  lemma AcceptRecords(h: History, st: State, r: Record, k: nat)
    requires TracksRecords(h) && r.WellFormed() && k <= |h.accepted[h.removed..]|
    requires var queued := h.accepted[h.removed..];
             AllWellFormed(queued[k..] + [r]) && st.content == Frames(queued[k..] + [r]) && |st.content| <= CAPACITY
    ensures TracksRecords(Accept(h, st, r, k))
  {
    HoldsPush(h.st.content, h.accepted, h.removed, st.content, k, r);
    OrderPush(h.delivered, h.accepted, h.removed, r, k);
  }

  lemma DeliverRecords(h: History, st: State)
    requires TracksRecords(h) && h.removed < |h.accepted|
    requires st.content == Frames(h.accepted[h.removed..][1..])
    ensures TracksRecords(DeliverTo(h, st, h.accepted[h.removed]))
  {
    var queued := h.accepted[h.removed..];
    HeadOfFrames(queued);
    assert queued[1..] == h.accepted[h.removed + 1..];
    OrderPop(h.delivered, h.accepted, h.removed);
  }

  lemma PushTracks(h: History, r: Record)
    requires Tracks(h) && r.WellFormed()
    ensures Tracks(After(h, Push(r, true)))
  {
    var queued := h.accepted[h.removed..];
    PushKeepsFraming(h.st, queued, r);
    var k, st := Evicted(queued, |Frame(r)|), PushRecord(h.st, r, true);
    AcceptStats(h, st, r, k);
    AcceptRecords(h, st, r, k);
  }

  lemma RefusedTracks(h: History, r: Record)
    requires Tracks(h) && r.WellFormed()
    ensures Tracks(After(h, Push(r, false)))
  {
    CountOn(h.evictedRecords + h.refused, 1);
  }

  lemma PopTracks(h: History, op: Op)
    requires Tracks(h) && op.Pop?
    ensures Tracks(After(h, op))
  {
    if op.signalled && op.gotMutex && h.accepted[h.removed..] != [] {
      ServedTracks(h, op);
    } else {
      NothingTracks(h, op);
    }
  }

  lemma ServedTracks(h: History, op: Op)
    requires Tracks(h) && op.Pop? && op.signalled && op.gotMutex && h.accepted[h.removed..] != []
    ensures Tracks(After(h, op))
  {
    var queued := h.accepted[h.removed..];
    PopTakesOldest(h.st, queued);
    OldestTracks(h);
    assert After(h, op) == DeliverTo(h, PopOutcome(queued, h.st).0, queued[0]);
  }

  lemma OldestTracks(h: History)
    requires Tracks(h) && h.accepted[h.removed..] != []
    ensures var queued := h.accepted[h.removed..];
            Tracks(DeliverTo(h, PopOutcome(queued, h.st).0, queued[0]))
  {
    DeliverRecords(h, PopOutcome(h.accepted[h.removed..], h.st).0);
    CountOn(|h.delivered|, 1);
  }

  lemma NothingTracks(h: History, op: Op)
    requires Tracks(h) && op.Pop? && !(op.signalled && op.gotMutex && h.accepted[h.removed..] != [])
    ensures After(h, op) == h
  {
    PopTakesOldest(h.st, h.accepted[h.removed..]);
  }

  function Run(h: History, ops: seq<Op>): History
    requires Tracks(h) && OpsOk(ops)
    decreases |ops|
  {
    if ops == [] then h
    else
      AfterTracks(h, ops[0]);
      Run(After(h, ops[0]), ops[1..])
  }

  lemma AfterTracks(h: History, op: Op)
    requires Tracks(h) && (op.Push? ==> op.record.WellFormed())
    ensures Tracks(After(h, op))
  {
    match op
    case Push(r, gotMutex) => if gotMutex { PushTracks(h, r); } else { RefusedTracks(h, r); }
    case Pop(_, _) => PopTracks(h, op);
  }

  lemma {:induction false} RunTracks(h: History, ops: seq<Op>)
    requires Tracks(h) && OpsOk(ops)
    ensures Tracks(Run(h, ops))
    decreases |ops|
  {
    if ops != [] {
      AfterTracks(h, ops[0]);
      RunTracks(After(h, ops[0]), ops[1..]);
    }
  }

  lemma StartTracks()
    ensures Tracks(START)
  {
    assert START.accepted[0..] == [];
  }

  // ---------- the bytes in use ----------

  // The largest use the queue has had over a run that started with `peak`
  function PeakRun(h: History, ops: seq<Op>, peak: nat): nat
    requires Tracks(h) && OpsOk(ops)
    decreases |ops|
  {
    if ops == [] then peak
    else
      AfterTracks(h, ops[0]);
      PeakRun(After(h, ops[0]), ops[1..], Max(|After(h, ops[0]).st.content|, peak))
  }

  predicate Uses(st: State, peak: nat) {
    st.stats.currentBytes == |st.content| <= peak == st.stats.peakBytes
  }

  lemma PushUses(st: State, queued: seq<Record>, r: Record, peak: nat)
    requires AllWellFormed(queued) && st.content == Frames(queued) && |st.content| <= CAPACITY && r.WellFormed()
    requires Uses(st, peak)
    ensures var next := PushRecord(st, r, true); Uses(next, Max(|next.content|, peak))
  {
    PushKeepsFraming(st, queued, r);
  }

  lemma SmallerUse(st: State, next: State, peak: nat)
    requires Uses(st, peak) && |next.content| <= |st.content|
    requires next.stats.currentBytes == |next.content| && next.stats.peakBytes == st.stats.peakBytes
    ensures Uses(next, Max(|next.content|, peak))
  {
  }

  lemma OutcomeUses(st: State, queued: seq<Record>, peak: nat)
    requires AllWellFormed(queued) && st.content == Frames(queued) && |st.content| <= CAPACITY
    requires Uses(st, peak)
    ensures var next := PopOutcome(queued, st).0; Uses(next, Max(|next.content|, peak))
  {
    if queued == [] {
      SmallerUse(st, st, peak);
    } else {
      SuffixShorter(queued, 1);
      ModUnique(Bytes(queued[1..]), TWO32, 0, Bytes(queued[1..]));
      SmallerUse(st, PopOutcome(queued, st).0, peak);
    }
  }

  lemma PopUses(st: State, queued: seq<Record>, peak: nat)
    requires AllWellFormed(queued) && st.content == Frames(queued) && |st.content| <= CAPACITY
    requires Uses(st, peak)
    ensures var next := PopRecord(st).0; Uses(next, Max(|next.content|, peak))
  {
    PopTakesOldest(st, queued);
    OutcomeUses(st, queued, peak);
  }

  lemma AfterUses(h: History, op: Op, peak: nat)
    requires Tracks(h) && Uses(h.st, peak) && (op.Push? ==> op.record.WellFormed())
    ensures Uses(After(h, op).st, Max(|After(h, op).st.content|, peak))
  {
    var queued := h.accepted[h.removed..];
    match op
    case Push(r, gotMutex) => if gotMutex { PushUses(h.st, queued, r, peak); }
    case Pop(_, _) => PopUses(h.st, queued, peak);
  }

  lemma {:induction false} RunUses(h: History, ops: seq<Op>, peak: nat)
    requires Tracks(h) && Uses(h.st, peak) && OpsOk(ops)
    ensures Uses(Run(h, ops).st, PeakRun(h, ops, peak))
    decreases |ops|
  {
    if ops != [] {
      AfterTracks(h, ops[0]);
      AfterUses(h, ops[0], peak);
      RunUses(After(h, ops[0]), ops[1..], Max(|After(h, ops[0]).st.content|, peak));
    }
  }

  // The two size counters: the use now, and the largest use the queue has had
  lemma SizeCounters(ops: seq<Op>)
    requires OpsOk(ops)
    ensures Tracks(START)
    ensures Run(START, ops).st.stats.currentBytes == |Run(START, ops).st.content|
    ensures Run(START, ops).st.stats.peakBytes == PeakRun(START, ops, 0)
  {
    StartTracks();
    RunUses(START, ops, 0);
  }

  // Over every run: the queue holds exactly the accepted records that have not
  // left it, in order and whole; what left is the oldest prefix; deliveries are
  // accepted records, unchanged, in push order; and every byte accepted was
  // delivered, is counted in `overruns`, or is still in the queue.
  lemma EveryRunConservesRecords(ops: seq<Op>)
    requires OpsOk(ops)
    ensures Tracks(START)
    ensures var h := Run(START, ops);
            && h.removed <= |h.accepted| && AllWellFormed(h.accepted)
            && h.st.content == Frames(h.accepted[h.removed..])
            && InOrder(h.delivered, h.accepted, h.removed)
            && |Frames(h.accepted)| == h.poppedBytes + h.evictedBytes + |h.st.content|
            && h.st.stats.pushed == |h.accepted| % TWO32
            && h.st.stats.popped == |h.delivered| % TWO32
            && h.st.stats.overruns == h.evictedBytes % TWO32
            && |h.accepted| == |h.delivered| + h.evictedRecords + |h.accepted[h.removed..]|
            && h.st.stats.dropped == (h.evictedRecords + h.refused) % TWO32
  {
    StartTracks();
    RunTracks(START, ops);
  }
}
