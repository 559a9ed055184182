// The log queue object over whole runs: any calls, in any order, with any
// outcome of the mutex and the semaphore, on a queue just created.

module LogRuns {
  import opened LogHistory
  import opened LogQueue
  import opened LogQueueSpec
  import opened LogRecord
  import opened Options

  // One call of either task
  datatype Act =
    | Log(mode: OutputMode, level: u8, syslogText: seq<u8>, uartText: seq<u8>, gotMutex: bool)
    | Flush(signalled: bool, gotMutex: bool)

  // What it means for the queue: a record that is not selected does not reach it
  function OpOf(act: Act): (ops: seq<Op>)
    ensures |ops| <= 1 && forall op | op in ops :: op.Push? ==> op.record.WellFormed()
  {
    match act
    case Log(mode, level, syslogText, uartText, gotMutex) =>
      (match ToRecord(mode, level, syslogText, uartText)
       case None => []
       case Some(r) => [Push(r, gotMutex)])
    case Flush(signalled, gotMutex) => [Pop(signalled, gotMutex)]
  }

  function OpsOf(acts: seq<Act>): (ops: seq<Op>)
    ensures forall op | op in ops :: op.Push? ==> op.record.WellFormed()
    decreases |acts|
  {
    if acts == [] then [] else OpOf(acts[0]) + OpsOf(acts[1..])
  }

  // The records delivered, oldest first
  function Records(delivered: seq<(nat, Record)>): (rs: seq<Record>)
    ensures |rs| == |delivered|
  {
    seq(|delivered|, i requires 0 <= i < |delivered| => delivered[i].1)
  }

  function AfterAct(h: History, act: Act): History
    requires h.removed <= |h.accepted| && AllWellFormed(h.accepted)
  {
    var ops := OpOf(act);
    if ops == [] then h else assert ops[0] in ops; After(h, ops[0])
  }

  lemma ActTracks(h: History, act: Act)
    requires Tracks(h)
    ensures Tracks(AfterAct(h, act))
  {
    if OpOf(act) != [] {
      assert OpOf(act)[0] in OpOf(act);
      AfterTracks(h, OpOf(act)[0]);
    }
  }

  lemma {:induction false} RunAct(h: History, acts: seq<Act>)
    requires Tracks(h) && acts != []
    ensures Tracks(AfterAct(h, acts[0]))
    ensures Run(h, OpsOf(acts)) == Run(AfterAct(h, acts[0]), OpsOf(acts[1..]))
  {
    ActTracks(h, acts[0]);
    var ops := OpOf(acts[0]);
    if ops == [] {
      assert OpsOf(acts) == OpsOf(acts[1..]);
    } else {
      assert OpsOf(acts)[0] == ops[0] && OpsOf(acts)[1..] == OpsOf(acts[1..]);
    }
  }

  // h is reached after the first i calls
  ghost predicate Reached(h: History, acts: seq<Act>, i: nat)
    requires i <= |acts|
  {
    Tracks(START) && Tracks(h) && Run(h, OpsOf(acts[i..])) == Run(START, OpsOf(acts))
  }

  lemma {:induction false} ReachedMore(h: History, acts: seq<Act>, i: nat)
    requires i < |acts| && Reached(h, acts, i)
    ensures Reached(AfterAct(h, acts[i]), acts, i + 1)
  {
    RunAct(h, acts[i..]);
    assert acts[i..][1..] == acts[i + 1..];
  }

  lemma ReachedEnds(h: History, acts: seq<Act>)
    ensures Tracks(START) ==> Reached(START, acts, 0)
    ensures Reached(h, acts, |acts|) ==> h == Run(START, OpsOf(acts))
  {
    assert acts[0..] == acts && acts[|acts|..] == [];
  }

  lemma FlushDelivers(h: History, op: Op)
    requires Tracks(h) && op.Pop?
    ensures var popped := PopOp(h.st, op).1;
            Records(After(h, op).delivered) ==
            Records(h.delivered) + if popped.Flushed? then [popped.record] else []
  {
  }

  lemma LogDeliversNothing(h: History, act: Act)
    requires Tracks(h) && act.Log?
    ensures AfterAct(h, act).delivered == h.delivered
  {
  }

  // One call on the object keeps it at the history's state, and delivers what
  // the history notes
  method Perform(q: LogQueue, act: Act, ghost h: History) returns (out: seq<Record>)
    requires q.Valid() && q.initialized && Tracks(h) && q.Abs() == h.st
    modifies q`head, q`tail, q`content, q`stats, q.buffer
    ensures q.Valid() && q.Abs() == AfterAct(h, act).st
    ensures Records(AfterAct(h, act).delivered) == Records(h.delivered) + out
  {
    out := [];
    match act
    case Log(mode, level, syslogText, uartText, gotMutex) =>
      LogDeliversNothing(h, act);
      var _ := q.Push(mode, level, syslogText, uartText, gotMutex);
    case Flush(signalled, gotMutex) =>
      FlushDelivers(h, Pop(signalled, gotMutex));
      var r := q.Take(signalled, gotMutex);
      if r.Done? {
        out := [r.popped.record];
      }
  }

  // From the empty queue, after any calls the object is in the state of the run
  // that EveryRunConservesRecords describes, and the records handed out are
  // those of its deliveries, in order.
  method RunQueue(acts: seq<Act>) returns (q: LogQueue, out: seq<Record>)
    ensures fresh(q) && q.Valid() && Tracks(START)
    ensures q.Abs() == Run(START, OpsOf(acts)).st
    ensures out == Records(Run(START, OpsOf(acts)).delivered)
  {
    q := new LogQueue();
    out := [];
    StartTracks();
    ghost var h := START;
    ReachedEnds(h, acts);
    for i := 0 to |acts|
      invariant fresh(q) && fresh(q.buffer) && q.Valid() && q.initialized
      invariant Reached(h, acts, i) && q.Abs() == h.st && out == Records(h.delivered)
    {
      ReachedMore(h, acts, i);
      var more := Perform(q, acts[i], h);
      out := out + more;
      h := AfterAct(h, acts[i]);
    }
    ReachedEnds(h, acts);
  }

  // On an empty queue, with both locks and the semaphore: what is logged in a mode
  // is handed out again, whole and with its level, if the texts of that mode have
  // legal lengths, and else refused.
  method LogThenFlush(q: LogQueue, mode: OutputMode, level: u8, syslogText: seq<u8>, uartText: seq<u8>)
    returns (ret: int, taken: TakeResult)
    requires q.Valid() && q.initialized && q.content == []
    modifies q`head, q`tail, q`content, q`stats, q.buffer
    ensures q.Valid() && q.content == []
    ensures mode == NONE ==> ret == -1 && taken == Failed
    ensures mode == UART ==> Handed(ret, taken, Record(level, [], uartText), 0 < |uartText| < 448)
    ensures mode == SYSLOG ==> Handed(ret, taken, Record(level, syslogText, []), 0 < |syslogText| < 448)
    ensures mode == BOTH ==> Handed(ret, taken, Record(level, syslogText, uartText),
                                    0 < |syslogText| < 448 && 0 < |uartText| < 448)
  {
    SelectionByMode(mode, level, syslogText, uartText);
    ghost var r, before := ToRecord(mode, level, syslogText, uartText), q.Abs();
    ret := q.Push(mode, level, syslogText, uartText, true);
    ghost var pushed := q.Abs();
    if r.Some? { OneRecordThrough(before, r.value, pushed); }
    taken := q.Take(true, true);
  }

  // The record was accepted and is the one handed out, or was refused
  predicate Handed(ret: int, taken: TakeResult, r: Record, legal: bool) {
    if legal then ret == 0 && taken == Done(Flushed(r)) else ret == -1 && taken == Failed
  }

  lemma OneRecordThrough(st: State, r: Record, pushed: State)
    requires st.content == [] && r.WellFormed() && pushed == PushRecord(st, r, true)
    ensures PopRecord(pushed).1 == Flushed(r) && PopRecord(pushed).0.content == []
  {
    PushKeepsFraming(st, [], r);
    FramesOne(r);
    assert [] + [r] == [r];
    PopTakesOldest(pushed, [r]);
    assert [r][1..] == [];
  }
}
