// What one call of the log queue does to the bytes in use, branch by branch,
// and what that means while the bytes are whole records.
//
// `content` is the part of the circular buffer between tail and head.  The
// functions below keep every branch of ccu_log_push_v and logger_pop_and_flush,
// the recovery branches for corrupted bytes included; the lemmas after them
// show which branches a queue of whole records can take.

module LogQueueSpec {
  import opened Bits
  import opened LogRecord
  import Memory

  const QUEUE_SIZE := 16384
  const CAPACITY := QUEUE_SIZE - 1
  const CHUNK := 64

  datatype Stats = Stats(pushed: uint32, popped: uint32, dropped: uint32,
                         overruns: uint32, currentBytes: uint32, peakBytes: uint32)

  datatype State = State(content: seq<u8>, stats: Stats)

  function Dropped(s: Stats): Stats { s.(dropped := Add32(s.dropped, 1)) }

  // ---------- push ----------

  // Skipping a payload in chunks; stops at the first chunk that is not there
  function Skip(content: seq<u8>, remaining: nat): (rest: seq<u8>)
    ensures |rest| <= |content|
    decreases remaining
  {
    var chunk := if remaining > CHUNK then CHUNK else remaining;
    if remaining == 0 || chunk > |content| then content
    else Skip(content[chunk..], remaining - chunk)
  }

  lemma SkipOnce(content: seq<u8>, remaining: nat, chunk: nat)
    requires remaining > 0 && chunk == if remaining > CHUNK then CHUNK else remaining
    ensures chunk <= |content| ==> Skip(content, remaining) == Skip(content[chunk..], remaining - chunk)
    ensures chunk > |content| ==> Skip(content, remaining) == content
  {
  }

  predicate LengthsOk(h: Header) {
    h.syslogLen < MAX_MSG_LEN && h.uartLen < MAX_MSG_LEN
  }

  // Removing the record whose header was just read
  function Discard(body: seq<u8>, stats: Stats, h: Header): (st: State)
    ensures |st.content| <= |body|
  {
    State(Skip(Skip(body, h.syslogLen), h.uartLen),
          EvictStats(stats, 1, HEADER_SIZE + h.syslogLen + h.uartLen))
  }

  function EvictStats(s: Stats, records: nat, bytes: nat): Stats {
    s.(dropped := Add32(s.dropped, records), overruns := Add32(s.overruns, bytes))
  }

  // One pass of the eviction loop: the new state, and whether the loop is left
  // by a break before `available` is recomputed.
  function EvictOne(st: State): (r: (State, bool))
    ensures !r.1 ==> |r.0.content| + HEADER_SIZE <= |st.content|
  {
    if |st.content| < HEADER_SIZE then (st.(content := []), true)
    else
      var h := HeadOf(st.content);
      if Checksum(h) != h.checksum || !LengthsOk(h) then (State([], Dropped(st.stats)), true)
      else (Discard(BodyOf(st.content), st.stats, h), false)
  }

  // The loop; also returns the last value of `available`
  function Evict(st: State, total: int, available: int): (State, int)
    decreases |st.content|
  {
    if total <= available then (st, available)
    else
      var (next, broke) := EvictOne(st);
      if broke then (next, available)
      else if next.content == [] then (next, CAPACITY)
      else Evict(next, total, CAPACITY - |next.content|)
  }

  function StorePart(content: seq<u8>, part: seq<u8>): (seq<u8>, bool) {
    if |content| + |part| > CAPACITY then (content, false) else (content + part, true)
  }

  // The three writes; one that does not fit leaves what was written before it
  function Store(content: seq<u8>, r: Record): (seq<u8>, bool)
    requires r.WellFormed()
  {
    var (c1, ok1) := StorePart(content, HeaderBytes(SealedHeader(r)));
    if !ok1 then (c1, false)
    else
      var (c2, ok2) := StorePart(c1, r.syslog);
      if !ok2 then (c2, false) else StorePart(c2, r.uart)
  }

  function Max(a: nat, b: nat): nat { if a > b then a else b }

  function CountPushed(s: Stats, used: nat): Stats {
    var peak := if used > s.peakBytes then used else s.peakBytes;
    s.(pushed := Add32(s.pushed, 1), currentBytes := used % TWO32, peakBytes := peak % TWO32)
  }

  function Commit(st: State, r: Record): State
    requires r.WellFormed()
  {
    var (content, ok) := Store(st.content, r);
    State(content, if ok then CountPushed(st.stats, |content|) else Dropped(st.stats))
  }

  // ccu_log_push_v once the payloads are formatted: with the mutex, and in all
  function PushLocked(st: State, r: Record): State
    requires r.WellFormed()
  {
    var total := HEADER_SIZE + |r.syslog| + |r.uart|;
    var (made, available) := Evict(st, total, CAPACITY - |st.content|);
    Finish(made, r, total, available)
  }

  // The last test, after the room that could be made was made
  function Finish(made: State, r: Record, total: nat, available: int): State
    requires r.WellFormed()
  {
    if total > available then made.(stats := Dropped(made.stats)) else Commit(made, r)
  }

  function PushRecord(st: State, r: Record, gotMutex: bool): State
    requires r.WellFormed()
  {
    if gotMutex then PushLocked(st, r) else st.(stats := Dropped(st.stats))
  }

  // ---------- pop ----------

  datatype Popped = Nothing | Flushed(record: Record)

  // Reading the payloads whose header was just read
  function Deliver(body: seq<u8>, stats: Stats, h: Header): (State, Popped) {
    if h.syslogLen > |body| then (State(body, stats), Nothing)
    else
      var body' := body[h.syslogLen..];
      if h.uartLen > |body'| then (State(body', stats), Nothing)
      else
        var left := body'[h.uartLen..];
        (State(left, stats.(popped := Add32(stats.popped, 1), currentBytes := |left| % TWO32)),
         Flushed(Record(h.level, body[..h.syslogLen], body'[..h.uartLen])))
  }

  function PopRecord(st: State): (State, Popped) {
    if |st.content| < HEADER_SIZE then (st, Nothing)
    else
      var h := HeadOf(st.content);
      if Checksum(h) != h.checksum then (State([], Dropped(st.stats)), Nothing)
      else if !LengthsOk(h) then (st.(content := []), Nothing)
      else Deliver(BodyOf(st.content), st.stats, h)
  }

  // ---------- what the branches mean on whole records ----------

  // The chunked skip is one advance of the tail
  lemma {:induction false} SkipIsAdvance(content: seq<u8>, n: nat)
    requires n <= |content|
    ensures Skip(content, n) == content[n..]
    decreases n
  {
    var chunk := if n > CHUNK then CHUNK else n;
    if n > 0 {
      SkipIsAdvance(content[chunk..], n - chunk);
    }
  }

  // How many of the oldest records an eviction for `total` bytes removes
  function Evicted(rs: seq<Record>, total: nat): (k: nat)
    requires AllWellFormed(rs) && total <= CAPACITY
    ensures k <= |rs|
  {
    if |Frames(rs)| + total <= CAPACITY then 0 else 1 + Evicted(rs[1..], total)
  }

  // It is the fewest that make room
  lemma {:induction false} EvictedIsShortest(rs: seq<Record>, total: nat, j: nat)
    requires AllWellFormed(rs) && total <= CAPACITY && j <= |rs|
    ensures j < Evicted(rs, total) <==> |Frames(rs[j..])| + total > CAPACITY
    decreases |rs|
  {
    if j == 0 {
      assert rs[0..] == rs;
    } else {
      assert rs[1..][j - 1..] == rs[j..];
      EvictedIsShortest(rs[1..], total, j - 1);
      SuffixShorter(rs, j);
    }
  }

  lemma SuffixShorter(rs: seq<Record>, j: nat)
    requires AllWellFormed(rs) && j <= |rs|
    ensures |Frames(rs[j..])| <= |Frames(rs)|
  {
    assert rs == rs[..j] + rs[j..];
    FramesConcat(rs[..j], rs[j..]);
  }

  // Bytes the records take in the queue
  function Bytes(rs: seq<Record>): nat
    requires AllWellFormed(rs)
  {
    |Frames(rs)|
  }

  lemma AddTwice(x: int, a: int, b: int)
    ensures Add32(Add32(x, a), b) == Add32(x, a + b)
  {
    ModOfSum(x + a, b, TWO32);
  }

  lemma SkipOver(a: seq<u8>, b: seq<u8>)
    ensures Skip(a + b, |a|) == b
  {
    SkipIsAdvance(a + b, |a|);
    Memory.Halves(a, b);
  }

  lemma HeadOfFrames(rs: seq<Record>)
    requires AllWellFormed(rs) && rs != []
    ensures |Frames(rs)| == |Frame(rs[0])| + |Frames(rs[1..])|
    ensures HeadOf(Frames(rs)) == SealedHeader(rs[0])
    ensures BodyOf(Frames(rs)) == rs[0].syslog + (rs[0].uart + Frames(rs[1..]))
    ensures Checksum(HeadOf(Frames(rs))) == HeadOf(Frames(rs)).checksum && LengthsOk(HeadOf(Frames(rs)))
  {
    FrameParses(rs[0], Frames(rs[1..]));
  }

  lemma DiscardWhole(r: Record, rest: seq<u8>, stats: Stats)
    requires r.WellFormed()
    ensures Discard(r.syslog + (r.uart + rest), stats, SealedHeader(r)) ==
            State(rest, EvictStats(stats, 1, |Frame(r)|))
  {
    SkipOver(r.syslog, r.uart + rest);
    SkipOver(r.uart, rest);
  }

  lemma EvictOneWhole(st: State, rs: seq<Record>)
    requires AllWellFormed(rs) && rs != [] && st.content == Frames(rs)
    ensures EvictOne(st) == (State(Frames(rs[1..]), EvictStats(st.stats, 1, |Frame(rs[0])|)), false)
  {
    HeadOfFrames(rs);
    DiscardWhole(rs[0], Frames(rs[1..]), st.stats);
  }

  lemma EvictStatsTwice(s: Stats, n: nat, a: nat, m: nat, b: nat)
    ensures EvictStats(EvictStats(s, n, a), m, b) == EvictStats(s, n + m, a + b)
  {
    AddTwice(s.dropped, n, m);
    AddTwice(s.overruns, a, b);
  }

  function EvictedState(rs: seq<Record>, stats: Stats, k: nat): State
    requires AllWellFormed(rs) && k <= |rs|
  {
    State(Frames(rs[k..]), EvictStats(stats, k, Bytes(rs[..k])))
  }

  lemma BytesSplit(rs: seq<Record>, k: nat)
    requires AllWellFormed(rs) && k <= |rs|
    ensures Bytes(rs) == Bytes(rs[..k]) + Bytes(rs[k..])
  {
    assert rs == rs[..k] + rs[k..];
    FramesConcat(rs[..k], rs[k..]);
  }

  lemma EvictedStep(rs: seq<Record>, stats: Stats, k: nat)
    requires AllWellFormed(rs) && k < |rs|
    ensures EvictedState(rs[1..], EvictStats(stats, 1, |Frame(rs[0])|), k) == EvictedState(rs, stats, k + 1)
    ensures rs[1..][k..] == rs[k + 1..]
  {
    assert rs[..k + 1][1..] == rs[1..][..k] && rs[..k + 1][0] == rs[0];
    EvictStatsTwice(stats, 1, |Frame(rs[0])|, k, Bytes(rs[1..][..k]));
  }

  // The test for an empty queue leaves the loop with what one more test of
  // `available` would have left it with
  lemma EvictUnrolled(st: State, next: State, total: nat, available: int)
    requires total > available && EvictOne(st) == (next, false) && total <= CAPACITY
    ensures Evict(st, total, available) == Evict(next, total, CAPACITY - |next.content|)
  {
  }

  // State and space left once the oldest k records are gone
  function OutcomeAt(rs: seq<Record>, stats: Stats, k: nat): (State, int)
    requires AllWellFormed(rs) && k <= |rs|
  {
    (EvictedState(rs, stats, k), CAPACITY - |Frames(rs[k..])|)
  }

  function EvictedOutcome(rs: seq<Record>, stats: Stats, total: nat): (State, int)
    requires AllWellFormed(rs) && total <= CAPACITY
  {
    OutcomeAt(rs, stats, Evicted(rs, total))
  }

  lemma OutcomeShift(rs: seq<Record>, stats: Stats, k: nat)
    requires AllWellFormed(rs) && k < |rs|
    ensures OutcomeAt(rs[1..], EvictStats(stats, 1, |Frame(rs[0])|), k) == OutcomeAt(rs, stats, k + 1)
  {
    EvictedStep(rs, stats, k);
  }

  lemma OutcomeStep(rs: seq<Record>, stats: Stats, total: nat)
    requires AllWellFormed(rs) && total <= CAPACITY && |Frames(rs)| + total > CAPACITY
    ensures EvictedOutcome(rs[1..], EvictStats(stats, 1, |Frame(rs[0])|), total) == EvictedOutcome(rs, stats, total)
  {
    OutcomeShift(rs, stats, Evicted(rs[1..], total));
  }

  lemma {:induction false} EvictWhole(st: State, rs: seq<Record>, total: nat)
    requires AllWellFormed(rs) && st.content == Frames(rs) && total <= CAPACITY
    ensures Evict(st, total, CAPACITY - |st.content|) == EvictedOutcome(rs, st.stats, total)
    decreases |rs|
  {
    if total <= CAPACITY - |st.content| {
      EvictNothing(st, rs);
      assert rs[0..] == rs;
    } else {
      var next := State(Frames(rs[1..]), EvictStats(st.stats, 1, |Frame(rs[0])|));
      EvictOneWhole(st, rs);
      EvictUnrolled(st, next, total, CAPACITY - |st.content|);
      EvictWhole(next, rs[1..], total);
      OutcomeStep(rs, st.stats, total);
    }
  }

  lemma EvictNothing(st: State, rs: seq<Record>)
    requires AllWellFormed(rs) && st.content == Frames(rs)
    ensures EvictedState(rs, st.stats, 0) == st
  {
    assert rs[0..] == rs && rs[..0] == [];
  }

  lemma FrameFits(r: Record)
    requires r.WellFormed()
    ensures HEADER_SIZE < |Frame(r)| <= HEADER_SIZE + 2 * (PAYLOAD_LIMIT - 1) < CAPACITY
  {
  }

  lemma CommitWhole(st: State, r: Record)
    requires r.WellFormed() && |st.content| + |Frame(r)| <= CAPACITY
    ensures Commit(st, r).content == st.content + Frame(r)
    ensures Commit(st, r).stats.pushed == Add32(st.stats.pushed, 1)
    ensures Commit(st, r).stats.dropped == st.stats.dropped && Commit(st, r).stats.overruns == st.stats.overruns
    ensures Commit(st, r).stats.popped == st.stats.popped
    ensures Commit(st, r).stats.currentBytes == |st.content + Frame(r)|
    ensures Commit(st, r).stats.peakBytes == Max(|st.content + Frame(r)|, st.stats.peakBytes)
  {
    assert st.content + HeaderBytes(SealedHeader(r)) + r.syslog + r.uart == st.content + Frame(r);
  }

  lemma EvictionMakesRoom(rs: seq<Record>, r: Record)
    requires AllWellFormed(rs) && r.WellFormed()
    ensures |Frame(r)| <= CAPACITY
    ensures |Frames(rs[Evicted(rs, |Frame(r)|)..])| + |Frame(r)| <= CAPACITY
  {
    FrameFits(r);
    EvictedIsShortest(rs, |Frame(r)|, Evicted(rs, |Frame(r)|));
  }

  // No recovery or still-full branch is taken
  lemma PushLockedWhole(st: State, rs: seq<Record>, r: Record, total: nat, k: nat)
    requires AllWellFormed(rs) && st.content == Frames(rs) && r.WellFormed()
    requires total == HEADER_SIZE + |r.syslog| + |r.uart| <= CAPACITY && k == Evicted(rs, total)
    requires |Frames(rs[k..])| + total <= CAPACITY
    ensures PushLocked(st, r) == Commit(EvictedState(rs, st.stats, k), r)
  {
    EvictWhole(st, rs, total);
    PushAfterEviction(st, r, total, EvictedOutcome(rs, st.stats, total));
  }

  lemma PushAfterEviction(st: State, r: Record, total: nat, evicted: (State, int))
    requires r.WellFormed() && total == HEADER_SIZE + |r.syslog| + |r.uart| <= evicted.1
    requires Evict(st, total, CAPACITY - |st.content|) == evicted
    ensures PushLocked(st, r) == Commit(evicted.0, r)
  {
  }

  // A push on whole records evicts exactly the shortest run of oldest records
  // that makes room, never takes a recovery or still-full branch, and appends
  // the new record.
  lemma PushKeepsFraming(st: State, rs: seq<Record>, r: Record)
    requires AllWellFormed(rs) && st.content == Frames(rs) && |st.content| <= CAPACITY && r.WellFormed()
    ensures |Frame(r)| <= CAPACITY
    ensures var k := Evicted(rs, |Frame(r)|);
            var st' := PushRecord(st, r, true);
            && AllWellFormed(rs[k..] + [r])
            && st'.content == Frames(rs[k..] + [r])
            && |st'.content| <= CAPACITY
            && st'.stats.pushed == Add32(st.stats.pushed, 1)
            && st'.stats.popped == st.stats.popped
            && st'.stats.dropped == Add32(st.stats.dropped, k)
            && st'.stats.overruns == Add32(st.stats.overruns, Bytes(rs[..k]))
            && st'.stats.currentBytes == |st'.content|
            && st'.stats.peakBytes == Max(|st'.content|, st.stats.peakBytes)
  {
    EvictionMakesRoom(rs, r);
    var k := Evicted(rs, |Frame(r)|);
    PushLockedWhole(st, rs, r, |Frame(r)|, k);
    CommitWhole(EvictedState(rs, st.stats, k), r);
    assert Frames([r]) == Frame(r) by { assert [r][1..] == []; }
    FramesConcat(rs[k..], [r]);
  }

  lemma DeliverWhole(r: Record, rest: seq<u8>, stats: Stats)
    requires r.WellFormed() && |rest| < TWO32
    ensures Deliver(r.syslog + (r.uart + rest), stats, SealedHeader(r)) ==
            (State(rest, stats.(popped := Add32(stats.popped, 1), currentBytes := |rest|)), Flushed(r))
  {
    Memory.Halves(r.syslog, r.uart + rest);
    Memory.Halves(r.uart, rest);
  }

  // What a pop on whole records amounts to
  function PopOutcome(rs: seq<Record>, st: State): (State, Popped)
    requires AllWellFormed(rs)
  {
    if rs == [] then (st, Nothing)
    else
      (State(Frames(rs[1..]), st.stats.(popped := Add32(st.stats.popped, 1), currentBytes := Bytes(rs[1..]) % TWO32)),
       Flushed(rs[0]))
  }

  // A pop on whole records delivers the oldest one unchanged and removes
  // exactly its bytes.
  lemma PopTakesOldest(st: State, rs: seq<Record>)
    requires AllWellFormed(rs) && st.content == Frames(rs) && |st.content| <= CAPACITY
    ensures PopRecord(st) == PopOutcome(rs, st)
  {
    if rs != [] {
      HeadOfFrames(rs);
      DeliverWhole(rs[0], Frames(rs[1..]), st.stats);
    }
  }

  // ---------- a damaged queue ----------

  // A queue of whole records of which one of the first six bytes has changed since
  // it was written: whoever meets it empties the queue and counts one drop.
  lemma DamageIsNoticed(st: State, rs: seq<Record>, k: nat, v: u8)
    requires AllWellFormed(rs) && rs != [] && |st.content| == |Frames(rs)| && k < 6
    requires v != Frames(rs)[k] && st.content == Frames(rs)[k := v]
    ensures PopRecord(st) == (State([], Dropped(st.stats)), Nothing)
    ensures EvictOne(st) == (State([], Dropped(st.stats)), true)
  {
    HeadOfFrames(rs);
    var was, now := Frames(rs)[..HEADER_SIZE], st.content[..HEADER_SIZE];
    assert now == was[k := v];
    ByteChangesSum(was, k, v);
    SumOfParsed(was);
    SumOfParsed(now);
    assert now[6] == was[6] && now[7] == was[7];
  }

  // What the branches for corrupted bytes do: fewer bytes than a header are
  // removed by an eviction and left alone by a pop; a record with a length of 512
  // or more empties the queue, and only the eviction counts it.
  lemma Recovery(st: State)
    ensures |st.content| < 8 ==> EvictOne(st) == (State([], st.stats), true) && PopRecord(st) == (st, Nothing)
    ensures |st.content| >= 8 && Checksum(HeadOf(st.content)) == HeadOf(st.content).checksum
            && (HeadOf(st.content).syslogLen >= 512 || HeadOf(st.content).uartLen >= 512) ==>
              && EvictOne(st) == (State([], Dropped(st.stats)), true)
              && PopRecord(st) == (State([], st.stats), Nothing)
  {
  }

  // A skip that runs out of bytes keeps the last piece shorter than a chunk
  lemma {:induction false} SkipStopsShort(content: seq<u8>, n: nat)
    requires n > |content|
    ensures Skip(content, n) == content[64 * (|content| / 64)..]
    decreases n
  {
    if |content| >= 64 {
      SkipStopsShort(content[64..], n - 64);
      assert content[64..][64 * (|content[64..]| / 64)..] == content[64 * (|content| / 64)..];
    }
  }
}
