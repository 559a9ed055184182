// The asynchronous log queue of ccu_log.c: a circular byte array with head and
// tail, updated in place, proved against LogQueueSpec.

module LogQueue {
  import opened Bits
  import opened LogRecord
  import opened LogQueueSpec
  import opened Memory
  import opened Options

  datatype OutputMode = NONE | UART | SYSLOG | BOTH
  datatype TakeResult = Timeout | Failed | Done(popped: Popped)

  // The bytes from tail up to head, in circular order
  function Circular(b: seq<u8>, tail: nat, head: nat): (c: seq<u8>)
    requires tail < |b| && head < |b|
    ensures |c| == if head >= tail then head - tail else |b| - tail + head
  {
    if head >= tail then b[tail..head] else b[tail..] + b[..head]
  }

  function Advance(i: nat, n: nat): nat { (i + n) % QUEUE_SIZE }

  // The write ends before the end of the array, reaches it, or starts behind
  // the tail
  lemma AppendInside(b: seq<u8>, tail: nat, head: nat, data: seq<u8>)
    requires |b| == QUEUE_SIZE && tail <= head && head + |data| < |b|
    ensures Circular(Wrapped(b, head, data), tail, Advance(head, |data|)) == b[tail..head] + data
  {
    assert Advance(head, |data|) == head + |data|;
  }

  lemma AppendAcross(b: seq<u8>, tail: nat, head: nat, data: seq<u8>)
    requires |b| == QUEUE_SIZE && tail <= head < |b| <= head + |data| && head - tail + |data| <= CAPACITY
    ensures Circular(Wrapped(b, head, data), tail, Advance(head, |data|)) == b[tail..head] + data
  {
    var after, first := Wrapped(b, head, data), |b| - head;
    assert Advance(head, |data|) == |data| - first;
    assert after[tail..] == b[tail..head] + data[..first];
    assert after[..|data| - first] == data[first..];
    assert data == data[..first] + data[first..];
  }

  lemma AppendBehind(b: seq<u8>, tail: nat, head: nat, data: seq<u8>)
    requires |b| == QUEUE_SIZE && head < tail < |b| && |b| - tail + head + |data| <= CAPACITY
    ensures Circular(Wrapped(b, head, data), tail, Advance(head, |data|)) == b[tail..] + b[..head] + data
  {
    var after := Wrapped(b, head, data);
    assert Advance(head, |data|) == head + |data|;
    assert after[tail..] == b[tail..];
    assert after[..head + |data|] == b[..head] + data;
  }

  lemma CircularAppend(b: seq<u8>, tail: nat, head: nat, data: seq<u8>)
    requires |b| == QUEUE_SIZE && tail < |b| && head < |b|
    requires |Circular(b, tail, head)| + |data| <= CAPACITY
    ensures Circular(Wrapped(b, head, data), tail, Advance(head, |data|)) == Circular(b, tail, head) + data
  {
    if tail > head { AppendBehind(b, tail, head, data); }
    else if head + |data| < |b| { AppendInside(b, tail, head, data); }
    else { AppendAcross(b, tail, head, data); }
  }

  lemma CircularTake(b: seq<u8>, tail: nat, head: nat, n: nat)
    requires |b| == QUEUE_SIZE && tail < |b| && head < |b| && n <= |Circular(b, tail, head)|
    ensures Unwrapped(b, tail, n) == Circular(b, tail, head)[..n]
    ensures Circular(b, Advance(tail, n), head) == Circular(b, tail, head)[n..]
  {
    if tail + n < |b| { TakeInside(b, tail, head, n); } else { TakeAcross(b, tail, head, n); }
  }

  lemma TakeInside(b: seq<u8>, tail: nat, head: nat, n: nat)
    requires |b| == QUEUE_SIZE && tail + n < |b| && head < |b| && n <= |Circular(b, tail, head)|
    ensures Unwrapped(b, tail, n) == Circular(b, tail, head)[..n]
    ensures Circular(b, Advance(tail, n), head) == Circular(b, tail, head)[n..]
  {
    assert Advance(tail, n) == tail + n;
  }

  lemma TakeAcross(b: seq<u8>, tail: nat, head: nat, n: nat)
    requires |b| == QUEUE_SIZE && tail < |b| <= tail + n && head < |b| && n <= |Circular(b, tail, head)|
    ensures Unwrapped(b, tail, n) == Circular(b, tail, head)[..n]
    ensures Circular(b, Advance(tail, n), head) == Circular(b, tail, head)[n..]
  {
    assert Advance(tail, n) == tail + n - |b| && tail > head;
    assert Circular(b, tail, head) == b[tail..] + b[..head];
  }

  class LogQueue {
    const buffer: array<u8>
    var head: nat
    var tail: nat
    var initialized: bool
    var stats: Stats
    ghost var content: seq<u8>  // the bytes in use, oldest first

    ghost predicate Valid()
      reads this, buffer
    {
      && buffer.Length == QUEUE_SIZE && head < QUEUE_SIZE && tail < QUEUE_SIZE
      && content == Circular(buffer[..], tail, head)
    }

    ghost function Abs(): State
      reads this
    {
      State(content, stats)
    }

    // ccu_log_queue_init, with both semaphores created
    constructor ()
      ensures Valid() && initialized && fresh(buffer) && buffer.Length == 16384
      ensures Abs() == State([], Stats(0, 0, 0, 0, 0, 0))
    {
      buffer := new u8[QUEUE_SIZE](_ => 0);
      head, tail := 0, 0;
      content := [];
      stats := Stats(0, 0, 0, 0, 0, 0);
      initialized := true;
    }

    method GetAvailable() returns (available: nat)
      requires Valid()
      ensures available == 16383 - |content|
    {
      if head >= tail {
        available := QUEUE_SIZE - (head - tail) - 1;
      } else {
        available := tail - head - 1;
      }
    }

    method GetUsed() returns (used: nat)
      requires Valid()
      ensures used == |content|
    {
      var available := GetAvailable();
      used := QUEUE_SIZE - available - 1;
    }

    method QueueWrite(data: seq<u8>) returns (ok: bool)
      requires Valid()
      modifies this`head, this`content, buffer
      ensures Valid() && (content, ok) == StorePart(old(content), data)
    {
      var available := GetAvailable();
      if |data| > available {
        return false;
      }
      CircularAppend(buffer[..], tail, head, data);
      CopyToSlots(buffer, head, data);
      head := (head + |data|) % QUEUE_SIZE;
      content := content + data;
      return true;
    }

    method QueueRead(dst: array<u8>, len: nat) returns (ok: bool)
      requires Valid() && len <= dst.Length && dst != buffer
      modifies this`tail, this`content, dst
      ensures Valid()
      ensures ok <==> len <= |old(content)|
      ensures content == if ok then old(content)[len..] else old(content)
      ensures dst[..] == if ok then old(content)[..len] + old(dst[len..]) else old(dst[..])
    {
      var used := GetUsed();
      if len > used {
        return false;
      }
      CircularTake(buffer[..], tail, head, len);
      CopyFromSlots(dst, buffer, tail, len);
      tail := (tail + len) % QUEUE_SIZE;
      content := content[len..];
      return true;
    }

    // The chunked skip of the eviction loop
    method SkipPayload(len: nat)
      requires Valid()
      modifies this`tail, this`content
      ensures Valid() && content == Skip(old(content), len)
    {
      var dummy := new u8[CHUNK];
      var remaining: nat := len;
      while remaining > 0
        invariant Valid() && Skip(content, remaining) == Skip(old(content), len)
        invariant buffer[..] == old(buffer[..])
      {
        var chunk := if remaining > CHUNK then CHUNK else remaining;
        SkipOnce(content, remaining, chunk);
        var ok := QueueRead(dummy, chunk);
        if !ok {
          break;
        }
        remaining := remaining - chunk;
      }
    }

    // One pass of the eviction loop; false when it leaves by a break
    method DropOldest() returns (goOn: bool)
      requires Valid()
      modifies this`tail, this`content, this`stats
      ensures Valid() && (Abs(), !goOn) == EvictOne(old(Abs()))
    {
      var used := GetUsed();
      if used < HEADER_SIZE {
        tail, content := head, [];
        return false;
      }
      var raw := new u8[HEADER_SIZE];
      var ok := QueueRead(raw, HEADER_SIZE);
      var header := ParseHeader(raw[..]);
      assert header == HeadOf(old(content));
      var sum := HeaderChecksum(header);
      if sum != header.checksum || header.syslogLen >= MAX_MSG_LEN || header.uartLen >= MAX_MSG_LEN {
        tail, content := head, [];
        stats := stats.(dropped := Add32(stats.dropped, 1));
        return false;
      }
      DiscardRest(header);
      return true;
    }

    method DiscardRest(header: Header)
      requires Valid()
      modifies this`tail, this`content, this`stats
      ensures Valid() && Abs() == Discard(old(content), old(stats), header)
    {
      if header.syslogLen > 0 {
        SkipPayload(header.syslogLen);
      }
      if header.uartLen > 0 {
        SkipPayload(header.uartLen);
      }
      stats := stats.(overruns := Add32(stats.overruns, HEADER_SIZE + header.syslogLen + header.uartLen),
                      dropped := Add32(stats.dropped, 1));
    }

    // The eviction loop
    method MakeRoom(total: nat) returns (available: int)
      requires Valid()
      modifies this`tail, this`content, this`stats
      ensures Valid() && (Abs(), available) == Evict(old(Abs()), total, CAPACITY - |old(content)|)
    {
      available := GetAvailable();
      ghost var outcome := Evict(Abs(), total, available);
      while total > available
        invariant Valid()
        invariant Evict(Abs(), total, available) == outcome
        decreases |content|
      {
        var goOn := DropOldest();
        if !goOn {
          return;
        }
        available := GetAvailable();
        assert tail == head <==> content == [];
        if tail == head {
          break;
        }
      }
    }

    // ccu_log_push_v, from the formatted payloads on: syslogText and uartText
    // are what the two formatters produced, empty when one of them failed.
    method Push(mode: OutputMode, level: u8, syslogText: seq<u8>, uartText: seq<u8>, gotMutex: bool)
      returns (ret: int)
      requires Valid()
      modifies this`head, this`tail, this`content, this`stats, buffer
      ensures Valid()
      ensures var r := ToRecord(mode, level, syslogText, uartText);
              if !initialized || r.None? then ret == -1 && Abs() == old(Abs())
              else ret == 0 && Abs() == PushRecord(old(Abs()), r.value, gotMutex)
    {
      if !initialized {
        return -1;
      }
      var selected := SelectPayloads(mode, level, syslogText, uartText);
      if selected.None? {
        return -1;
      }
      PushSelected(selected.value, gotMutex);
      return 0;
    }

    method PushSelected(r: Record, gotMutex: bool)
      requires Valid() && r.WellFormed()
      modifies this`head, this`tail, this`content, this`stats, buffer
      ensures Valid() && Abs() == PushRecord(old(Abs()), r, gotMutex)
    {
      if !gotMutex {
        stats := stats.(dropped := Add32(stats.dropped, 1));
      } else {
        PushLocked(r);
      }
    }

    method PushLocked(r: Record)
      requires Valid() && r.WellFormed()
      modifies this`head, this`tail, this`content, this`stats, buffer
      ensures Valid() && Abs() == LogQueueSpec.PushLocked(old(Abs()), r)
    {
      var total := HEADER_SIZE + |r.syslog| + |r.uart|;
      var available := MakeRoom(total);
      FinishPush(r, total, available);
    }

    method FinishPush(r: Record, total: nat, available: int)
      requires Valid() && r.WellFormed()
      modifies this`head, this`content, this`stats, buffer
      ensures Valid() && Abs() == Finish(old(Abs()), r, total, available)
    {
      if total > available {
        stats := stats.(dropped := Add32(stats.dropped, 1));
      } else {
        StoreRecord(r);
      }
    }

    // Header, payloads and counters of an accepted record
    method StoreRecord(r: Record)
      requires Valid() && r.WellFormed()
      modifies this`head, this`content, this`stats, buffer
      ensures Valid() && Abs() == Commit(old(Abs()), r)
    {
      var ok := StoreParts(r);
      if ok {
        CountPushed();
      } else {
        stats := stats.(dropped := Add32(stats.dropped, 1));
      }
    }

    method CountPushed()
      requires Valid()
      modifies this`stats
      ensures stats == LogQueueSpec.CountPushed(old(stats), |content|)
    {
      var used := GetUsed();
      stats := stats.(pushed := Add32(stats.pushed, 1), currentBytes := used);
      if stats.currentBytes > stats.peakBytes {
        stats := stats.(peakBytes := stats.currentBytes);
      }
    }

    method StoreParts(r: Record) returns (ok: bool)
      requires Valid() && r.WellFormed()
      modifies this`head, this`content, buffer
      ensures Valid() && (content, ok) == Store(old(content), r)
    {
      var header := Header(|r.syslog|, |r.uart|, r.level, 0, 0);
      var sum := HeaderChecksum(header);
      ok := QueueWrite(HeaderBytes(header.(checksum := sum)));
      if ok {
        ok := StorePayloads(r.syslog, r.uart);
      }
    }

    method StorePayloads(syslog: seq<u8>, uart: seq<u8>) returns (ok: bool)
      requires Valid()
      modifies this`head, this`content, buffer
      ensures Valid()
      ensures var (c, ok1) := StorePart(old(content), syslog);
              (content, ok) == if !ok1 then (c, false) else StorePart(c, uart)
    {
      ok := StorePayload(syslog);
      if ok {
        ok := StorePayload(uart);
      }
    }

    // An absent payload is not written at all
    method StorePayload(data: seq<u8>) returns (ok: bool)
      requires Valid()
      modifies this`head, this`content, buffer
      ensures Valid() && (content, ok) == StorePart(old(content), data)
    {
      ok := true;
      if |data| > 0 {
        ok := QueueWrite(data);
      } else {
        assert content + data == content;
      }
    }

    // logger_pop_and_flush, up to the flush; the two flags are the outcomes of
    // waiting for the semaphore and for the mutex
    method Take(signalled: bool, gotMutex: bool) returns (r: TakeResult)
      requires Valid()
      modifies this`tail, this`content, this`stats
      ensures Valid()
      ensures if !initialized then r == Failed && Abs() == old(Abs())
              else if !signalled then r == Timeout && Abs() == old(Abs())
              else if !gotMutex then r == Failed && Abs() == old(Abs())
              else var (st, popped) := PopRecord(old(Abs()));
                   Abs() == st && r == if popped.Nothing? then Failed else Done(popped)
    {
      if !initialized {
        return Failed;
      }
      if !signalled {
        return Timeout;
      }
      if !gotMutex {
        return Failed;
      }
      var used := GetUsed();
      if used < HEADER_SIZE {
        return Failed;
      }
      var raw := new u8[HEADER_SIZE];
      var ok := QueueRead(raw, HEADER_SIZE);
      var header := ParseHeader(raw[..]);
      assert header == HeadOf(old(content));
      var sum := HeaderChecksum(header);
      if sum != header.checksum {
        tail, content := head, [];
        stats := stats.(dropped := Add32(stats.dropped, 1));
        return Failed;
      }
      if header.syslogLen >= MAX_MSG_LEN || header.uartLen >= MAX_MSG_LEN {
        tail, content := head, [];
        return Failed;
      }
      r := TakePayloads(header);
    }

    method TakePayloads(header: Header) returns (r: TakeResult)
      requires Valid() && LengthsOk(header)
      modifies this`tail, this`content, this`stats
      ensures Valid()
      ensures var (st, popped) := Deliver(old(content), old(stats), header);
              Abs() == st && r == if popped.Nothing? then Failed else Done(popped)
    {
      var ok, syslog := TakePayload(header.syslogLen);
      if !ok {
        return Failed;
      }
      r := TakeUart(header, syslog);
    }

    method TakeUart(header: Header, syslog: seq<u8>) returns (r: TakeResult)
      requires Valid() && LengthsOk(header)
      modifies this`tail, this`content, this`stats
      ensures Valid()
      ensures r == if header.uartLen > |old(content)| then Failed
                   else Done(Flushed(Record(header.level, syslog, old(content)[..header.uartLen])))
      ensures r.Failed? ==> Abs() == old(Abs())
      ensures r.Done? ==> content == old(content)[header.uartLen..]
      ensures r.Done? ==>
                stats == old(stats).(popped := Add32(old(stats).popped, 1), currentBytes := |content| % TWO32)
    {
      var ok, uart := TakePayload(header.uartLen);
      if !ok {
        return Failed;
      }
      CountPopped();
      return Done(Flushed(Record(header.level, syslog, uart)));
    }

    method CountPopped()
      requires Valid()
      modifies this`stats
      ensures stats == old(stats).(popped := Add32(old(stats).popped, 1), currentBytes := |content| % TWO32)
    {
      var used := GetUsed();
      stats := stats.(popped := Add32(stats.popped, 1), currentBytes := used);
    }

    // Reading one payload; an absent one is not read at all
    method TakePayload(len: nat) returns (ok: bool, payload: seq<u8>)
      requires Valid() && len < MAX_MSG_LEN
      modifies this`tail, this`content
      ensures Valid()
      ensures ok <==> len <= |old(content)|
      ensures content == if ok then old(content)[len..] else old(content)
      ensures ok ==> payload == old(content)[..len]
    {
      var buf := new u8[MAX_MSG_LEN];
      ok := true;
      if len > 0 {
        ok := QueueRead(buf, len);
      }
      payload := buf[..len];
    }
  }

  // The record a push stores: one payload for each enabled output, each within
  // the length limits, and at least one of them
  function ToRecord(mode: OutputMode, level: u8, syslog: seq<u8>, uart: seq<u8>): (r: Option<Record>)
    ensures r.Some? ==> r.value.WellFormed()
  {
    var s := if mode == SYSLOG || mode == BOTH then syslog else [];
    var u := if mode == UART || mode == BOTH then uart else [];
    if mode == NONE || |s| >= PAYLOAD_LIMIT || |u| >= PAYLOAD_LIMIT
       || (mode != UART && s == []) || (mode != SYSLOG && u == []) then None
    else Some(Record(level, s, u))
  }

  // Each mode looks at the texts of its own outputs only, and takes a record of
  // these if each has from 1 to 447 bytes.
  predicate SelectedBy(mode: OutputMode, level: u8, syslogText: seq<u8>, uartText: seq<u8>, r: Option<Record>) {
    match mode
    case NONE => r == None
    case UART => r == if 0 < |uartText| < 448 then Some(Record(level, [], uartText)) else None
    case SYSLOG => r == if 0 < |syslogText| < 448 then Some(Record(level, syslogText, [])) else None
    case BOTH => r == if 0 < |syslogText| < 448 && 0 < |uartText| < 448 then Some(Record(level, syslogText, uartText))
                      else None
  }

  lemma SelectionByMode(mode: OutputMode, level: u8, syslogText: seq<u8>, uartText: seq<u8>)
    ensures SelectedBy(mode, level, syslogText, uartText, ToRecord(mode, level, syslogText, uartText))
  {
  }

  // The length checks on the payloads of the enabled outputs
  method SelectPayloads(mode: OutputMode, level: u8, syslogText: seq<u8>, uartText: seq<u8>)
    returns (r: Option<Record>)
    ensures r == ToRecord(mode, level, syslogText, uartText)
    ensures SelectedBy(mode, level, syslogText, uartText, r)
  {
    var syslog: seq<u8>, uart: seq<u8> := [], [];
    if mode == SYSLOG || mode == BOTH {
      if |syslogText| == 0 || |syslogText| >= MAX_MSG_LEN - 64 {
        return None;
      }
      syslog := syslogText;
    }
    if mode == UART || mode == BOTH {
      if |uartText| == 0 || |uartText| >= MAX_MSG_LEN - 64 {
        return None;
      }
      uart := uartText;
    }
    if |syslog| == 0 && |uart| == 0 {
      return None;
    }
    return Some(Record(level, syslog, uart));
  }
}
