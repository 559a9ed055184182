// The lock-free ring between the two cores, step by step.
//
// One core only produces, the other only consumes.  Every operation of the C
// code is split at its accesses to shared memory: it loads `write_index`, loads
// `read_index`, copies bytes one at a time in any order (memcpy promises none),
// and publishes its own index.  A schedule is any sequence of such steps, so a
// schedule is an interleaving of the two cores.

module RingProtocol {
  import opened Bits
  import opened ByteWords
  import opened RingIndex

  datatype ProducerCall = Write(src: seq<Byte>) | GetFree
  datatype ConsumerCall = Read(n: nat) | Peek(n: nat) | Skip(n: nat) | GetAvailable

  datatype Result = Ok | Full | Empty | InvalidParam | Count(bytes: nat)

  // Program counter and locals of each core.  seenR and seenW are the unbounded
  // counts behind the loaded indices; no step computes from them.
  datatype Producer =
    | PIdle
    | PEntered(call: ProducerCall)
    | PSeenWrite(call: ProducerCall, w: uint32)
    | PCopying(src: seq<Byte>, w: uint32, done: set<nat>, seenR: nat)

  datatype Consumer =
    | CIdle
    | CEntered(call: ConsumerCall)
    | CSeenWrite(call: ConsumerCall, w: uint32, seenW: nat)
    | CCopying(call: ConsumerCall, r: uint32, got: map<nat, Byte>)

  // The shared memory (data and the two indices), both cores, and the history:
  // every byte ever published, every byte ever retired, every completed peek
  // with the stream position it was made at.
  datatype Sys = Sys(
    data: seq<Byte>, writeIndex: uint32, readIndex: uint32,
    p: Producer, c: Consumer,
    pResult: Result, cResult: Result,
    knownFree: nat, knownAvailable: nat,
    sent: seq<Byte>, taken: seq<Byte>, peeks: seq<(nat, seq<Byte>)>)

  datatype Step =
    | PCall(pcall: ProducerCall) | PLoadWrite | PLoadRead | PCopy(k: nat) | PPublish
    | CCall(ccall: ConsumerCall) | CLoadWrite | CLoadRead | CCopy(k: nat) | CPublish

  function Need(call: ConsumerCall): nat {
    match call
    case Read(n) => n
    case Peek(n) => n
    case Skip(n) => n
    case GetAvailable => 0
  }

  function Init(data: seq<Byte>): Sys {
    Sys(data, 0, 0, PIdle, CIdle, Ok, Ok, 0, 0, [], [], [])
  }

  function Place(data: seq<Byte>, i: nat, b: Byte): seq<Byte> {
    if i < |data| then data[i := b] else data
  }

  function Fetch(data: seq<Byte>, i: nat): Byte {
    if i < |data| then data[i] else 0
  }

  function Gathered(got: map<nat, Byte>, n: nat): seq<Byte> {
    seq(n, k => if k in got then got[k] else 0)
  }

  function Lying(data: seq<Byte>, r: uint32, n: nat): seq<Byte>
    requires |data| > 0 && |data| < TWO32
  {
    seq(n, k requires 0 <= k => Fetch(data, Slot(r, k, |data|)))
  }

  predicate AllCopied(done: set<nat>, n: nat) {
    forall k: nat | k < n :: k in done
  }

  // What each step does; a step that its core cannot take now changes nothing.

  // The size parameter is a uint32, so longer calls cannot be made
  function PCallStep(s: Sys, call: ProducerCall): Sys {
    if !s.p.PIdle? || (call.Write? && |call.src| >= TWO32) then s
    else if call.Write? && |call.src| == 0 then s.(pResult := InvalidParam)
    else s.(p := PEntered(call))
  }

  function PLoadWriteStep(s: Sys): Sys {
    if !s.p.PEntered? then s
    else s.(p := PSeenWrite(s.p.call, s.writeIndex))
  }

  function PLoadReadStep(s: Sys): Sys
    requires 0 < |s.data| < TWO32
  {
    if !s.p.PSeenWrite? then s
    else
      var free := FreeOf(s.readIndex, s.p.w, |s.data|);
      match s.p.call
      case GetFree => s.(p := PIdle, pResult := Count(free), knownFree := free)
      case Write(src) =>
        if free < |src| then s.(p := PIdle, pResult := Full)
        else s.(p := PCopying(src, s.p.w, {}, |s.taken|))
  }

  function PCopyStep(s: Sys, k: nat): Sys
    requires 0 < |s.data| < TWO32
  {
    if !s.p.PCopying? || k >= |s.p.src| then s
    else s.(data := Place(s.data, Slot(s.p.w, k, |s.data|), s.p.src[k]),
            p := s.p.(done := s.p.done + {k}))
  }

  function PPublishStep(s: Sys): Sys {
    if !s.p.PCopying? || !AllCopied(s.p.done, |s.p.src|) then s
    else s.(writeIndex := Add32(s.p.w, |s.p.src|), sent := s.sent + s.p.src,
            knownFree := Less(s.knownFree, |s.p.src|), p := PIdle, pResult := Ok)
  }

  function CCallStep(s: Sys, call: ConsumerCall): Sys {
    if !s.c.CIdle? || Need(call) >= TWO32 then s
    else if !call.GetAvailable? && Need(call) == 0 then s.(cResult := InvalidParam)
    else s.(c := CEntered(call))
  }

  function CLoadWriteStep(s: Sys): Sys {
    if !s.c.CEntered? then s
    else s.(c := CSeenWrite(s.c.call, s.writeIndex, |s.sent|))
  }

  function CLoadReadStep(s: Sys): Sys
    requires 0 < |s.data| < TWO32
  {
    if !s.c.CSeenWrite? then s
    else
      var available := AvailableOf(s.c.w, s.readIndex, |s.data|);
      if s.c.call.GetAvailable? then
        s.(c := CIdle, cResult := Count(available), knownAvailable := available)
      else if available < Need(s.c.call) then s.(c := CIdle, cResult := Empty)
      else s.(c := CCopying(s.c.call, s.readIndex, map[]))
  }

  function CCopyStep(s: Sys, k: nat): Sys
    requires 0 < |s.data| < TWO32
  {
    if !s.c.CCopying? || k >= Need(s.c.call) then s
    else s.(c := s.c.(got := s.c.got[k := Fetch(s.data, Slot(s.c.r, k, |s.data|))]))
  }

  // A consumer call can finish once its copy is complete; a skip copies nothing
  predicate CanFinish(s: Sys) {
    s.c.CCopying? && !s.c.call.GetAvailable? &&
    (s.c.call.Skip? || AllCopied(s.c.got.Keys, Need(s.c.call)))
  }

  // What a finishing call delivers (for a skip: what it passes over)
  function Delivered(s: Sys): seq<Byte>
    requires s.c.CCopying? && 0 < |s.data| < TWO32
  {
    var n := Need(s.c.call);
    if s.c.call.Skip? then Lying(s.data, s.c.r, n) else Gathered(s.c.got, n)
  }

  function CPublishStep(s: Sys): Sys
    requires 0 < |s.data| < TWO32
  {
    if !CanFinish(s) then s
    else if s.c.call.Peek? then
      s.(peeks := s.peeks + [(|s.taken|, Delivered(s))], c := CIdle, cResult := Ok)
    else
      s.(readIndex := Add32(s.c.r, Need(s.c.call)), taken := s.taken + Delivered(s),
         knownAvailable := Less(s.knownAvailable, Need(s.c.call)), c := CIdle, cResult := Ok)
  }

  function Less(a: nat, b: nat): nat { if a >= b then a - b else 0 }

  function Do(s: Sys, st: Step): Sys
    requires 0 < |s.data| < TWO32
  {
    match st
    case PCall(call) => PCallStep(s, call)
    case PLoadWrite => PLoadWriteStep(s)
    case PLoadRead => PLoadReadStep(s)
    case PCopy(k) => PCopyStep(s, k)
    case PPublish => PPublishStep(s)
    case CCall(call) => CCallStep(s, call)
    case CLoadWrite => CLoadWriteStep(s)
    case CLoadRead => CLoadReadStep(s)
    case CCopy(k) => CCopyStep(s, k)
    case CPublish => CPublishStep(s)
  }

  function Run(s: Sys, schedule: seq<Step>): (s': Sys)
    requires 0 < |s.data| < TWO32
    ensures |s'.data| == |s.data|
    decreases |schedule|
  {
    if schedule == [] then s else Run(Do(s, schedule[0]), schedule[1..])
  }

  // ---------- the invariant ----------

  // Stream position i of `sent` sits in its slot
  predicate Holds(data: seq<Byte>, i: nat, b: Byte)
    requires |data| > 0
  {
    data[i % |data|] == b
  }

  ghost predicate Indices(size: nat, w: uint32, r: uint32, W: nat, R: nat) {
    && RingSize(size)
    && w == W % TWO32
    && r == R % TWO32
    && R <= W <= R + size - 1
  }

  ghost predicate Unread(data: seq<Byte>, sent: seq<Byte>, from: nat)
    requires |data| > 0
  {
    forall i: nat | from <= i < |sent| :: Holds(data, i, sent[i])
  }

  ghost predicate Written(data: seq<Byte>, W: nat, src: seq<Byte>, done: set<nat>)
    requires |data| > 0
  {
    forall k: nat | k in done && k < |src| :: Holds(data, W + k, src[k])
  }

  ghost predicate ProducerOk(p: Producer, data: seq<Byte>, w: uint32, W: nat, R: nat)
    requires |data| > 0
  {
    match p
    case PIdle => true
    case PEntered(_) => true
    case PSeenWrite(_, w') => w' == w
    case PCopying(src, w', done, seenR) =>
      w' == w && seenR <= R && W + |src| <= seenR + |data| - 1 &&
      Written(data, W, src, done)
  }

  ghost predicate Matches(got: map<nat, Byte>, n: nat, sent: seq<Byte>, R: nat)
    requires R + n <= |sent|
  {
    forall k: nat | k in got && k < n :: got[k] == sent[R + k]
  }

  ghost predicate ConsumerOk(c: Consumer, r: uint32, sent: seq<Byte>, R: nat, known: nat) {
    match c
    case CIdle => true
    case CEntered(_) => true
    case CSeenWrite(_, w, seenW) => w == seenW % TWO32 && R + known <= seenW <= |sent|
    case CCopying(call, r', got) =>
      r' == r && R + Need(call) <= |sent| && Matches(got, Need(call), sent, R)
  }

  ghost predicate PeekOk(peek: (nat, seq<Byte>), sent: seq<Byte>) {
    peek.0 + |peek.1| <= |sent| && peek.1 == sent[peek.0..peek.0 + |peek.1|]
  }

  ghost predicate PeeksOk(peeks: seq<(nat, seq<Byte>)>, sent: seq<Byte>) {
    forall j | 0 <= j < |peeks| :: PeekOk(peeks[j], sent)
  }

  ghost predicate Inv(s: Sys) {
    && Indices(|s.data|, s.writeIndex, s.readIndex, |s.sent|, |s.taken|)
    && Unread(s.data, s.sent, |s.taken|)
    && ProducerOk(s.p, s.data, s.writeIndex, |s.sent|, |s.taken|)
    && ConsumerOk(s.c, s.readIndex, s.sent, |s.taken|, s.knownAvailable)
    && s.taken <= s.sent
    && PeeksOk(s.peeks, s.sent)
    && |s.sent| + s.knownFree <= |s.taken| + |s.data| - 1
    && |s.taken| + s.knownAvailable <= |s.sent|
  }

  // The abstract state: the bytes published and not yet retired
  function Queue(s: Sys): seq<Byte>
    requires |s.taken| <= |s.sent|
  {
    s.sent[|s.taken|..]
  }

  // ---------- preservation ----------

  lemma InitInv(data: seq<Byte>)
    requires RingSize(|data|)
    ensures Inv(Init(data))
  {
  }

  lemma PLoadReadInv(s: Sys)
    requires Inv(s) && s.p.PSeenWrite?
    ensures Inv(PLoadReadStep(s))
    ensures FreeOf(s.readIndex, s.p.w, |s.data|) == |s.data| - 1 - (|s.sent| - |s.taken|)
  {
    FreeIsExact(|s.taken|, |s.sent|, |s.data|);
  }

  // Writing stream position X leaves every other position within one buffer
  lemma PlaceKeeps(data: seq<Byte>, X: nat, b: Byte, i: nat)
    requires RingSize(|data|) && i != X && i < X + |data| && X < i + |data|
    ensures Holds(data[X % |data| := b], i, data[i % |data|])
  {
    if i < X { SlotsDistinct(i, X, |data|); } else { SlotsDistinct(X, i, |data|); }
  }

  lemma PCopyInv(s: Sys, k: nat)
    requires Inv(s) && s.p.PCopying? && k < |s.p.src|
    ensures Inv(PCopyStep(s, k))
  {
    var s', X, b := PCopyStep(s, k), |s.sent| + k, s.p.src[k];
    SlotIsMod(|s.sent|, k, |s.data|);
    assert s'.data == s.data[X % |s.data| := b];
    assert Unread(s'.data, s.sent, |s.taken|) by {
      forall i: nat | |s.taken| <= i < |s.sent| ensures Holds(s'.data, i, s.sent[i]) {
        assert Holds(s.data, i, s.sent[i]);
        PlaceKeeps(s.data, X, b, i);
      }
    }
    assert Written(s'.data, |s.sent|, s.p.src, s'.p.done) by {
      forall j: nat | j in s'.p.done && j < |s.p.src| ensures Holds(s'.data, |s.sent| + j, s.p.src[j]) {
        if j != k {
          assert Holds(s.data, |s.sent| + j, s.p.src[j]);
          PlaceKeeps(s.data, X, b, |s.sent| + j);
        }
      }
    }
  }

  lemma PeeksGrow(peeks: seq<(nat, seq<Byte>)>, sent: seq<Byte>, more: seq<Byte>)
    requires PeeksOk(peeks, sent)
    ensures PeeksOk(peeks, sent + more)
  {
    forall j | 0 <= j < |peeks| ensures PeekOk(peeks[j], sent + more) {
      var a, b := peeks[j].0, peeks[j].0 + |peeks[j].1|;
      assert PeekOk(peeks[j], sent);
      assert (sent + more)[a..b] == sent[a..b];
    }
  }

  lemma UnreadGrows(data: seq<Byte>, sent: seq<Byte>, from: nat, src: seq<Byte>, done: set<nat>)
    requires |data| > 0 && from <= |sent|
    requires Unread(data, sent, from) && Written(data, |sent|, src, done) && AllCopied(done, |src|)
    ensures Unread(data, sent + src, from)
  {
    forall i: nat | from <= i < |sent + src| ensures Holds(data, i, (sent + src)[i]) {
      if i < |sent| {
        assert Holds(data, i, sent[i]);
      } else {
        assert (i - |sent|) in done;
        assert Holds(data, |sent| + (i - |sent|), src[i - |sent|]);
      }
    }
  }

  lemma CountAdd(X: nat, n: nat)
    ensures Add32(X % TWO32, n) == (X + n) % TWO32
  {
    ModOfSum(X, n, TWO32);
  }

  lemma ConsumerGrows(c: Consumer, r: uint32, sent: seq<Byte>, more: seq<Byte>, R: nat, known: nat)
    requires ConsumerOk(c, r, sent, R, known)
    ensures ConsumerOk(c, r, sent + more, R, known)
  {
  }

  lemma PPublishInv(s: Sys)
    requires Inv(s) && s.p.PCopying? && AllCopied(s.p.done, |s.p.src|)
    ensures Inv(PPublishStep(s))
    ensures Queue(PPublishStep(s)) == Queue(s) + s.p.src
  {
    CountAdd(|s.sent|, |s.p.src|);
    UnreadGrows(s.data, s.sent, |s.taken|, s.p.src, s.p.done);
    PeeksGrow(s.peeks, s.sent, s.p.src);
    ConsumerGrows(s.c, s.readIndex, s.sent, s.p.src, |s.taken|, s.knownAvailable);
  }

  lemma CLoadReadInv(s: Sys)
    requires Inv(s) && s.c.CSeenWrite?
    ensures Inv(CLoadReadStep(s))
    ensures AvailableOf(s.c.w, s.readIndex, |s.data|) == s.c.seenW - |s.taken|
  {
    AvailableIsExact(s.c.seenW, |s.taken|, |s.data|);
  }

  lemma SlotReadsStream(data: seq<Byte>, sent: seq<Byte>, R: nat, k: nat)
    requires RingSize(|data|) && k < |data| && R + k < |sent| && Unread(data, sent, R)
    ensures Fetch(data, Slot(R % TWO32, k, |data|)) == sent[R + k]
  {
    SlotIsMod(R, k, |data|);
    assert Holds(data, R + k, sent[R + k]);
  }

  lemma CCopyInv(s: Sys, k: nat)
    requires Inv(s) && s.c.CCopying? && k < Need(s.c.call)
    ensures Inv(CCopyStep(s, k))
  {
    SlotReadsStream(s.data, s.sent, |s.taken|, k);
    assert Matches(CCopyStep(s, k).c.got, Need(s.c.call), s.sent, |s.taken|);
  }

  lemma DeliversQueueHead(s: Sys)
    requires Inv(s) && CanFinish(s)
    ensures Need(s.c.call) <= |Queue(s)| && Delivered(s) == Queue(s)[..Need(s.c.call)]
  {
    var n := Need(s.c.call);
    forall k: nat | k < n ensures Delivered(s)[k] == s.sent[|s.taken| + k] {
      if s.c.call.Skip? {
        SlotReadsStream(s.data, s.sent, |s.taken|, k);
      } else {
        assert k in s.c.got;
      }
    }
  }

  lemma UnreadShrinks(data: seq<Byte>, sent: seq<Byte>, from: nat, n: nat)
    requires |data| > 0 && Unread(data, sent, from)
    ensures Unread(data, sent, from + n)
  {
  }

  lemma CPublishInv(s: Sys)
    requires Inv(s) && CanFinish(s)
    ensures Inv(CPublishStep(s))
    ensures Queue(CPublishStep(s)) ==
            if s.c.call.Peek? then Queue(s) else Queue(s)[Need(s.c.call)..]
  {
    DeliversQueueHead(s);
    var n := Need(s.c.call);
    assert s.taken == s.sent[..|s.taken|];
    assert s.sent[..|s.taken| + n] == s.taken + Delivered(s);
    assert PeekOk((|s.taken|, Delivered(s)), s.sent);
    UnreadShrinks(s.data, s.sent, |s.taken|, n);
    CountAdd(|s.taken|, n);
  }

  lemma DoInv(s: Sys, st: Step)
    requires Inv(s)
    ensures Inv(Do(s, st))
  {
    match st
    case PLoadRead => if s.p.PSeenWrite? { PLoadReadInv(s); }
    case PCopy(k) => if s.p.PCopying? && k < |s.p.src| { PCopyInv(s, k); }
    case PPublish => if s.p.PCopying? && AllCopied(s.p.done, |s.p.src|) { PPublishInv(s); }
    case CLoadRead => if s.c.CSeenWrite? { CLoadReadInv(s); }
    case CCopy(k) => if s.c.CCopying? && k < Need(s.c.call) { CCopyInv(s, k); }
    case CPublish => if CanFinish(s) { CPublishInv(s); }
    case _ =>
  }

  lemma {:induction false} RunInv(s: Sys, schedule: seq<Step>)
    requires Inv(s)
    ensures Inv(Run(s, schedule))
    decreases |schedule|
  {
    if schedule != [] {
      DoInv(s, schedule[0]);
      RunInv(Do(s, schedule[0]), schedule[1..]);
    }
  }

  // ---------- main results ----------

  // After any schedule, of any length, the bytes retired are a prefix of the
  // bytes published, at most `mask` bytes are in flight, the published indices
  // are the unbounded counts modulo 2^32, and every completed peek returned the
  // bytes that were next in the stream.
  lemma AnyInterleavingIsFifo(data: seq<Byte>, schedule: seq<Step>)
    requires RingSize(|data|)
    ensures var s := Run(Init(data), schedule);
            && s.taken <= s.sent
            && |s.sent| - |s.taken| <= |data| - 1
            && s.writeIndex == |s.sent| % TWO32 && s.readIndex == |s.taken| % TWO32
            && PeeksOk(s.peeks, s.sent)
  {
    InitInv(data);
    RunInv(Init(data), schedule);
  }

  // A writer that decided on a stale read_index never writes into a slot that
  // still holds an unread byte, whichever byte it copies next.
  lemma StaleWriterMissesUnread(data: seq<Byte>, schedule: seq<Step>, k: nat, i: nat)
    requires RingSize(|data|)
    requires var s := Run(Init(data), schedule);
             s.p.PCopying? && k < |s.p.src| && |s.taken| <= i < |s.sent|
    ensures var s := Run(Init(data), schedule);
            Slot(s.p.w, k, |data|) != i % |data|
  {
    InitInv(data);
    RunInv(Init(data), schedule);
    var s := Run(Init(data), schedule);
    SlotIsMod(|s.sent|, k, |data|);
    SlotsDistinct(i, |s.sent| + k, |data|);
  }

  // Once a check answered `available` (or `free`), a later call for no more
  // than what is left of that answer is not refused, whatever the other core
  // did in between.
  lemma CheckedCallsAreNotRefused(data: seq<Byte>, schedule: seq<Step>)
    requires RingSize(|data|)
    ensures var s := Run(Init(data), schedule);
            && (s.c.CSeenWrite? && !s.c.call.GetAvailable? && Need(s.c.call) <= s.knownAvailable
                ==> Do(s, CLoadRead).c.CCopying?)
            && (s.p.PSeenWrite? && s.p.call.Write? && |s.p.call.src| <= s.knownFree
                ==> Do(s, PLoadRead).p.PCopying?)
  {
    InitInv(data);
    RunInv(Init(data), schedule);
    var s := Run(Init(data), schedule);
    if s.c.CSeenWrite? { CLoadReadInv(s); }
    if s.p.PSeenWrite? { PLoadReadInv(s); }
  }

  // A write is refused exactly when the bytes do not fit at the moment its
  // read_index is loaded, and a read exactly when they were not all published
  // at the moment its write_index was loaded.
  lemma RefusedExactly(s: Sys)
    requires Inv(s)
    ensures s.p.PSeenWrite? && s.p.call.Write? ==>
              var s' := Do(s, PLoadRead);
              if |Queue(s)| + |s.p.call.src| <= |s.data| - 1 then s'.p.PCopying?
              else s'.p.PIdle? && s'.pResult == Full
    ensures s.c.CSeenWrite? && !s.c.call.GetAvailable? ==>
              var s' := Do(s, CLoadRead);
              if |s.taken| + Need(s.c.call) <= s.c.seenW then s'.c.CCopying?
              else s'.c.CIdle? && s'.cResult == Empty
  {
    if s.p.PSeenWrite? { PLoadReadInv(s); }
    if s.c.CSeenWrite? { CLoadReadInv(s); }
  }

  predicate Publishes(s: Sys, st: Step) {
    st.PPublish? && s.p.PCopying? && AllCopied(s.p.done, |s.p.src|)
  }

  predicate Retires(s: Sys, st: Step) {
    st.CPublish? && CanFinish(s) && !s.c.call.Peek?
  }

  lemma OtherStepsKeepHistory(s: Sys, st: Step)
    requires 0 < |s.data| < TWO32 && !Publishes(s, st) && !Retires(s, st)
    ensures Do(s, st).sent == s.sent && Do(s, st).taken == s.taken
  {
  }

  // The interleaved ring refines an atomic queue: only the two publishing steps
  // change it, a write appends its whole source, a read or skip removes exactly
  // the bytes it delivers, from the front.
  lemma StepsRefineQueue(s: Sys, st: Step)
    requires Inv(s)
    ensures Inv(Do(s, st))
    ensures Publishes(s, st) ==> Queue(Do(s, st)) == Queue(s) + s.p.src
    ensures Retires(s, st) ==>
              Queue(s) == Delivered(s) + Queue(Do(s, st)) && |Delivered(s)| == Need(s.c.call)
    ensures !Publishes(s, st) && !Retires(s, st) ==> Queue(Do(s, st)) == Queue(s)
  {
    DoInv(s, st);
    if Publishes(s, st) {
      PPublishInv(s);
    } else if Retires(s, st) {
      CPublishInv(s);
      DeliversQueueHead(s);
    } else {
      OtherStepsKeepHistory(s, st);
    }
  }

  // ---------- peek and skip against read ----------

  // A consumer call run with no step of the other core in between: up to the
  // end of its copy, and to its end
  function Copied(s: Sys, call: ConsumerCall): (s': Sys)
    requires 0 < |s.data| < TWO32
    ensures |s'.data| == |s.data|
  {
    CopyFrom(Do(Do(Do(s, CCall(call)), CLoadWrite), CLoadRead), 0)
  }

  function CallAlone(s: Sys, call: ConsumerCall): Sys
    requires 0 < |s.data| < TWO32
  {
    Do(Copied(s, call), CPublish)
  }

  function CopyFrom(s: Sys, k: nat): (s': Sys)
    requires 0 < |s.data| < TWO32
    ensures |s'.data| == |s.data|
    decreases if s.c.CCopying? && Need(s.c.call) > k then Need(s.c.call) - k else 0
  {
    if !s.c.CCopying? || k >= Need(s.c.call) then s else CopyFrom(Do(s, CCopy(k)), k + 1)
  }

  lemma {:induction false} CopyFromAll(s: Sys, k: nat)
    requires 0 < |s.data| < TWO32 && s.c.CCopying?
    requires forall j: nat | j < k :: j in s.c.got
    ensures var s' := CopyFrom(s, k);
            s'.c.CCopying? && AllCopied(s'.c.got.Keys, Need(s.c.call)) &&
            s' == s.(c := s.c.(got := s'.c.got))
    decreases if Need(s.c.call) > k then Need(s.c.call) - k else 0
  {
    if k < Need(s.c.call) { CopyFromAll(Do(s, CCopy(k)), k + 1); }
  }

  lemma CallAloneDelivers(s: Sys, call: ConsumerCall)
    requires Inv(s) && s.c.CIdle? && !call.GetAvailable? && 0 < Need(call) <= |Queue(s)|
    ensures var s2 := Copied(s, call);
            && Inv(s2) && CanFinish(s2) && Delivered(s2) == Queue(s)[..Need(call)]
            && s2 == s.(c := s2.c) && s2.c.call == call && s2.c.r == s.readIndex
  {
    DoInv(s, CCall(call));
    var sa := Do(s, CCall(call));
    DoInv(sa, CLoadWrite);
    var sb := Do(sa, CLoadWrite);
    CLoadReadInv(sb);
    assert Need(call) < |s.data| < TWO32;
    var s1 := Do(sb, CLoadRead);
    CopyFromInv(s1, 0);
    CopyFromAll(s1, 0);
    DeliversQueueHead(Copied(s, call));
  }

  lemma {:induction false} CopyFromInv(s: Sys, k: nat)
    requires Inv(s)
    ensures Inv(CopyFrom(s, k))
    decreases if s.c.CCopying? && Need(s.c.call) > k then Need(s.c.call) - k else 0
  {
    if s.c.CCopying? && k < Need(s.c.call) {
      DoInv(s, CCopy(k));
      CopyFromInv(Do(s, CCopy(k)), k + 1);
    }
  }

  // A call for no bytes, or for more than the queue holds, changes nothing but
  // the return code.
  lemma CallAloneRefused(s: Sys, call: ConsumerCall)
    requires Inv(s) && s.c.CIdle? && !call.GetAvailable? && Need(call) < TWO32
    requires Need(call) == 0 || |Queue(s)| < Need(call)
    ensures CallAlone(s, call) == s.(cResult := if Need(call) == 0 then InvalidParam else Empty)
  {
    if Need(call) != 0 {
      DoInv(s, CCall(call));
      DoInv(Do(s, CCall(call)), CLoadWrite);
      CLoadReadInv(Do(Do(s, CCall(call)), CLoadWrite));
    }
  }

  function AfterCall(s: Sys, call: ConsumerCall): Sys
    requires |s.taken| <= |s.sent| && Need(call) <= |Queue(s)|
  {
    var head := Queue(s)[..Need(call)];
    if call.Peek? then s.(peeks := s.peeks + [(|s.taken|, head)], cResult := Ok)
    else s.(readIndex := Add32(s.readIndex, Need(call)), taken := s.taken + head,
            knownAvailable := Less(s.knownAvailable, Need(call)), cResult := Ok)
  }

  lemma PublishAlone(s: Sys, call: ConsumerCall, s2: Sys)
    requires Inv(s) && s.c.CIdle? && Need(call) <= |Queue(s)|
    requires CanFinish(s2) && Inv(s2) && s2 == s.(c := s2.c) && s2.c.call == call && s2.c.r == s.readIndex
    requires Delivered(s2) == Queue(s)[..Need(call)]
    ensures CPublishStep(s2) == AfterCall(s, call)
  {
  }

  lemma CallAloneServed(s: Sys, call: ConsumerCall)
    requires Inv(s) && s.c.CIdle? && !call.GetAvailable? && 0 < Need(call) <= |Queue(s)|
    ensures CallAlone(s, call) == AfterCall(s, call) && Inv(CallAlone(s, call))
  {
    CallAloneDelivers(s, call);
    var s2 := Copied(s, call);
    CPublishInv(s2);
    PublishAlone(s, call, s2);
  }

  // Peeking n bytes and then skipping n bytes is reading n bytes, for every n:
  // same return code, same bytes, same final indices.
  lemma PeekThenSkipIsRead(s: Sys, n: nat)
    requires Inv(s) && s.c.CIdle? && n < TWO32
    ensures var a := CallAlone(CallAlone(s, Peek(n)), Skip(n));
            var b := CallAlone(s, Read(n));
            && a == b.(peeks := a.peeks)
            && b.cResult == (if n == 0 then InvalidParam else if n <= |Queue(s)| then Ok else Empty)
            && (b.cResult != Ok ==> b == s.(cResult := b.cResult) && a.peeks == s.peeks)
            && (b.cResult == Ok ==> a.peeks == s.peeks + [(|s.taken|, Queue(s)[..n])]
                                    && b.taken == s.taken + Queue(s)[..n])
  {
    if 0 < n <= |Queue(s)| {
      CallAloneServed(s, Peek(n));
      CallAloneServed(s, Read(n));
      CallAloneServed(CallAlone(s, Peek(n)), Skip(n));
    } else {
      CallAloneRefused(s, Peek(n));
      CallAloneRefused(s, Read(n));
      CallAloneRefused(CallAlone(s, Peek(n)), Skip(n));
    }
  }
}
