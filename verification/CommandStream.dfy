// Framing of the ring: Core 0 only writes whole 24-byte commands, Core 1 reads
// what a preceding availability check reported, capped by its 23-slot buffer.
// Whatever the interleaving, commands then arrive whole, in order, and the read
// is never refused.

module CommandStream {
  import opened Bits
  import opened ByteWords
  import R = RingIndex
  import opened RingProtocol
  import M = MotorCommand

  // The calls the two cores make
  predicate Legal(s: Sys, st: Step) {
    match st
    case PCall(Write(src)) => |src| % M.CMD_SIZE == 0
    case CCall(Read(n)) =>
      s.knownAvailable >= M.CMD_SIZE &&
      n == if s.knownAvailable > M.BATCH_BYTES then M.BATCH_BYTES else s.knownAvailable
    case CCall(Peek(_)) => false
    case CCall(Skip(_)) => false
    case _ => true
  }

  predicate LegalRun(s: Sys, schedule: seq<Step>)
    requires 0 < |s.data| < TWO32
    decreases |schedule|
  {
    schedule == [] || (Legal(s, schedule[0]) && LegalRun(Do(s, schedule[0]), schedule[1..]))
  }

  predicate WholeWrite(call: ProducerCall) {
    call.Write? ==> |call.src| % M.CMD_SIZE == 0
  }

  predicate WholeRead(call: ConsumerCall, known: nat) {
    !call.GetAvailable? ==> call.Read? && call.n % M.CMD_SIZE == 0 && call.n <= known
  }

  predicate ProducerFramed(p: Producer) {
    match p
    case PIdle => true
    case PEntered(call) => WholeWrite(call)
    case PSeenWrite(call, _) => WholeWrite(call)
    case PCopying(src, _, _, _) => |src| % M.CMD_SIZE == 0
  }

  predicate ConsumerFramed(c: Consumer, known: nat) {
    match c
    case CIdle => true
    case CEntered(call) => WholeRead(call, known)
    case CSeenWrite(call, _, seenW) => WholeRead(call, known) && seenW % M.CMD_SIZE == 0
    case CCopying(call, _, _) => WholeRead(call, known)
  }

  predicate Framed(s: Sys) {
    && |s.sent| % M.CMD_SIZE == 0
    && |s.taken| % M.CMD_SIZE == 0
    && s.knownAvailable % M.CMD_SIZE == 0
    && ProducerFramed(s.p)
    && ConsumerFramed(s.c, s.knownAvailable)
    && s.cResult != Empty
  }

  lemma ProducerStepFramed(s: Sys, st: Step)
    requires Inv(s) && Framed(s) && Legal(s, st)
    requires st.PCall? || st.PLoadWrite? || st.PLoadRead? || st.PCopy? || st.PPublish?
    ensures Framed(Do(s, st))
  {
    match st
    case PCall(_) =>
    case PLoadWrite =>
    case PLoadRead =>
    case PCopy(_) =>
    case PPublish =>
      if s.p.PCopying? { M.WholeSum(|s.sent|, |s.p.src|); }
  }

  lemma LoadReadFramed(s: Sys)
    requires Inv(s) && Framed(s) && s.c.CSeenWrite?
    ensures Framed(Do(s, CLoadRead))
  {
    CLoadReadInv(s);
    var available := R.AvailableOf(s.c.w, s.readIndex, |s.data|);
    assert available % M.CMD_SIZE == 0 by { M.WholeSum(s.c.seenW, |s.taken|); }
    if s.c.call.GetAvailable? {
      assert Do(s, CLoadRead) ==
             s.(c := CIdle, cResult := Count(available), knownAvailable := available);
    } else {
      assert Do(s, CLoadRead) == s.(c := CCopying(s.c.call, s.readIndex, map[]));
    }
  }

  lemma PublishFramed(s: Sys)
    requires Inv(s) && Framed(s) && CanFinish(s)
    ensures Framed(Do(s, CPublish))
  {
    var n := Need(s.c.call);
    assert |Delivered(s)| == n;
    M.WholeSum(|s.taken|, n);
    M.WholeSum(s.knownAvailable, n);
  }

  lemma StepFramed(s: Sys, st: Step)
    requires Inv(s) && Framed(s) && Legal(s, st)
    ensures Framed(Do(s, st))
  {
    match st
    case CCall(_) =>
    case CLoadWrite =>
    case CLoadRead => if s.c.CSeenWrite? { LoadReadFramed(s); }
    case CCopy(_) =>
    case CPublish => if CanFinish(s) { PublishFramed(s); }
    case _ => ProducerStepFramed(s, st);
  }

  lemma {:induction false} RunFramed(s: Sys, schedule: seq<Step>)
    requires Inv(s) && Framed(s) && LegalRun(s, schedule)
    ensures Inv(Run(s, schedule)) && Framed(Run(s, schedule))
    decreases |schedule|
  {
    if schedule != [] {
      DoInv(s, schedule[0]);
      StepFramed(s, schedule[0]);
      RunFramed(Do(s, schedule[0]), schedule[1..]);
    }
  }

  // In any run of legal calls, of any length: the commands received are a
  // prefix of the commands sent, both streams are whole commands, and no read
  // has ever returned EMPTY.
  lemma CommandsArriveWholeAndInOrder(data: seq<Byte>, schedule: seq<Step>)
    requires R.RingSize(|data|) && LegalRun(Init(data), schedule)
    ensures var s := Run(Init(data), schedule);
            && |s.sent| % M.CMD_SIZE == 0 && |s.taken| % M.CMD_SIZE == 0
            && M.DecodeAll(s.taken) <= M.DecodeAll(s.sent)
            && M.EncodeAll(M.DecodeAll(s.taken)) == s.taken
            && s.cResult != Empty
  {
    InitInv(data);
    RunFramed(Init(data), schedule);
    var s := Run(Init(data), schedule);
    assert s.sent == s.taken + s.sent[|s.taken|..];
    M.DecodeConcat(s.taken, s.sent[|s.taken|..]);
    M.EncodeDecodeAll(s.taken);
  }

  // 24 does not divide 2^32, so the raw index of a whole number of commands is
  // itself a multiple of 24 exactly until the index has wrapped, and again only
  // every third wrap.
  lemma RawIndexAlignment(W: nat)
    requires W % M.CMD_SIZE == 0
    ensures (W % TWO32) % M.CMD_SIZE == 0 <==> (W / TWO32) % 3 == 0
  {
    var q, r := W / TWO32, W % TWO32;
    assert W == TWO32 * q + r;
    assert TWO32 == 24 * 178956970 + 16;
  }
}
