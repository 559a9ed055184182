// What Core 0 sends while Core 1 runs: packets of commands, each of which finds
// room in the ring and goes in whole, or is refused and leaves no trace.

module Feed {
  import opened ByteWords
  import opened MotorCommand
  import Memory

  type Packet = s: seq<Cmd> | |s| <= NUM_MOTORS

  // cs is the contents of some of the packets, in their order, each whole
  predicate SomeOf(packets: seq<Packet>, cs: seq<Cmd>)
    decreases |packets|, 0
  {
    if packets == [] then cs == []
    else
      var n := |packets| - 1;
      SomeOf(packets[..n], cs) || EndsWith(packets[..n], packets[n], cs)
  }

  predicate EndsWith(packets: seq<Packet>, last: Packet, cs: seq<Cmd>)
    decreases |packets|, 1
  {
    |last| <= |cs| && cs[|cs| - |last|..] == last && SomeOf(packets, cs[..|cs| - |last|])
  }

  lemma {:induction false} NoneOf(packets: seq<Packet>)
    ensures SomeOf(packets, [])
    decreases |packets|
  {
    if packets != [] { NoneOf(packets[..|packets| - 1]); }
  }

  lemma OneMore(packets: seq<Packet>, cs: seq<Cmd>, packet: Packet)
    requires SomeOf(packets, cs)
    ensures SomeOf(packets + [packet], cs) && SomeOf(packets + [packet], cs + packet)
  {
    var all := packets + [packet];
    assert all[..|all| - 1] == packets;
    Memory.Halves(cs, packet);
    assert EndsWith(packets, packet, cs + packet);
  }

  lemma {:induction false} SomeOfBoth(a: seq<Packet>, b: seq<Packet>, x: seq<Cmd>, y: seq<Cmd>)
    requires SomeOf(a, x) && SomeOf(b, y)
    ensures SomeOf(a + b, x + y)
    decreases |b|
  {
    if b == [] {
      assert a + b == a && x + y == x;
    } else {
      var n := |b| - 1;
      var last := b[n];
      assert a + b == a + b[..n] + [last];
      if SomeOf(b[..n], y) {
        SomeOfBoth(a, b[..n], x, y);
        OneMore(a + b[..n], x + y, last);
      } else {
        var rest := y[..|y| - |last|];
        SomeOfBoth(a, b[..n], x, rest);
        OneMore(a + b[..n], x + rest, last);
        assert x + rest + last == x + y;
      }
    }
  }

  // A command none of the packets holds is not among what was taken of them
  lemma {:induction false} HeldBySome(packets: seq<Packet>, cs: seq<Cmd>, j: nat)
    requires SomeOf(packets, cs) && j < |cs|
    ensures exists packet | packet in packets :: cs[j] in packet
    decreases |packets|
  {
    var n := |packets| - 1;
    var last := packets[n];
    if SomeOf(packets[..n], cs) {
      HeldBySome(packets[..n], cs, j);
    } else if j < |cs| - |last| {
      HeldBySome(packets[..n], cs[..|cs| - |last|], j);
    } else {
      assert last[j - (|cs| - |last|)] == cs[j] && last in packets;
    }
  }

  // ---------- in bytes ----------

  // The stream grew by some of the packets
  ghost predicate Sends(packets: seq<Packet>, before: seq<Byte>, after: seq<Byte>) {
    exists cs: seq<Cmd> :: SomeOf(packets, cs) && after == before + EncodeAll(cs)
  }

  lemma SendsNone(packets: seq<Packet>, b: seq<Byte>)
    ensures Sends(packets, b, b)
  {
    NoneOf(packets);
    assert b == b + EncodeAll([]);
  }

  lemma SendsOne(packet: Packet, before: seq<Byte>, after: seq<Byte>)
    requires after == before || after == before + EncodeAll(packet)
    ensures Sends([packet], before, after)
  {
    if after == before {
      SendsNone([packet], before);
    } else {
      OneMore([], [], packet);
      assert [] + [packet] == [packet] && [] + packet == packet;
    }
  }

  lemma {:induction false} SendsBoth(
    a: seq<Packet>, b: seq<Packet>, before: seq<Byte>, between: seq<Byte>, after: seq<Byte>)
    requires Sends(a, before, between) && Sends(b, between, after)
    ensures Sends(a + b, before, after)
  {
    var x :| SomeOf(a, x) && between == before + EncodeAll(x);
    var y :| SomeOf(b, y) && after == between + EncodeAll(y);
    SomeOfBoth(a, b, x, y);
    EncodeConcat(x, y);
    Memory.Associative(before, EncodeAll(x), EncodeAll(y));
  }

  // ---------- what is read of it ----------

  // The first of what some of the packets hold
  ghost predicate From(packets: seq<Packet>, later: seq<Cmd>) {
    exists cs: seq<Cmd> :: SomeOf(packets, cs) && later <= cs
  }

  lemma {:induction false} ReadIsFrom(packets: seq<Packet>, before: seq<Byte>, read: seq<Byte>, after: seq<Byte>)
    requires Sends(packets, before, after) && before <= read <= after
    requires |before| % CMD_SIZE == 0 && |read| % CMD_SIZE == 0
    ensures From(packets, DecodeAll(read[|before|..]))
  {
    var cs :| SomeOf(packets, cs) && after == before + EncodeAll(cs);
    WholeSum(|read|, |before|);
    TailOfPrefix(before, read, EncodeAll(cs));
    ReadIsPrefix(cs, read[|before|..]);
  }

  lemma TailOfPrefix(before: seq<Byte>, read: seq<Byte>, more: seq<Byte>)
    requires before <= read <= before + more
    ensures read[|before|..] <= more
  {
    assert read == (before + more)[..|read|];
    assert read[|before|..] == more[..|read| - |before|];
  }

  // No command for a motor is in any of the packets, so none is read
  predicate Spares(packets: seq<Packet>, id: Byte) {
    forall packet | packet in packets :: forall cmd | cmd in packet :: cmd.motorId != id
  }

  lemma {:induction false} SparedIsNotRead(packets: seq<Packet>, later: seq<Cmd>, id: Byte)
    requires Spares(packets, id) && From(packets, later)
    ensures forall j | 0 <= j < |later| :: later[j].motorId != id
  {
    var cs :| SomeOf(packets, cs) && later <= cs;
    forall j: nat | j < |later| ensures later[j].motorId != id {
      HeldBySome(packets, cs, j);
      assert later[j] == cs[j];
    }
  }

  // ---------- in the gaps of the drain loop ----------

  // What Core 0 sends in gap g of a cycle
  function Gap(feed: seq<seq<Packet>>, g: nat): (packets: seq<Packet>) {
    if g < |feed| then feed[g] else []
  }

  function UpTo(feed: seq<seq<Packet>>, g: nat): seq<Packet> {
    if g == 0 then [] else UpTo(feed, g - 1) + Gap(feed, g - 1)
  }

  function All(feed: seq<seq<Packet>>): seq<Packet> { UpTo(feed, |feed|) }

  lemma SendsTwoGaps(feed: seq<seq<Packet>>, g: nat, before: seq<Byte>, between: seq<Byte>, after: seq<Byte>)
    requires Sends(UpTo(feed, g), before, between)
    requires Sends(Gap(feed, g) + Gap(feed, g + 1), between, after)
    ensures Sends(UpTo(feed, g + 2), before, after)
  {
    SendsBoth(UpTo(feed, g), Gap(feed, g) + Gap(feed, g + 1), before, between, after);
    Memory.Associative(UpTo(feed, g), Gap(feed, g), Gap(feed, g + 1));
    assert UpTo(feed, g + 2) == UpTo(feed, g + 1) + Gap(feed, g + 1);
  }

  // However many gaps there were, what was sent is some of the whole feed
  lemma {:induction false} SendsAll(feed: seq<seq<Packet>>, g: nat, before: seq<Byte>, after: seq<Byte>)
    requires Sends(UpTo(feed, g), before, after)
    ensures Sends(All(feed), before, after)
    decreases if g < |feed| then |feed| - g else g - |feed|
  {
    if g < |feed| {
      SendsNone(Gap(feed, g), after);
      SendsBoth(UpTo(feed, g), Gap(feed, g), before, after, after);
      SendsAll(feed, g + 1, before, after);
    } else if g > |feed| {
      assert UpTo(feed, g) == UpTo(feed, g - 1);
      SendsAll(feed, g - 1, before, after);
    }
  }

  // ---------- a quiet Core 0 ----------

  predicate Silent(packets: seq<Packet>) {
    forall packet | packet in packets :: packet == []
  }

  lemma {:induction false} SilentIsNothing(packets: seq<Packet>, cs: seq<Cmd>)
    requires Silent(packets) && SomeOf(packets, cs)
    ensures cs == []
  {
    if cs != [] { HeldBySome(packets, cs, 0); }
  }

  lemma {:induction false} SilentIsNotRead(packets: seq<Packet>, later: seq<Cmd>)
    requires Silent(packets) && From(packets, later)
    ensures later == []
  {
    var cs :| SomeOf(packets, cs) && later <= cs;
    SilentIsNothing(packets, cs);
  }

  lemma {:induction false} SilentSends(packets: seq<Packet>, before: seq<Byte>, after: seq<Byte>)
    requires Silent(packets) && Sends(packets, before, after)
    ensures after == before
  {
    var cs :| SomeOf(packets, cs) && after == before + EncodeAll(cs);
    SilentIsNothing(packets, cs);
  }
}
