/**
 Messages from one processor to the other, over every interleaving.

 The writer of `IpcInterleaving` sends messages the way `Serdes.Port.Send` does - one reservation of the
 data length plus six, then the transfers of the message - and the bytes its reader takes are pumped as
 `Serdes.Port.ProtocolPump` pumps them.  Both processors run the code shown here; one direction of the
 link is followed, and whatever an end does in the other direction, its receive callback included, only
 decides when its steps in this one happen.
 */
module SerdesEndToEnd {
  import opened Modular
  import opened Words
  import opened IpcRing
  import opened IpcInterleaving
  import opened Serdes

  // --------------------------------------------------------------------------------------------
  // A whole frame through the pump

  lemma {:induction false} PumpData(r: Rx, target: Word16, got: seq<Byte>, rest: seq<Byte>)
    requires rest != [] && r.phase == Data(target, |rest|, got)
    ensures PumpRun(r, rest) == r.(phase := WaitCrc(target, got + rest))
    decreases |rest|
  {
    var r' := PumpStep(r, rest[0]);
    if |rest| > 1 {
      PumpData(r', target, got + [rest[0]], rest[1..]);
      assert got + [rest[0]] + rest[1..] == got + rest;
    } else {
      assert rest[1..] == [];
      assert got + rest == got + [rest[0]];
    }
  }

  lemma PumpHead(r: Rx, m: Message)
    requires r.phase == WaitHeader && |m.data| <= MAX_PACKET_LEN
    ensures PumpRun(r, Head(m))
         == if m.data == [] then Rx(WaitHeader, r.delivered + [m])
            else r.(phase := Data(m.target, |m.data|, []))
  {
    PumpFour(r, SD_HEADER, m.target / 256, m.target % 256, |m.data|);
  }

  lemma PumpFirst(r: Rx, b: Byte, rest: seq<Byte>)
    ensures PumpRun(r, [b] + rest) == PumpRun(PumpStep(r, b), rest)
  {
    assert ([b] + rest)[1..] == rest;
  }

  lemma PumpFour(r: Rx, a: Byte, b: Byte, c: Byte, d: Byte)
    ensures PumpRun(r, [a, b, c, d]) == PumpStep(PumpStep(PumpStep(PumpStep(r, a), b), c), d)
  {
    hide PumpStep;
    var r1 := PumpStep(r, a);
    var r2 := PumpStep(r1, b);
    var r3 := PumpStep(r2, c);
    assert [a, b, c, d] == [a] + ([b] + ([c] + ([d] + [])));
    PumpFirst(r, a, [b] + ([c] + ([d] + [])));
    PumpFirst(r1, b, [c] + ([d] + []));
    PumpFirst(r2, c, [d] + []);
    PumpFirst(r3, d, []);
  }

  /** A frame is delivered as it was sent, whatever bytes it is made of: the header byte has no special
      meaning once a frame has begun. */
  lemma PumpFrame(r: Rx, m: Message)
    requires r.phase == WaitHeader && |m.data| <= MAX_PACKET_LEN
    ensures PumpRun(r, Frame(m)) == Rx(WaitHeader, r.delivered + [m])
  {
    hide Head;
    hide Sum;
    hide PumpStep;
    PumpHead(r, m);
    if m.data == [] {
      assert Frame(m) == Head(m);
    } else {
      var r1 := r.(phase := Data(m.target, |m.data|, []));
      var sum := Sum(m.data);
      PumpConcat(r, Head(m), m.data + [sum]);
      PumpConcat(r1, m.data, [sum]);
      PumpData(r1, m.target, [], m.data);
      assert [] + m.data == m.data;
      PumpLast(r1.(phase := WaitCrc(m.target, m.data)), m);
    }
  }

  lemma PumpLast(r: Rx, m: Message)
    requires r.phase == WaitCrc(m.target, m.data)
    ensures PumpRun(r, [Sum(m.data)]) == Rx(WaitHeader, r.delivered + [m])
  {
    hide Sum;
    var sum := Sum(m.data);
    assert [sum][1..] == [];
    assert PumpRun(PumpStep(r, sum), []) == PumpStep(r, sum);
  }

  // --------------------------------------------------------------------------------------------
  // What is not delivered

  /** Without a header byte nothing is begun. */
  lemma {:induction false} NoiseIsIgnored(r: Rx, s: seq<Byte>)
    requires r.phase == WaitHeader && SD_HEADER !in s
    ensures PumpRun(r, s) == r
    decreases |s|
  {
    if s != [] {
      NoiseIsIgnored(r, s[1..]);
    }
  }

  /** A length beyond the limit ends the frame at its fourth byte. */
  lemma LongFramesAreDropped(r: Rx, high: Byte, low: Byte, len: Byte)
    requires r.phase == WaitHeader && len > 121
    ensures PumpRun(r, [SD_HEADER, high, low, len]) == r
  {
    PumpFour(r, SD_HEADER, high, low, len);
  }

  /** A body of the right length is delivered if and only if its sum is right. */
  lemma PumpBody(r: Rx, target: Word16, data: seq<Byte>, sum: Byte)
    requires 1 <= |data| && r.phase == Data(target, |data|, [])
    ensures PumpRun(r, data + [sum]) ==
      Rx(WaitHeader, if Sum(data) == sum then r.delivered + [Message(target, data)] else r.delivered)
  {
    hide Sum;
    PumpConcat(r, data, [sum]);
    PumpData(r, target, [], data);
    assert [] + data == data;
    PumpFirst(r.(phase := WaitCrc(target, data)), sum, []);
    assert [sum] + [] == [sum];
  }

  /** A frame of which one byte of the data or of the sum was altered is not delivered, and the pump is ready
      for the next. */
  lemma OneByteDamageIsCaught(r: Rx, m: Message, i: nat, b: Byte)
    requires r.phase == WaitHeader && 1 <= |m.data| <= MAX_PACKET_LEN
    requires 4 <= i < |Frame(m)| && b != Frame(m)[i]
    ensures PumpRun(r, Frame(m)[i := b]) == r
  {
    hide Sum;
    hide Head;
    var n, k, sum := |m.data|, i - 4, Sum(m.data);
    var data, sum' := if k < n then m.data[k := b] else m.data, if k < n then sum else b;
    assert Frame(m)[i := b] == Head(m) + (data + [sum']);
    PumpConcat(r, Head(m), data + [sum']);
    PumpHead(r, m);
    if k < n {
      SumOfChange(m.data, k, b);
    }
    PumpBody(r.(phase := Data(m.target, n, [])), m.target, data, sum');
  }

  /** A ping that there is room to answer is answered by a message of class management, number pong, no
      direction, the sender's sequence number and no data; nothing else is answered. */
  lemma PingIsAnswered(target: nat, sequence: nat, tx: Ring, r: Rx)
    requires InRange(tx) && r.phase == WaitHeader
    ensures
      var reply := PumpRun(r, Reply(target, sequence, tx));
      if Field(target, 14, 2) == 0 && Field(target, 0, 8) == 1 && |Contents(tx)| + 6 < |tx.buf| then
        && reply.phase == WaitHeader && |reply.delivered| == |r.delivered| + 1
        && reply.delivered[..|r.delivered|] == r.delivered
        && var m := reply.delivered[|r.delivered|];
           m.data == [] && GetClass(m.target) == 0 && GetDir(m.target) == 0
           && GetSeq(m.target) == sequence % 8 && GetMsg(m.target) == 2
      else reply == r
  {
    RoomByContents(tx, 6);
    var x := Wire16(Tagged(MSG_PONG, sequence));
    PongFields(sequence);
    hide Contents;
    hide RoomFor;
    hide Field;
    hide Tagged;
    hide Frame;
    PumpFrame(r, Message(x, []));
  }

  lemma PongFields(sequence: nat)
    ensures
      var x := Wire16(Tagged(MSG_PONG, sequence));
      GetClass(x) == 0 && GetDir(x) == 0 && GetSeq(x) == sequence % 8 && GetMsg(x) == 2
  {
    FieldsOfTarget(MSG_PONG);
    FieldsSurvive(MSG_PONG, sequence);
    SequenceArrives(MSG_PONG, sequence);
  }

  // --------------------------------------------------------------------------------------------
  // Streams of frames

  predicate Sendable(m: Message) {
    |m.data| <= MAX_PACKET_LEN
  }

  function Frames(ms: seq<Message>): seq<Byte>
    requires forall m :: m in ms ==> Sendable(m)
  {
    if ms == [] then [] else assert Sendable(ms[0]); Frame(ms[0]) + Frames(ms[1..])
  }

  lemma {:induction false} PumpFrames(r: Rx, ms: seq<Message>)
    requires r.phase == WaitHeader && forall m :: m in ms ==> Sendable(m)
    ensures PumpRun(r, Frames(ms)) == Rx(WaitHeader, r.delivered + ms)
    decreases |ms|
  {
    if ms != [] {
      assert Sendable(ms[0]);
      PumpFrame(r, ms[0]);
      PumpConcat(r, Frame(ms[0]), Frames(ms[1..]));
      PumpFrames(Rx(WaitHeader, r.delivered + [ms[0]]), ms[1..]);
      assert r.delivered + [ms[0]] + ms[1..] == r.delivered + ms;
    }
  }

  /** However much of the stream has arrived, what has been delivered is a prefix of what was sent. */
  lemma PrefixDelivers(r: Rx, ms: seq<Message>, s: seq<Byte>)
    requires r.phase == WaitHeader && forall m :: m in ms ==> Sendable(m)
    requires s <= Frames(ms)
    ensures PumpRun(r, s).delivered <= r.delivered + ms
  {
    var all := Frames(ms);
    assert all == s + all[|s|..];
    PumpConcat(r, s, all[|s|..]);
    PumpOnlyAdds(PumpRun(r, s), all[|s|..]);
    PumpFrames(r, ms);
  }

  lemma {:induction false} FramesConcat(a: seq<Message>, b: seq<Message>)
    requires forall m :: m in a + b ==> Sendable(m)
    requires forall m :: m in a ==> Sendable(m)
    requires forall m :: m in b ==> Sendable(m)
    ensures Frames(a + b) == Frames(a) + Frames(b)
    decreases |a|
  {
    hide Frame;
    if a == [] {
      assert a + b == b;
    } else {
      assert (a + b)[1..] == a[1..] + b;
      FramesConcat(a[1..], b);
    }
  }

  // --------------------------------------------------------------------------------------------
  // The two processors

  /** A sender's own steps beyond those of the ring: a call of the send routine, which only begins when
      no earlier call is still under way. */
  datatype LinkAction = Send(target: nat, data: seq<Byte>) | RingStep(a: Action)

  /** `sent` lists the messages for which the send routine has answered that there was room. */
  datatype LinkSys = LinkSys(sys: Sys, sequence: nat, sent: seq<Message>)

  function LinkStep(l: LinkSys, a: LinkAction): (l': LinkSys)
    requires InRange(l.sys.ring)
    ensures InRange(l'.sys.ring)
  {
    match a
    case RingStep(Begin(_, _)) => l
    case RingStep(b) => l.(sys := Step(l.sys, b))
    case Send(target, data) =>
      if !l.sys.writer.Ready? || |data| > 255 then l
      else
        var m := Message(Wire16(Tagged(target, l.sequence)), data);
        var reserve := |data| + PROTOCOL_OVERHEAD_LENGTH;
        LinkSys(Step(l.sys, Begin(reserve, Transfers(m))), l.sequence + 1,
                if RoomFor(l.sys.ring, reserve) then l.sent + [m] else l.sent)
  }

  function LinkRun(l: LinkSys, actions: seq<LinkAction>): LinkSys
    requires InRange(l.sys.ring)
    decreases |actions|
  {
    if actions == [] then l else LinkRun(LinkStep(l, actions[0]), actions[1..])
  }

  ghost predicate LinkInv(l: LinkSys) {
    && Reserved(l.sys)
    && |l.sys.ring.buf| == IPC_QUEUE_LEN
    && (forall m :: m in l.sent ==> Sendable(m))
    && l.sys.begun == Frames(l.sent)
  }

  lemma CallsAreFrame(m: Message)
    requires |m.data| < 256
    ensures Joined(Transfers(m)) == Frame(m)
    ensures |Joined(Transfers(m))| <= |m.data| + PROTOCOL_OVERHEAD_LENGTH
  {
    hide Sum;
    var target: seq<Byte> := [m.target / 256, m.target % 256];
    var head: seq<seq<Byte>> := [[SD_HEADER], target, [|m.data| as Byte]];
    assert head[1..] == [target, [|m.data| as Byte]];
    assert head[1..][1..] == [[|m.data| as Byte]];
    assert Joined(head[1..][1..]) == [|m.data| as Byte];
    assert Joined(head) == Head(m);
    if m.data != [] {
      var body := [m.data, [Sum(m.data)]];
      assert body[1..] == [[Sum(m.data)]];
      assert Joined(body[1..]) == [Sum(m.data)];
      JoinedConcat(head, body);
    }
  }

  lemma {:induction false} JoinedConcat(a: seq<seq<Byte>>, b: seq<seq<Byte>>)
    ensures Joined(a + b) == Joined(a) + Joined(b)
    decreases |a|
  {
    if a == [] {
      assert a + b == b;
    } else {
      assert (a + b)[1..] == a[1..] + b;
      JoinedConcat(a[1..], b);
    }
  }

  lemma SendKeepsInv(l: LinkSys, target: nat, data: seq<Byte>)
    requires LinkInv(l)
    ensures LinkInv(LinkStep(l, Send(target, data)))
  {
    hide Tagged;
    if l.sys.writer.Ready? && |data| <= 255 {
      var m := Message(Wire16(Tagged(target, l.sequence)), data);
      var reserve := |data| + PROTOCOL_OVERHEAD_LENGTH;
      CallsAreFrame(m);
      StepKeepsReserved(l.sys, Begin(reserve, Transfers(m)));
      RoomOfHistory(l.sys, reserve);
      if RoomFor(l.sys.ring, reserve) {
        assert Sendable(m);
        FramesConcat(l.sent, [m]);
        assert [m][1..] == [];
        assert Frames([m]) == Frame(m) + Frames([]);
      }
    }
  }

  lemma RingStepKeepsInv(l: LinkSys, a: Action)
    requires LinkInv(l) && !a.Begin?
    ensures LinkInv(LinkStep(l, RingStep(a)))
  {
    StepKeepsReserved(l.sys, a);
    StepKeepsBegun(l.sys, a);
  }

  lemma StepKeepsBegun(s: Sys, a: Action)
    requires InRange(s.ring) && !a.Begin?
    ensures Step(s, a).begun == s.begun && |Step(s, a).ring.buf| == |s.ring.buf|
  {
  }

  lemma {:induction false} LinkRunKeepsInv(l: LinkSys, actions: seq<LinkAction>)
    requires LinkInv(l)
    ensures LinkInv(LinkRun(l, actions))
    decreases |actions|
  {
    hide LinkInv;
    if actions != [] {
      assert InRange(l.sys.ring) by { InvInRange(l); }
      match actions[0] {
        case Send(target, data) => SendKeepsInv(l, target, data);
        case RingStep(a) =>
          if !a.Begin? {
            RingStepKeepsInv(l, a);
          }
      }
      LinkRunKeepsInv(LinkStep(l, actions[0]), actions[1..]);
    }
  }

  lemma InvInRange(l: LinkSys)
    requires LinkInv(l)
    ensures InRange(l.sys.ring)
  {
  }

  /** End to end: over every run of sends, stores, publications, polls, loads and advances that starts
      with an empty ring of 128 bytes and a synchronised pump, the messages delivered are a prefix of the
      messages that the send routine accepted - and once the writer is done and the ring is empty,
      they are all of them. */
  lemma DeliveredIsPrefixOfSent(l: LinkSys, r: Rx, actions: seq<LinkAction>)
    requires Initial(l.sys) && |l.sys.ring.buf| == IPC_QUEUE_LEN && l.sent == []
    requires r == Rx(WaitHeader, [])
    ensures
      var l' := LinkRun(l, actions);
      && PumpRun(r, l'.sys.taken).delivered <= l'.sent
      && (l'.sys.writer.Ready? && l'.sys.ring.rp == l'.sys.ring.wp
          ==> PumpRun(r, l'.sys.taken).delivered == l'.sent)
  {
    LinkRunKeepsInv(l, actions);
    var l' := LinkRun(l, actions);
    PrefixDelivers(r, l'.sent, l'.sys.taken);
    assert r.delivered + l'.sent == l'.sent;
    if l'.sys.writer.Ready? && l'.sys.ring.rp == l'.sys.ring.wp {
      CountOfHistory(l'.sys);
      assert l'.sys.taken == l'.sys.published == Frames(l'.sent);
      PumpFrames(r, l'.sent);
    }
  }

  /** The sender's reservation and the receiver's length check have the same limit: an empty ring admits
      exactly the lengths that the pump accepts, 0 to 121. */
  lemma LimitsMeet(ring: Ring, len: Byte, r: Rx, target: Word16)
    requires InRange(ring) && |ring.buf| == IPC_QUEUE_LEN && ring.rp == ring.wp
    requires r.phase == WaitLen(target)
    ensures RoomFor(ring, len + PROTOCOL_OVERHEAD_LENGTH) <==> len <= MAX_PACKET_LEN == 121
    ensures PumpStep(r, len) != r.(phase := WaitHeader) <==> len <= MAX_PACKET_LEN
  {
    ModUnique(|ring.buf|, |ring.buf|, 1, 0);
  }
}
