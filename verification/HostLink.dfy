/**
 The host's end of the LMS serial link.

 The host's receiver was written independently of the vehicle's, and is compared with it here: where
 the two agree they agree byte for byte, and the one place where they do not - the handling of the
 length field - is pinned down exactly.  Bytes written to a Python bytearray must fit a byte; a value
 that does not raises an exception, modelled by `None`.
 */
module HostLink {
  import opened Words
  import opened Crc16
  import opened LmsMsg
  import opened Options
  import LmsStream

  /** The host keeps no count of timeouts or of rejected contents. */
  datatype HostState = HostState(phase: Phase, duffSTX: nat, badPkt: nat, goodPkt: nat, delivered: seq<seq<Byte>>)

  function HostStep(h: HostState, b: Byte): HostState {
    var duff := h.(phase := Idle, duffSTX := h.duffSTX + 1);
    var bad := h.(phase := Idle, badPkt := h.badPkt + 1);
    match h.phase
    case Idle => if b == STX_H then h.(phase := Stx) else duff
    case Stx => if b == STX_L then h.(phase := Version) else duff
    case Version => if b == VERSION then h.(phase := Length) else bad
    case Length => h.(phase := Body(b, []))
    case Body(need, got) =>
      h.(phase := if need == 1 then SumHigh(got + [b]) else Body(need - 1, got + [b]))
    case SumHigh(got) => h.(phase := SumLow(got, b))
    case SumLow(got, high) =>
      if Crc(got) == Join(high, b)
      then HostState(Idle, h.duffSTX, h.badPkt, h.goodPkt + 1, h.delivered + [got])
      else bad
  }

  function HostRun(h: HostState, s: seq<Byte>): HostState
    decreases |s|
  {
    if s == [] then h else HostRun(HostStep(h, s[0]), s[1..])
  }

  // --------------------------------------------------------------------------------------------
  // Two receivers, one language

  predicate Agree(l: LinkState, h: HostState) {
    && l.phase == h.phase
    && l.stats.duffSTX == h.duffSTX
    && l.stats.badPkt == h.badPkt
    && l.stats.goodPkt == h.goodPkt
    && l.delivered == h.delivered
  }

  /** The two receivers take a byte alike exactly when it is not a length field outside 1..64. */
  lemma StepsAgree(l: LinkState, h: HostState, b: Byte, verdicts: Verdicts)
    requires Agree(l, h)
    ensures Agree(Step(l, b, verdicts), HostStep(h, b))
        <==> (l.phase.Length? ==> 1 <= b <= LMS_MAX_PACKET_LEN)
  {
    hide Crc;
  }

  /** Every length field that the stream presents is one the vehicle accepts. */
  predicate LengthsInRange(l: LinkState, s: seq<Byte>, verdicts: Verdicts)
    decreases |s|
  {
    s == [] ||
    ((l.phase.Length? ==> 1 <= s[0] <= LMS_MAX_PACKET_LEN)
     && LengthsInRange(Step(l, s[0], verdicts), s[1..], verdicts))
  }

  /** Lock-step: the receivers agree after every byte of a stream exactly when the stream has no length
      field outside 1..64. */
  lemma {:induction false} LockStep(l: LinkState, h: HostState, s: seq<Byte>, verdicts: Verdicts)
    requires Agree(l, h)
    ensures LengthsInRange(l, s, verdicts)
        <==> forall n :: 0 <= n <= |s| ==> Agree(RunBytes(l, s[..n], verdicts), HostRun(h, s[..n]))
    decreases |s|
  {
    hide Crc;
    if s == [] {
      assert forall n :: 0 <= n <= |s| ==> s[..n] == [];
    } else {
      var b, rest := s[0], s[1..];
      var l', h' := Step(l, b, verdicts), HostStep(h, b);
      StepsAgree(l, h, b, verdicts);
      PrefixesAfterStep(l, h, s, verdicts);
      if Agree(l', h') {
        LockStep(l', h', rest, verdicts);
      } else {
        assert !Agree(RunBytes(l', rest[..0], verdicts), HostRun(h', rest[..0]));
      }
    }
  }

  /** Agreement after every prefix of s is agreement after every prefix of its tail, one step on. */
  lemma PrefixesAfterStep(l: LinkState, h: HostState, s: seq<Byte>, verdicts: Verdicts)
    requires Agree(l, h) && s != []
    ensures
      var l', h' := Step(l, s[0], verdicts), HostStep(h, s[0]);
      (forall n :: 0 <= n <= |s| ==> Agree(RunBytes(l, s[..n], verdicts), HostRun(h, s[..n])))
      <==>
      (forall n :: 0 <= n <= |s[1..]| ==> Agree(RunBytes(l', s[1..][..n], verdicts), HostRun(h', s[1..][..n])))
  {
    hide Crc;
    hide Step;
    hide HostStep;
    var l', h', rest := Step(l, s[0], verdicts), HostStep(h, s[0]), s[1..];
    forall n | 0 <= n <= |rest|
      ensures RunBytes(l, s[..n + 1], verdicts) == RunBytes(l', rest[..n], verdicts)
      ensures HostRun(h, s[..n + 1]) == HostRun(h', rest[..n])
    {
      assert s[..n + 1][1..] == rest[..n];
    }
    assert s[..0] == [];
    if forall n :: 0 <= n <= |s| ==> Agree(RunBytes(l, s[..n], verdicts), HostRun(h, s[..n])) {
      forall n | 0 <= n <= |rest|
        ensures Agree(RunBytes(l', rest[..n], verdicts), HostRun(h', rest[..n]))
      {
        assert Agree(RunBytes(l, s[..n + 1], verdicts), HostRun(h, s[..n + 1]));
      }
    }
    if forall n :: 0 <= n <= |rest| ==> Agree(RunBytes(l', rest[..n], verdicts), HostRun(h', rest[..n])) {
      forall n | 0 <= n <= |s|
        ensures Agree(RunBytes(l, s[..n], verdicts), HostRun(h, s[..n]))
      {
        if n > 0 {
          assert Agree(RunBytes(l', rest[..n - 1], verdicts), HostRun(h', rest[..n - 1]));
          assert s[..n - 1 + 1] == s[..n];
        }
      }
    }
  }

  /** What the missing check costs: after a frame of length zero the host collects for ever, whatever
      it is sent.  Its countdown has passed zero and is only compared with zero for equality. */
  lemma {:induction false} ZeroLengthIsATrap(h: HostState, s: seq<Byte>)
    requires h.phase.Body? && h.phase.need <= 0
    ensures HostRun(h, s) == h.(phase := Body(h.phase.need - |s|, h.phase.got + s))
    decreases |s|
  {
    hide Crc;
    if s == [] {
      assert h.phase.got + s == h.phase.got;
    } else {
      var h' := HostStep(h, s[0]);
      ZeroLengthIsATrap(h', s[1..]);
      assert h.phase.got + [s[0]] + s[1..] == h.phase.got + s;
    }
  }

  lemma {:induction false} HostRunConcat(h: HostState, a: seq<Byte>, b: seq<Byte>)
    ensures HostRun(h, a + b) == HostRun(HostRun(h, a), b)
    decreases |a|
  {
    if a == [] {
      assert a + b == b;
    } else {
      assert (a + b)[1..] == a[1..] + b;
      HostRunConcat(HostStep(h, a[0]), a[1..], b);
    }
  }

  lemma HostRunFirst(h: HostState, b: Byte, rest: seq<Byte>)
    ensures HostRun(h, [b] + rest) == HostRun(HostStep(h, b), rest)
  {
    assert ([b] + rest)[1..] == rest;
  }

  lemma HostRunFour(h: HostState, a: Byte, b: Byte, c: Byte, d: Byte)
    ensures HostRun(h, [a, b, c, d]) == HostStep(HostStep(HostStep(HostStep(h, a), b), c), d)
  {
    hide HostStep;
    var h1 := HostStep(h, a);
    var h2 := HostStep(h1, b);
    var h3 := HostStep(h2, c);
    assert [a, b, c, d] == [a] + ([b] + ([c] + ([d] + [])));
    HostRunFirst(h, a, [b] + ([c] + ([d] + [])));
    HostRunFirst(h1, b, [c] + ([d] + []));
    HostRunFirst(h2, c, [d] + []);
    HostRunFirst(h3, d, []);
  }

  lemma HostRunHeader(h: HostState, len: Byte)
    requires h.phase == Idle
    ensures HostRun(h, Header(len)) == h.(phase := Body(len, []))
  {
    hide Crc;
    HostRunFour(h, STX_H, STX_L, VERSION, len);
  }

  lemma ZeroLengthFrame(h: HostState, s: seq<Byte>)
    requires h.phase == Idle
    ensures HostRun(h, Header(0) + s).phase == Body(-|s|, s)
  {
    HostRunConcat(h, Header(0), s);
    HostRunHeader(h, 0);
    ZeroLengthIsATrap(h.(phase := Body(0, [])), s);
    assert [] + s == s;
  }

  // --------------------------------------------------------------------------------------------
  // The host's own code

  class Vehicle {
    var rxState: RxState
    var rxingLen: int
    var packet: seq<Byte>
    var packetCrc: nat
    var duffSTX: nat
    var badPkt: nat
    var goodPkt: nat
    ghost var delivered: seq<seq<Byte>>

    ghost predicate Valid()
      reads this
    {
      rxState == RX_GETCHECKSUML ==> packetCrc < 0x1_0000 && packetCrc % 256 == 0
    }

    ghost function CurrentPhase(): Phase
      reads this
      requires Valid()
    {
      match rxState
      case RX_IDLE => Idle
      case RX_STX_L => Stx
      case RX_VERSION => Version
      case RX_GETLEN => Length
      case RX_GETPACKET => Body(rxingLen, packet)
      case RX_GETCHECKSUMH => SumHigh(packet)
      case RX_GETCHECKSUML => SumLow(packet, packetCrc / 256)
    }

    ghost function Abs(): HostState
      reads this
      requires Valid()
    {
      HostState(CurrentPhase(), duffSTX, badPkt, goodPkt, delivered)
    }

    constructor ()
      ensures Valid() && Abs() == HostState(Idle, 0, 0, 0, [])
    {
      rxState := RX_IDLE;
      rxingLen, packet, packetCrc := 0, [], 0;
      duffSTX, badPkt, goodPkt, delivered := 0, 0, 0, [];
    }

    method RxHandleIdle(j: Byte)
      requires Valid() && rxState == RX_IDLE
      modifies this
      ensures Valid() && Abs() == HostStep(old(Abs()), j)
    {
      if STX_H != j {
        duffSTX := duffSTX + 1;
      } else {
        rxState := RX_STX_L;
      }
    }

    method RxHandleSTXL(j: Byte)
      requires Valid() && rxState == RX_STX_L
      modifies this
      ensures Valid() && Abs() == HostStep(old(Abs()), j)
    {
      if STX_L != j {
        duffSTX := duffSTX + 1;
        rxState := RX_IDLE;
      } else {
        rxState := RX_VERSION;
      }
    }

    method RxHandleVersion(j: Byte)
      requires Valid() && rxState == RX_VERSION
      modifies this
      ensures Valid() && Abs() == HostStep(old(Abs()), j)
    {
      if VERSION != j {
        badPkt := badPkt + 1;
        rxState := RX_IDLE;
      } else {
        rxState := RX_GETLEN;
      }
    }

    method RxHandleGetlen(j: Byte)
      requires Valid() && rxState == RX_GETLEN
      modifies this
      ensures Valid() && Abs() == HostStep(old(Abs()), j)
    {
      rxingLen := j;
      packet := [];
      packetCrc := 0;
      rxState := RX_GETPACKET;
    }

    method RxHandleGetpacket(j: Byte)
      requires Valid() && rxState == RX_GETPACKET
      modifies this
      ensures Valid() && Abs() == HostStep(old(Abs()), j)
    {
      packet := packet + [j];
      rxingLen := rxingLen - 1;
      if rxingLen == 0 {
        rxState := RX_GETCHECKSUMH;
      }
    }

    method RxHandleGetChecksumH(j: Byte)
      requires Valid() && rxState == RX_GETCHECKSUMH
      modifies this
      ensures Valid() && Abs() == HostStep(old(Abs()), j)
    {
      packetCrc := j * 256;
      rxState := RX_GETCHECKSUML;
    }

    method RxHandleGetChecksumL(j: Byte)
      requires Valid() && rxState == RX_GETCHECKSUML
      modifies this
      ensures Valid() && Abs() == HostStep(old(Abs()), j)
    {
      hide Crc;
      OrIntoChecksum(packetCrc, j);
      packetCrc := Or(packetCrc, j);
      var crc := PyCrc16(packet);
      RegisterInjective(crc, packetCrc);
      if crc != packetCrc {
        badPkt := badPkt + 1;
      } else {
        goodPkt := goodPkt + 1;
        ParsePacket();
      }
      rxState := RX_IDLE;
    }

    /** The parser of complete packets trims the six header bytes off the packet in place; what it makes
        of the rest is not part of this model. */
    method ParsePacket()
      modifies `packet, `delivered
      ensures delivered == old(delivered) + [old(packet)]
      ensures packet == if |old(packet)| < 6 then [] else old(packet)[6..]
    {
      delivered := delivered + [packet];
      packet := if |packet| < 6 then [] else packet[6..];
    }

    /** The read loop, with the dispatch on the state. */
    method DoRead(waiting: seq<Byte>)
      requires Valid()
      modifies this
      ensures Valid() && Abs() == HostRun(old(Abs()), waiting)
    {
      hide HostStep;
      var i := 0;
      assert waiting[0..] == waiting;
      while i < |waiting|
        invariant 0 <= i <= |waiting| && Valid()
        invariant HostRun(Abs(), waiting[i..]) == HostRun(old(Abs()), waiting)
      {
        assert waiting[i..][1..] == waiting[i + 1..];
        var j := waiting[i];
        match rxState {
          case RX_IDLE => RxHandleIdle(j);
          case RX_STX_L => RxHandleSTXL(j);
          case RX_VERSION => RxHandleVersion(j);
          case RX_GETLEN => RxHandleGetlen(j);
          case RX_GETPACKET => RxHandleGetpacket(j);
          case RX_GETCHECKSUMH => RxHandleGetChecksumH(j);
          case RX_GETCHECKSUML => RxHandleGetChecksumL(j);
        }
        i := i + 1;
      }
    }
  }

  // --------------------------------------------------------------------------------------------
  // Commands

  /** The payload of a command: type, identifier, a four-byte time stamp and the command's own bytes. */
  function CommandPayload(sensorType: Byte, sensorID: Byte, ts: nat, cmdSeq: seq<Byte>): (r: seq<Byte>)
    ensures |r| == |cmdSeq| + 6
  {
    [sensorType, sensorID, ts / 0x100_0000 % 256, ts / 0x1_0000 % 256, ts / 256 % 256, ts % 256] + cmdSeq
  }

  method SendCmd(sensorType: Byte, sensorID: Byte, cmdSeq: seq<Byte>, ts: nat) returns (r: Option<seq<Byte>>)
    ensures r.Some? <==> |cmdSeq| + 6 < 256
    ensures r.Some? ==> r.value == Frame(CommandPayload(sensorType, sensorID, ts, cmdSeq))
  {
    hide Crc;
    var b: seq<Byte> := [0x7E, 0x8E, VERSION];
    if |cmdSeq| + 6 >= 256 {
      return None;
    }
    b := b + [|cmdSeq| + 6];
    b := b + [sensorType, sensorID, ts / 0x100_0000 % 256, ts / 0x1_0000 % 256, ts / 256 % 256, ts % 256];
    b := b + cmdSeq;
    ghost var payload := CommandPayload(sensorType, sensorID, ts, cmdSeq);
    assert b[4..] == payload;
    assert b == Header(|payload|) + payload;
    var crc := PyCrc16(b[4..]);
    FooterOfRegister(crc);
    b := b + [crc / 256 % 256, crc % 256];
    r := Some(b);
  }

  /** Every command of at most 58 bytes is accepted and delivered whole by the vehicle. */
  lemma CommandsAreAccepted(l: LinkState, sensorType: Byte, sensorID: Byte, ts: nat, cmdSeq: seq<Byte>, verdicts: Verdicts)
    requires l.phase == Idle && |cmdSeq| <= 58
    ensures
      var payload := CommandPayload(sensorType, sensorID, ts, cmdSeq);
      RunBytes(l, Frame(payload), verdicts) == Accept(l, payload, verdicts)
  {
    LmsStream.FramesRoundTrip(l, CommandPayload(sensorType, sensorID, ts, cmdSeq), verdicts);
  }

  /** ... and one of 59 or more that can be sent at all is not: the vehicle counts a bad packet at its
      length byte. */
  lemma LongCommandsAreRefused(l: LinkState, payload: seq<Byte>, verdicts: Verdicts)
    requires l.phase == Idle && LMS_MAX_PACKET_LEN < |payload| < 256
    ensures RunBytes(l, Header(|payload|), verdicts)
         == l.(stats := l.stats.(badPkt := l.stats.badPkt + 1))
  {
    hide Crc;
    RunFour(l, STX_H, STX_L, VERSION, |payload|, verdicts);
  }
}
