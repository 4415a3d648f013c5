/**
 The packet layer of the LMS serial link on the vehicle.

 `LinkState` is the receiver as its protocol sees it: the phase of the frame being received, the counters,
 and the packets handed up so far.  Class `Receiver` is the receiver as the firmware keeps it - a
 state, a length, a countdown, a write position in a fixed buffer - and every method of it is tied to
 `LinkState` by the abstraction function `Receiver.Abs`.
 */
module LmsMsg {
  import opened Words
  import opened Crc16

  const STX_H: Byte := 0x7E
  const STX_L: Byte := 0x8E
  const VERSION: Byte := 0x01
  const LMS_MAX_PACKET_LEN := 64

  /** `need` is how many payload bytes are still missing, `got` the ones received. */
  datatype Phase =
    | Idle
    | Stx
    | Version
    | Length
    | Body(need: int, got: seq<Byte>)
    | SumHigh(got: seq<Byte>)
    | SumLow(got: seq<Byte>, high: Byte)

  datatype Stats = Stats(duffSTX: nat, goodPkt: nat, badPkt: nat, toPkt: nat, badContent: nat)

  datatype LinkState = LinkState(phase: Phase, stats: Stats, delivered: seq<seq<Byte>>)

  /** What the message decoder upstairs answers, packet by packet. */
  type Verdicts = nat -> bool

  // --------------------------------------------------------------------------------------------
  // The protocol

  function Step(l: LinkState, b: Byte, verdicts: Verdicts): LinkState {
    var duff := l.(phase := Idle, stats := l.stats.(duffSTX := l.stats.duffSTX + 1));
    var bad := l.(phase := Idle, stats := l.stats.(badPkt := l.stats.badPkt + 1));
    match l.phase
    case Idle => if b == STX_H then l.(phase := Stx) else duff
    case Stx => if b == STX_L then l.(phase := Version) else duff
    case Version => if b == VERSION then l.(phase := Length) else bad
    case Length => if 1 <= b <= LMS_MAX_PACKET_LEN then l.(phase := Body(b, [])) else bad
    case Body(need, got) =>
      l.(phase := if need == 1 then SumHigh(got + [b]) else Body(need - 1, got + [b]))
    case SumHigh(got) => l.(phase := SumLow(got, b))
    case SumLow(got, high) => if Crc(got) == Join(high, b) then Accept(l, got, verdicts) else bad
  }

  /** A packet that passed its checksum: it is counted and handed up, and counted again when the
      decoder does not like its contents. */
  function Accept(l: LinkState, packet: seq<Byte>, verdicts: Verdicts): LinkState {
    var rejected := if verdicts(l.stats.goodPkt) then 0 else 1;
    LinkState(Idle,
         l.stats.(goodPkt := l.stats.goodPkt + 1, badContent := l.stats.badContent + rejected),
         l.delivered + [packet])
  }

  function RunBytes(l: LinkState, s: seq<Byte>, verdicts: Verdicts): LinkState
    decreases |s|
  {
    if s == [] then l else RunBytes(Step(l, s[0], verdicts), s[1..], verdicts)
  }

  lemma {:induction false} RunBytesConcat(l: LinkState, a: seq<Byte>, b: seq<Byte>, verdicts: Verdicts)
    ensures RunBytes(l, a + b, verdicts) == RunBytes(RunBytes(l, a, verdicts), b, verdicts)
    decreases |a|
  {
    if a == [] {
      assert a + b == b;
    } else {
      assert (a + b)[1..] == a[1..] + b;
      RunBytesConcat(Step(l, a[0], verdicts), a[1..], b, verdicts);
    }
  }

  lemma RunFirst(l: LinkState, b: Byte, rest: seq<Byte>, verdicts: Verdicts)
    ensures RunBytes(l, [b] + rest, verdicts) == RunBytes(Step(l, b, verdicts), rest, verdicts)
  {
    assert ([b] + rest)[1..] == rest;
  }

  lemma RunFour(l: LinkState, a: Byte, b: Byte, c: Byte, d: Byte, verdicts: Verdicts)
    ensures RunBytes(l, [a, b, c, d], verdicts)
         == Step(Step(Step(Step(l, a, verdicts), b, verdicts), c, verdicts), d, verdicts)
  {
    hide Step;
    var l1 := Step(l, a, verdicts);
    var l2 := Step(l1, b, verdicts);
    var l3 := Step(l2, c, verdicts);
    assert [a, b, c, d] == [a] + ([b] + ([c] + ([d] + [])));
    RunFirst(l, a, [b] + ([c] + ([d] + [])), verdicts);
    RunFirst(l1, b, [c] + ([d] + []), verdicts);
    RunFirst(l2, c, [d] + [], verdicts);
    RunFirst(l3, d, [], verdicts);
  }

  // --------------------------------------------------------------------------------------------
  // Runs with timeouts

  /** What can happen to the receiver: a byte, or the expiry of its timer.  A timer that is not running
      cannot expire. */
  datatype Event = Rx(b: Byte) | Timeout

  function StepEvent(l: LinkState, e: Event, verdicts: Verdicts): LinkState {
    match e
    case Rx(b) => Step(l, b, verdicts)
    case Timeout =>
      if l.phase.Idle? then l else l.(phase := Idle, stats := l.stats.(toPkt := l.stats.toPkt + 1))
  }

  function Run(l: LinkState, events: seq<Event>, verdicts: Verdicts): LinkState
    decreases |events|
  {
    if events == [] then l else Run(StepEvent(l, events[0], verdicts), events[1..], verdicts)
  }

  /** How many bytes of a run arrive while the receiver waits for a frame to begin. */
  function IdleBytes(l: LinkState, events: seq<Event>, verdicts: Verdicts): nat
    decreases |events|
  {
    if events == [] then 0
    else
      (if events[0].Rx? && l.phase.Idle? then 1 else 0)
      + IdleBytes(StepEvent(l, events[0], verdicts), events[1..], verdicts)
  }

  /** Everything that the frames begun so far have come to, the frame in progress included. */
  function Outcomes(l: LinkState): nat {
    l.stats.duffSTX + l.stats.badPkt + l.stats.goodPkt + l.stats.toPkt + (if l.phase.Idle? then 0 else 1)
  }

  /** No byte that might begin a frame is lost from the books: over every run, timeouts included, each
      byte handled while idle is a false start, a bad packet, a good packet, a timed-out packet, or
      the packet still in progress - and nothing else is. */
  lemma {:induction false} EveryStartIsAccountedFor(l: LinkState, events: seq<Event>, verdicts: Verdicts)
    ensures Outcomes(Run(l, events, verdicts)) == Outcomes(l) + IdleBytes(l, events, verdicts)
    decreases |events|
  {
    if events != [] {
      EveryStartIsAccountedFor(StepEvent(l, events[0], verdicts), events[1..], verdicts);
    }
  }

  /** The countdown and what has been collected never exceed a packet, and counters match deliveries. */
  predicate Sound(l: LinkState) {
    && |l.delivered| == l.stats.goodPkt
    && l.stats.badContent <= l.stats.goodPkt
    && (match l.phase
        case Body(need, got) => need >= 1 && |got| + need <= LMS_MAX_PACKET_LEN
        case SumHigh(got) => 1 <= |got| <= LMS_MAX_PACKET_LEN
        case SumLow(got, _) => 1 <= |got| <= LMS_MAX_PACKET_LEN
        case _ => true)
    && (forall p :: p in l.delivered ==> 1 <= |p| <= LMS_MAX_PACKET_LEN)
  }

  /** The packets, by number, that the decoder refuses. */
  function Rejected(verdicts: Verdicts, from: nat, to: nat): (r: set<nat>)
    ensures forall k: nat :: k in r <==> from <= k < to && !verdicts(k)
  {
    set k: nat | from <= k < to && !verdicts(k)
  }

  lemma NoneRejected(verdicts: Verdicts, from: nat)
    ensures |Rejected(verdicts, from, from)| == 0
  {
    assert Rejected(verdicts, from, from) == {};
  }

  lemma RejectedFirst(verdicts: Verdicts, from: nat, to: nat)
    requires from < to
    ensures |Rejected(verdicts, from, to)| == (if verdicts(from) then 0 else 1) + |Rejected(verdicts, from + 1, to)|
  {
    var rest := Rejected(verdicts, from + 1, to);
    if verdicts(from) {
      assert Rejected(verdicts, from, to) == rest;
    } else {
      assert Rejected(verdicts, from, to) == {from} + rest;
    }
  }

  lemma StepCounts(l: LinkState, e: Event, verdicts: Verdicts)
    ensures
      var l', n := StepEvent(l, e, verdicts), l.stats.goodPkt;
      if l'.stats.goodPkt == n then l'.stats.badContent == l.stats.badContent
      else l'.stats.goodPkt == n + 1
           && l'.stats.badContent == l.stats.badContent + (if verdicts(n) then 0 else 1)
  {
    hide Crc;
  }

  /** Over every run badContent grows by one for each packet that the decoder refuses, and by nothing
      else. */
  lemma {:induction false} BadContentIsRejected(l: LinkState, events: seq<Event>, verdicts: Verdicts)
    ensures
      var l' := Run(l, events, verdicts);
      && l'.stats.goodPkt >= l.stats.goodPkt
      && l'.stats.badContent == l.stats.badContent + |Rejected(verdicts, l.stats.goodPkt, l'.stats.goodPkt)|
    decreases |events|
  {
    hide StepEvent;
    hide Rejected;
    if events == [] {
      NoneRejected(verdicts, l.stats.goodPkt);
    } else {
      var l1 := StepEvent(l, events[0], verdicts);
      StepCounts(l, events[0], verdicts);
      BadContentIsRejected(l1, events[1..], verdicts);
      if l1.stats.goodPkt != l.stats.goodPkt {
        RejectedFirst(verdicts, l.stats.goodPkt, Run(l, events, verdicts).stats.goodPkt);
      }
    }
  }

  lemma {:induction false} RunKeepsSound(l: LinkState, events: seq<Event>, verdicts: Verdicts)
    requires Sound(l)
    ensures Sound(Run(l, events, verdicts))
    ensures l.delivered <= Run(l, events, verdicts).delivered
    decreases |events|
  {
    if events != [] {
      RunKeepsSound(StepEvent(l, events[0], verdicts), events[1..], verdicts);
    }
  }

  lemma RunIsSound(l: LinkState, events: seq<Event>, verdicts: Verdicts)
    requires Sound(l)
    ensures Sound(Run(l, events, verdicts))
    ensures l.delivered <= Run(l, events, verdicts).delivered
    ensures
      var l' := Run(l, events, verdicts);
      l'.stats.badContent == l.stats.badContent + |Rejected(verdicts, |l.delivered|, |l'.delivered|)|
  {
    RunKeepsSound(l, events, verdicts);
    BadContentIsRejected(l, events, verdicts);
  }

  /** An expiry of the timer counts as a timeout and as nothing else, and ends the frame in progress; one
      that comes when no frame is in progress changes nothing. */
  lemma TimeoutsCount(l: LinkState, verdicts: Verdicts)
    ensures
      var l' := StepEvent(l, Timeout, verdicts);
      && l'.phase == Idle && l'.delivered == l.delivered
      && l'.stats.toPkt == l.stats.toPkt + (if l.phase.Idle? then 0 else 1)
      && l'.stats.duffSTX == l.stats.duffSTX && l'.stats.badPkt == l.stats.badPkt
      && l'.stats.goodPkt == l.stats.goodPkt && l'.stats.badContent == l.stats.badContent
  {
  }

  function Timeouts(l: LinkState, events: seq<Event>, verdicts: Verdicts): nat
    decreases |events|
  {
    if events == [] then 0
    else
      (if events[0].Timeout? && !l.phase.Idle? then 1 else 0)
      + Timeouts(StepEvent(l, events[0], verdicts), events[1..], verdicts)
  }

  /** Over every run toPkt grows by the expiries that cut a frame short, and by nothing else. */
  lemma {:induction false} TimeoutsAreCounted(l: LinkState, events: seq<Event>, verdicts: Verdicts)
    ensures Run(l, events, verdicts).stats.toPkt == l.stats.toPkt + Timeouts(l, events, verdicts)
    decreases |events|
  {
    if events != [] {
      hide Crc;
      TimeoutsCount(l, verdicts);
      TimeoutsAreCounted(StepEvent(l, events[0], verdicts), events[1..], verdicts);
    }
  }

  /** A wrong version and a length out of range each make a bad packet, at once. */
  lemma BadHeadersCount(l: LinkState, version: Byte, len: Byte, verdicts: Verdicts)
    requires l.phase == Idle
    ensures version != VERSION ==>
      RunBytes(l, [STX_H, STX_L, version], verdicts) == l.(stats := l.stats.(badPkt := l.stats.badPkt + 1))
    ensures !(1 <= len <= 64) ==>
      RunBytes(l, Header(len), verdicts) == l.(stats := l.stats.(badPkt := l.stats.badPkt + 1))
  {
    hide Crc;
    RunFour(l, STX_H, STX_L, VERSION, len, verdicts);
    assert [STX_H, STX_L, version] == [STX_H] + ([STX_L] + ([version] + []));
    RunFirst(l, STX_H, [STX_L] + ([version] + []), verdicts);
    RunFirst(Step(l, STX_H, verdicts), STX_L, [version] + [], verdicts);
    RunFirst(Step(Step(l, STX_H, verdicts), STX_L, verdicts), version, [], verdicts);
  }

  // --------------------------------------------------------------------------------------------
  // Frames

  function Header(len: Byte): (r: seq<Byte>)
    ensures |r| == 4
  {
    [STX_H, STX_L, VERSION, len]
  }

  /** Two start bytes, the version, the payload's length; then the payload and its checksum. */
  lemma FrameLayout(payload: seq<Byte>)
    requires |payload| < 256
    ensures
      var f, n := Frame(payload), |payload|;
      && |f| == n + 6 && f[..4] == [0x7E, 0x8E, 0x01, n] && f[4..n + 4] == payload
      && f[n + 4..] == Footer(Crc(payload))
  {
    hide Crc;
    hide Footer;
  }

  function Frame(payload: seq<Byte>): seq<Byte>
    requires |payload| < 256
  {
    Header(|payload|) + payload + Footer(Crc(payload))
  }

  /** The in-place completion of a message: the length byte, then the checksum over as many bytes as
      that byte says, in the last two places. */
  function Completed(d: seq<Byte>): (r: seq<Byte>)
    requires |d| >= 6
    ensures |r| == |d|
  {
    var len: Byte := (|d| - 6) % 256;
    d[..3] + [len] + d[4..|d| - 2] + Footer(Crc(d[4..4 + len]))
  }

  lemma CompletedIsFrame(d: seq<Byte>)
    requires 6 <= |d| < 262 && d[..3] == [STX_H, STX_L, VERSION]
    ensures Completed(d) == Frame(d[4..|d| - 2])
  {
    var n: Byte := |d| - 6;
    assert n == (|d| - 6) % 256;
    assert d[..3] + [n] == Header(n);
  }

  /** For buffers of every length: the fourth byte becomes the length less six, cut to a byte; the last two
      become the footer of as many bytes as that says; all others stay. */
  lemma CompletedParts(d: seq<Byte>)
    requires |d| >= 6
    ensures
      var r, n := Completed(d), (|d| - 6) % 256;
      && r[3] == n
      && (forall i :: 0 <= i < |d| - 2 && i != 3 ==> r[i] == d[i])
      && [r[|d| - 2], r[|d| - 1]] == Footer(Crc(d[4..4 + n]))
  {
    hide Crc;
    hide Footer;
  }

  /** `accepted` is how many bytes the serial port took. */
  method LmsMsgTx(d: array<Byte>, accepted: nat) returns (failed: bool)
    requires d.Length >= 6
    modifies d
    ensures d[..] == Completed(old(d[..]))
    ensures failed <==> accepted != d.Length
  {
    var len := d.Length;
    var n: Byte := (len - 6) % 256;
    ghost var was := d[..];
    d[3] := n;
    var c := ComputeCrc(d, 4, n);
    assert d[4..4 + n] == was[4..4 + n];
    FooterOfRegister(c);
    d[len - 2] := c / 256;
    d[len - 1] := c % 256;
    CompletedPlaces(was, d[..]);
    failed := len != accepted;
  }

  lemma CompletedPlaces(was: seq<Byte>, d: seq<Byte>)
    requires |d| == |was| >= 6
    requires d[3] == (|d| - 6) % 256
    requires forall i :: 0 <= i < |d| - 2 && i != 3 ==> d[i] == was[i]
    requires [d[|d| - 2], d[|d| - 1]] == Footer(Crc(was[4..4 + (|d| - 6) % 256]))
    ensures d == Completed(was)
  {
    assert d[..3] == was[..3];
    assert d[4..|d| - 2] == was[4..|d| - 2];
    assert d == d[..3] + [d[3]] + d[4..|d| - 2] + [d[|d| - 2], d[|d| - 1]];
  }

  // --------------------------------------------------------------------------------------------
  // The firmware's receiver

  datatype RxState = RX_IDLE | RX_STX_L | RX_VERSION | RX_GETLEN | RX_GETPACKET | RX_GETCHECKSUMH | RX_GETCHECKSUML

  lemma OrIntoChecksum(checksum: Word16, j: Byte)
    requires checksum % 256 == 0
    ensures Or(checksum, j) == checksum + j < 0x1_0000
    ensures Register(checksum + j) == Join(checksum / 256, j)
  {
    OrOfBytes(checksum / 256, j);
    RegisterOfBytes(checksum / 256, j);
  }

  class Receiver {
    var stats: Stats
    var rxingLen: nat
    var pktLen: nat
    var pktptr: nat
    var checksum: Word16
    const pkt: array<Byte>
    var rxState: RxState
    var timerRunning: bool
    ghost var delivered: seq<seq<Byte>>

    ghost predicate Valid()
      reads this
    {
      && pkt.Length == LMS_MAX_PACKET_LEN
      && (timerRunning <==> rxState != RX_IDLE)
      && (rxState == RX_GETPACKET ==> 0 < rxingLen && pktptr + rxingLen == pktLen <= LMS_MAX_PACKET_LEN)
      && (rxState in {RX_GETCHECKSUMH, RX_GETCHECKSUML} ==> pktptr == pktLen <= LMS_MAX_PACKET_LEN)
      && (rxState == RX_GETCHECKSUML ==> checksum % 256 == 0)
    }

    ghost function CurrentPhase(): Phase
      reads this, pkt
      requires Valid()
    {
      match rxState
      case RX_IDLE => Idle
      case RX_STX_L => Stx
      case RX_VERSION => Version
      case RX_GETLEN => Length
      case RX_GETPACKET => Body(rxingLen, pkt[..pktptr])
      case RX_GETCHECKSUMH => SumHigh(pkt[..pktptr])
      case RX_GETCHECKSUML => SumLow(pkt[..pktptr], checksum / 256)
    }

    ghost function Abs(): LinkState
      reads this, pkt
      requires Valid()
    {
      LinkState(CurrentPhase(), stats, delivered)
    }

    constructor ()
      ensures Valid() && fresh(pkt)
      ensures Abs() == LinkState(Idle, Stats(0, 0, 0, 0, 0), [])
    {
      stats := Stats(0, 0, 0, 0, 0);
      rxingLen, pktLen, pktptr, checksum := 0, 0, 0, 0;
      pkt := new Byte[LMS_MAX_PACKET_LEN](i => 0);
      rxState, timerRunning := RX_IDLE, false;
      delivered := [];
    }

    /** The timer's callback.  The timer is a one-shot, so it has stopped by the time this runs. */
    method RxTimeout(verdicts: Verdicts)
      requires Valid() && timerRunning
      modifies this
      ensures Valid() && Abs() == StepEvent(old(Abs()), Timeout, verdicts)
    {
      timerRunning := false;
      rxState := RX_IDLE;
      stats := stats.(toPkt := stats.toPkt + 1);
    }

    method ReceiveByte(j: Byte, verdicts: Verdicts)
      requires Valid()
      modifies this, pkt
      ensures Valid() && Abs() == Step(old(Abs()), j, verdicts)
    {
      hide Crc;
      hide Join;
      match rxState
      case RX_IDLE =>
        if STX_H == j {
          rxState := RX_STX_L;
          timerRunning := true;
        } else {
          stats := stats.(duffSTX := stats.duffSTX + 1);
        }
      case RX_STX_L =>
        if STX_L == j {
          rxState := RX_VERSION;
        } else {
          stats := stats.(duffSTX := stats.duffSTX + 1);
          rxState := RX_IDLE;
          timerRunning := false;
        }
      case RX_VERSION =>
        if VERSION == j {
          rxState := RX_GETLEN;
        } else {
          stats := stats.(badPkt := stats.badPkt + 1);
          rxState := RX_IDLE;
          timerRunning := false;
        }
      case RX_GETLEN =>
        rxingLen, pktLen := j, j;
        pktptr := 0;
        if j != 0 && j <= LMS_MAX_PACKET_LEN {
          rxState := RX_GETPACKET;
        } else {
          rxState := RX_IDLE;
          stats := stats.(badPkt := stats.badPkt + 1);
          timerRunning := false;
        }
      case RX_GETPACKET =>
        CollectByte(j, verdicts);
      case RX_GETCHECKSUMH =>
        checksum := j * 256;
        rxState := RX_GETCHECKSUML;
      case RX_GETCHECKSUML =>
        FinishPacket(j, verdicts);
    }

    method CollectByte(j: Byte, verdicts: Verdicts)
      requires Valid() && rxState == RX_GETPACKET
      modifies this, pkt
      ensures Valid() && Abs() == Step(old(Abs()), j, verdicts)
    {
      pkt[pktptr] := j;
      pktptr := pktptr + 1;
      assert pkt[..pktptr] == old(pkt[..pktptr]) + [j];
      rxingLen := rxingLen - 1;
      if rxingLen == 0 {
        rxState := RX_GETCHECKSUMH;
      }
    }

    method FinishPacket(j: Byte, verdicts: Verdicts)
      requires Valid() && rxState == RX_GETCHECKSUML
      modifies this
      ensures Valid() && Abs() == Step(old(Abs()), j, verdicts)
    {
      hide Crc;
      hide Join;
      hide Register;
      OrIntoChecksum(checksum, j);
      checksum := Or(checksum, j);
      timerRunning := false;
      var crc := ComputeCrc(pkt, 0, pktLen);
      assert pkt[0..0 + pktLen] == pkt[..pktptr];
      rxState := RX_IDLE;
      RegisterInjective(crc, checksum);
      if crc != checksum {
        stats := stats.(badPkt := stats.badPkt + 1);
      } else {
        HandUp(verdicts);
      }
    }

    method HandUp(verdicts: Verdicts)
      requires pktLen <= pkt.Length
      modifies `stats, `delivered
      ensures LinkState(Idle, stats, delivered)
           == Accept(LinkState(Idle, old(stats), old(delivered)), pkt[..pktLen], verdicts)
    {
      var liked := verdicts(stats.goodPkt);
      stats := stats.(goodPkt := stats.goodPkt + 1);
      delivered := delivered + [pkt[..pktLen]];
      if !liked {
        stats := stats.(badContent := stats.badContent + 1);
      }
    }

    /** One call of the receive routine, with everything it finds pending. */
    method LmsMsgReceive(pending: seq<Byte>, verdicts: Verdicts)
      requires Valid()
      modifies this, pkt
      ensures Valid() && Abs() == RunBytes(old(Abs()), pending, verdicts)
    {
      var i := 0;
      while i < |pending|
        invariant 0 <= i <= |pending| && Valid()
        invariant Abs() == RunBytes(old(Abs()), pending[..i], verdicts)
      {
        ghost var start, l := old(Abs()), Abs();
        ReceiveByte(pending[i], verdicts);
        assert pending[..i + 1] == pending[..i] + [pending[i]];
        RunBytesConcat(start, pending[..i], [pending[i]], verdicts);
        assert RunBytes(l, [pending[i]], verdicts) == Step(l, pending[i], verdicts);
        i := i + 1;
      }
      assert pending[..i] == pending;
    }
  }
}
