/**
 The typed messages of the LMS link: what the host's command methods put into a payload, what the
 vehicle's decoders take out of it, and the status message that travels the other way.
 */
module LmsTyped {
  import opened Modular
  import opened Words
  import opened LmsMsg
  import opened HostLink
  import opened Options

  const CMD_TYPE_SETSPEED: Byte := 24
  const CMD_TYPE_SETSERVO: Byte := 25
  const CMD_TYPE_SETLED: Byte := 26
  const CMD_TYPE_CMDLED: Byte := 27

  // --------------------------------------------------------------------------------------------
  // Integers on the wire

  /** The two and four low bytes of an integer, high byte first; negative values wrap, as a shift and a
      mask make them do. */
  function Int16ToBytes(x: int): (r: seq<Byte>)
    ensures |r| == 2
  {
    [x / 256 % 256, x % 256]
  }

  function Int32ToBytes(x: int): (r: seq<Byte>)
    ensures |r| == 4
  {
    [x / 0x100_0000 % 256, x / 0x1_0000 % 256, x / 256 % 256, x % 256]
  }

  function Unsigned16(p: seq<Byte>): (r: int)
    requires |p| >= 2
  {
    (p[0] as int) * 256 + p[1] as int
  }

  function Unsigned32(p: seq<Byte>): (r: int)
    requires |p| >= 4
  {
    (p[0] as int) * 0x100_0000 + (p[1] as int) * 0x1_0000 + (p[2] as int) * 256 + p[3] as int
  }

  function Signed(x: int, bits: int): int {
    if 2 * x >= bits then x - bits else x
  }

  function Signed16(p: seq<Byte>): int
    requires |p| >= 2
  {
    Signed(Unsigned16(p), 0x1_0000)
  }

  function Signed32(p: seq<Byte>): int
    requires |p| >= 4
  {
    Signed(Unsigned32(p), 0x1_0000_0000)
  }

  lemma Int16RoundTrip(x: int)
    ensures Unsigned16(Int16ToBytes(x)) == x % 0x1_0000
    ensures -0x8000 <= x < 0x8000 ==> Signed16(Int16ToBytes(x)) == x
  {
  }

  lemma Int32RoundTrip(x: int)
    ensures Unsigned32(Int32ToBytes(x)) == x % 0x1_0000_0000
    ensures -0x8000_0000 <= x < 0x8000_0000 ==> Signed32(Int32ToBytes(x)) == x
  {
    var a := x / 256;
    var b := a / 256;
    var c := b / 256;
    assert x == 256 * a + x % 256 && a == 256 * b + a % 256 && b == 256 * c + b % 256;
    assert x / 0x1_0000 == b && x / 0x100_0000 == c;
    assert c == 256 * (c / 256) + c % 256;
  }

  /** The decoders as the vehicle writes them: shifts and ors. */
  lemma UnsignedByShifts(p: seq<Byte>)
    ensures |p| >= 2 ==> Unsigned16(p) == Or(Shl(p[0], 8), p[1])
    ensures |p| >= 4 ==> Unsigned32(p) == Or(Or(Or(Shl(p[0], 24), Shl(p[1], 16)), Shl(p[2], 8)), p[3])
  {
    if |p| >= 4 {
      ShiftedBytes(p[0], p[1], p[2], p[3]);
    }
    if |p| >= 2 {
      ShiftedBytes(0, 0, p[0], p[1]);
    }
  }

  // --------------------------------------------------------------------------------------------
  // What the vehicle decodes

  datatype Led = Led(led: Byte, red: Byte, green: Byte, blue: Byte)

  datatype Command =
    | SetSpeed(speed: int)
    | SetServo(servo: Byte, value: int)
    | SetLeds(leds: seq<Led>, command: Byte)
    | CmdLed(command: Byte)
    | Other

  function LedAt(p: seq<Byte>, at: nat): Led
    requires at + 4 <= |p|
  {
    Led(p[at], p[at + 1], p[at + 2], p[at + 3])
  }

  function LedsOf(p: seq<Byte>, n: nat): (r: seq<Led>)
    requires 4 * n <= |p|
    ensures |r| == n
  {
    seq(n, i requires 0 <= i < n => LedAt(p, 4 * i))
  }

  /** The dispatch on the message type, for the commands of the host and for packets as long as the
      command's decoder reads. */
  function Decode(packet: seq<Byte>): Command
    requires |packet| >= 6
  {
    var messageType, sensorID, p := packet[0], packet[1], packet[6..];
    if messageType == CMD_TYPE_SETSPEED && |p| >= 2 then SetSpeed(Signed16(p))
    else if messageType == CMD_TYPE_SETSERVO && |p| >= 2 then SetServo(sensorID, Signed16(p))
    else if messageType == CMD_TYPE_SETLED && |p| % 4 == 0 then SetLeds(LedsOf(p, |p| / 4), sensorID)
    else if messageType == CMD_TYPE_CMDLED then CmdLed(sensorID)
    else Other
  }

  /** The loop's uint8_t countdown after k turns. */
  function Countdown(len: Byte, k: nat): Byte {
    if k == 0 then (len - 6) % 256 else (Countdown(len, k - 1) - 4) % 256
  }

  /** The first turns of the colour loop of the LED command, on a packet of any length: `body` is what the
      decoder finds in memory from the packet's seventh byte on, as far as these turns read. */
  method DecodeSetLed(len: Byte, body: seq<Byte>, turns: nat) returns (applied: seq<Led>, left: Byte)
    requires |body| >= 4 * turns
    ensures |applied| <= turns && applied == LedsOf(body, |applied|)
    ensures left == Countdown(len, |applied|)
    ensures forall k :: 0 <= k < |applied| ==> Countdown(len, k) != 0
    ensures |applied| < turns ==> left == 0
    ensures len % 4 == 2 && len >= 6 && turns >= (len - 6) / 4 ==> |applied| == (len - 6) / 4 && left == 0
  {
    left := (len - 6) % 256;
    var p := 0;
    applied := [];
    while left != 0 && |applied| < turns
      invariant |applied| <= turns && p == 4 * |applied|
      invariant applied == LedsOf(body, |applied|)
      invariant left == Countdown(len, |applied|)
      invariant forall k :: 0 <= k < |applied| ==> Countdown(len, k) != 0
      decreases turns - |applied|
    {
      applied := applied + [Led(body[p], body[p + 1], body[p + 2], body[p + 3])];
      p := p + 4;
      left := (left - 4) % 256;
    }
    LedLoopEnds(len);
  }

  lemma {:induction false} CountdownClosed(len: Byte, k: nat)
    ensures Countdown(len, k) == (len - 6 - 4 * k) % 256
    decreases k
  {
    if k > 0 {
      CountdownClosed(len, k - 1);
      var x := len - 6 - 4 * (k - 1);
      var q, r := x / 256, x % 256;
      if r >= 4 {
        ModUnique(x - 4, 256, q, r - 4);
        ModUnique(r - 4, 256, 0, r - 4);
      } else {
        ModUnique(x - 4, 256, q - 1, r + 252);
        ModUnique(r - 4, 256, -1, r + 252);
      }
    }
  }

  /** The loop ends exactly for lengths that leave a multiple of four once the header is taken off, and
      then, for a packet that has its header, after one turn for each LED.  Any other length counts
      past zero for ever. */
  lemma LedLoopEnds(len: Byte)
    ensures (exists k: nat :: Countdown(len, k) == 0) <==> len % 4 == 2
    ensures len % 4 == 2 && len >= 6 ==>
      Countdown(len, (len - 6) / 4) == 0 && forall k: nat :: k < (len - 6) / 4 ==> Countdown(len, k) != 0
  {
    hide Countdown;
    if len % 4 == 2 {
      if len >= 6 {
        LoopOfWholePacket(len);
      } else {
        CountdownClosed(2, 63);
      }
    } else {
      forall k: nat
        ensures Countdown(len, k) != 0
      {
        if Countdown(len, k) == 0 {
          ZeroMeansTwo(len, k);
        }
      }
    }
  }

  lemma LoopOfWholePacket(len: Byte)
    requires len % 4 == 2 && len >= 6
    ensures Countdown(len, (len - 6) / 4) == 0
    ensures forall k: nat :: k < (len - 6) / 4 ==> Countdown(len, k) != 0
  {
    hide Countdown;
    var n := (len - 6) / 4;
    assert len - 6 == 4 * n by { ModUnique(len - 6, 4, len / 4 - 1, 0); }
    CountdownClosed(len, n);
    forall k: nat | k < n
      ensures Countdown(len, k) != 0
    {
      CountdownClosed(len, k);
      ModUnique(len - 6 - 4 * k, 256, 0, len - 6 - 4 * k);
    }
  }

  lemma ZeroMeansTwo(len: Byte, k: nat)
    requires Countdown(len, k) == 0
    ensures len % 4 == 2
  {
    hide Countdown;
    CountdownClosed(len, k);
    var q := (len - 6 - 4 * k) / 256;
    assert len - 6 - 4 * k == 256 * q;
    ModUnique(len, 4, 64 * q + k + 1, 2);
  }

  // --------------------------------------------------------------------------------------------
  // The host's command methods

  /** Speeds close to zero are sent as zero. */
  function DeadBand(speed: int): int {
    if -10 < speed < 10 then 0 else speed
  }

  function SpeedPayload(speed: int, ts: nat): (r: seq<Byte>)
    ensures |r| == 8
  {
    CommandPayload(CMD_TYPE_SETSPEED, 0, ts, Int16ToBytes(DeadBand(speed)))
  }

  method SetSpeedCmd(speed: int, ts: nat) returns (r: Option<seq<Byte>>)
    ensures r.Some? <==> -100 <= speed <= 100
    ensures r.Some? ==> r.value == Frame(SpeedPayload(speed, ts))
  {
    var s := speed;
    if s < -100 || s > 100 {
      return None;
    }
    if (if s < 0 then -s else s) < 10 {
      s := 0;
    }
    r := SendCmd(CMD_TYPE_SETSPEED, 0, [s / 256 % 256, s % 256], ts);
  }

  function ServoPayload(proportion: int, ts: nat): (r: seq<Byte>)
    ensures |r| == 8
  {
    CommandPayload(CMD_TYPE_SETSERVO, 0, ts, Int16ToBytes(proportion))
  }

  /** Only servo 0 can be commanded: a larger number is refused outright, a negative one does not fit
      the byte it is to travel in. */
  method SetServoCmd(servo: int, proportion: int, ts: nat) returns (r: Option<seq<Byte>>)
    ensures r.Some? <==> servo == 0 && 0 <= proportion <= 1000
    ensures r.Some? ==> r.value == Frame(ServoPayload(proportion, ts))
  {
    if servo > 0 || proportion < 0 || proportion > 1000 || servo < 0 {
      return None;
    }
    r := SendCmd(CMD_TYPE_SETSERVO, servo, [proportion / 256 % 256, proportion % 256], ts);
  }

  function LedBytes(leds: seq<Led>): (r: seq<Byte>)
    ensures |r| == 4 * |leds|
  {
    if leds == [] then []
    else [leds[0].led, leds[0].red, leds[0].green, leds[0].blue] + LedBytes(leds[1..])
  }

  lemma LedBytesOfFirst(leds: seq<Led>, i: nat)
    requires i < |leds|
    ensures LedBytes(leds[i..]) == [leds[i].led, leds[i].red, leds[i].green, leds[i].blue] + LedBytes(leds[i + 1..])
  {
    assert leds[i..][1..] == leds[i + 1..];
  }

  function LedPayload(leds: seq<Led>, command: Byte, ts: nat): (r: seq<Byte>)
    ensures |r| == 4 * |leds| + 6
  {
    CommandPayload(CMD_TYPE_SETLED, command, ts, LedBytes(leds))
  }

  method LedSetCmd(ledList: seq<Led>, command: Byte, ts: nat) returns (r: Option<seq<Byte>>)
    ensures r.Some? <==> |ledList| <= 12
    ensures r.Some? ==> r.value == Frame(LedPayload(ledList, command, ts))
  {
    hide Frame;
    if |ledList| > 12 {
      return None;
    }
    var l := [];
    var i := 0;
    assert ledList[0..] == ledList;
    while i < |ledList|
      invariant 0 <= i <= |ledList|
      invariant l + LedBytes(ledList[i..]) == LedBytes(ledList)
    {
      LedBytesOfFirst(ledList, i);
      l := l + [ledList[i].led, ledList[i].red, ledList[i].green, ledList[i].blue];
      i := i + 1;
    }
    assert l == LedBytes(ledList);
    r := SendCmd(CMD_TYPE_SETLED, command, l, ts);
  }

  // --------------------------------------------------------------------------------------------
  // From the host's method to the vehicle's decoder

  lemma {:induction false} LedsRoundTrip(leds: seq<Led>)
    ensures LedsOf(LedBytes(leds), |leds|) == leds
    decreases |leds|
  {
    if leds != [] {
      var p, rest := LedBytes(leds), LedBytes(leds[1..]);
      LedsRoundTrip(leds[1..]);
      assert p[4..] == rest;
      forall i | 0 <= i < |leds|
        ensures LedsOf(p, |leds|)[i] == leds[i]
      {
        if i > 0 {
          LedFurtherOn(p, rest, 4 * (i - 1));
          assert LedsOf(rest, |leds| - 1)[i - 1] == leds[1..][i - 1];
        }
      }
    }
  }

  lemma LedFurtherOn(p: seq<Byte>, rest: seq<Byte>, at: nat)
    requires |p| == |rest| + 4 && p[4..] == rest && at + 4 <= |rest|
    ensures LedAt(p, at + 4) == LedAt(rest, at)
  {
  }

  /** Where things stand in a command: type, identifier, time stamp modulo 2^32, and the command's bytes. */
  lemma PayloadParts(sensorType: Byte, sensorID: Byte, ts: nat, cmdSeq: seq<Byte>)
    ensures
      var p := CommandPayload(sensorType, sensorID, ts, cmdSeq);
      && p[0] == sensorType && p[1] == sensorID && p[6..] == cmdSeq
      && Unsigned32(p[2..6]) == ts % 0x1_0000_0000
  {
    var p := CommandPayload(sensorType, sensorID, ts, cmdSeq);
    assert p[2..6] == Int32ToBytes(ts);
    Int32RoundTrip(ts);
  }

  /** What the decoders make of any 16-bit value and any servo number. */
  lemma ValuesDecode(id: Byte, value: int, ts: nat)
    requires -0x8000 <= value < 0x8000
    ensures Decode(CommandPayload(24, id, ts, Int16ToBytes(value))) == SetSpeed(value)
    ensures Decode(CommandPayload(25, id, ts, Int16ToBytes(value))) == SetServo(id, value)
  {
    PayloadParts(24, id, ts, Int16ToBytes(value));
    PayloadParts(25, id, ts, Int16ToBytes(value));
    Int16RoundTrip(value);
  }

  /** A speed set on the host arrives on the vehicle: forwards or backwards as it is, and nearer to zero
      than ten as zero. */
  lemma SpeedArrives(l: LinkState, speed: int, ts: nat, verdicts: Verdicts)
    requires l.phase == Idle && -100 <= speed <= 100
    ensures RunBytes(l, Frame(SpeedPayload(speed, ts)), verdicts) == Accept(l, SpeedPayload(speed, ts), verdicts)
    ensures Decode(SpeedPayload(speed, ts)) == SetSpeed(DeadBand(speed))
    ensures Decode(SpeedPayload(speed, ts)) == SetSpeed(if -10 < speed < 10 then 0 else speed)
    ensures SpeedPayload(speed, ts)[0] == 24
  {
    CommandsAreAccepted(l, CMD_TYPE_SETSPEED, 0, ts, Int16ToBytes(DeadBand(speed)), verdicts);
    PayloadParts(CMD_TYPE_SETSPEED, 0, ts, Int16ToBytes(DeadBand(speed)));
    Int16RoundTrip(DeadBand(speed));
  }

  lemma ServoArrives(l: LinkState, proportion: int, ts: nat, verdicts: Verdicts)
    requires l.phase == Idle && 0 <= proportion <= 1000
    ensures RunBytes(l, Frame(ServoPayload(proportion, ts)), verdicts) == Accept(l, ServoPayload(proportion, ts), verdicts)
    ensures Decode(ServoPayload(proportion, ts)) == SetServo(0, proportion)
    ensures ServoPayload(proportion, ts)[0] == 25
  {
    CommandsAreAccepted(l, CMD_TYPE_SETSERVO, 0, ts, Int16ToBytes(proportion), verdicts);
    PayloadParts(CMD_TYPE_SETSERVO, 0, ts, Int16ToBytes(proportion));
    Int16RoundTrip(proportion);
  }

  lemma LedsArrive(l: LinkState, leds: seq<Led>, command: Byte, ts: nat, verdicts: Verdicts)
    requires l.phase == Idle && |leds| <= 12
    ensures RunBytes(l, Frame(LedPayload(leds, command, ts)), verdicts) == Accept(l, LedPayload(leds, command, ts), verdicts)
    ensures Decode(LedPayload(leds, command, ts)) == SetLeds(leds, command)
    ensures |LedPayload(leds, command, ts)| % 4 == 2
    ensures
      var p := LedPayload(leds, command, ts);
      p[0] == 26 && forall i :: 0 <= i < |leds| ==> leds[i] == Led(p[4 * i + 6], p[4 * i + 7], p[4 * i + 8], p[4 * i + 9])
  {
    hide RunBytes;
    hide Frame;
    CommandsAreAccepted(l, CMD_TYPE_SETLED, command, ts, LedBytes(leds), verdicts);
    PayloadParts(CMD_TYPE_SETLED, command, ts, LedBytes(leds));
    LedsRoundTrip(leds);
    assert |LedBytes(leds)| / 4 == |leds|;
    var p, n := LedPayload(leds, command, ts), |leds|;
    assert p[6..] == LedBytes(leds);
    forall i | 0 <= i < n
      ensures leds[i] == Led(p[4 * i + 6], p[4 * i + 7], p[4 * i + 8], p[4 * i + 9])
    {
      assert leds[i] == LedsOf(LedBytes(leds), n)[i] == LedAt(LedBytes(leds), 4 * i);
      SameLed(p, LedBytes(leds), 4 * i);
    }
  }

  lemma SameLed(p: seq<Byte>, body: seq<Byte>, at: nat)
    requires |p| == |body| + 6 && p[6..] == body && at + 4 <= |body|
    ensures LedAt(body, at) == Led(p[at + 6], p[at + 7], p[at + 8], p[at + 9])
  {
    assert p[6..][at] == p[at + 6] && p[6..][at + 1] == p[at + 7];
    assert p[6..][at + 2] == p[at + 8] && p[6..][at + 3] == p[at + 9];
  }

  const CMD_LED_MAX := 2

  /** Print and clear, and nothing to do; a number below zero does not fit its byte. */
  method LedCommandCmd(ledcmd: int, ts: nat) returns (r: Option<seq<Byte>>)
    ensures r.Some? <==> 0 <= ledcmd <= 2
    ensures r.Some? ==> r.value == Frame(CommandPayload(CMD_TYPE_CMDLED, ledcmd, ts, []))
  {
    if ledcmd > CMD_LED_MAX || ledcmd < 0 {
      return None;
    }
    r := SendCmd(CMD_TYPE_CMDLED, ledcmd, [], ts);
  }

  lemma LedCommandArrives(l: LinkState, command: Byte, ts: nat, verdicts: Verdicts)
    requires l.phase == Idle
    ensures
      var p := CommandPayload(CMD_TYPE_CMDLED, command, ts, []);
      RunBytes(l, Frame(p), verdicts) == Accept(l, p, verdicts) && Decode(p) == CmdLed(command) && p[0] == 27
  {
    CommandsAreAccepted(l, CMD_TYPE_CMDLED, command, ts, [], verdicts);
    PayloadParts(CMD_TYPE_CMDLED, command, ts, []);
  }

  // --------------------------------------------------------------------------------------------
  // The status message, vehicle to host

  datatype CarStatus = CarStatus(front: bool, back: bool, servo: int, speed: int)

  /** The message body that the vehicle sends after the six header bytes. */
  function EncodeCarStatus(s: CarStatus): (r: seq<Byte>)
    ensures |r| == 10
  {
    [if s.front then 1 else 0, if s.back then 1 else 0] + Int32ToBytes(s.servo) + Int32ToBytes(s.speed)
  }

  /** Two bytes for the stops, front first, then servo position and speed. */
  lemma CarStatusLayout(s: CarStatus)
    ensures
      var p := EncodeCarStatus(s);
      && p[0] == (if s.front then 1 else 0) && p[1] == (if s.back then 1 else 0)
      && Unsigned32(p[2..6]) == s.servo % 0x1_0000_0000 && Unsigned32(p[6..10]) == s.speed % 0x1_0000_0000
  {
    var p := EncodeCarStatus(s);
    assert p[2..6] == Int32ToBytes(s.servo);
    assert p[6..10] == Int32ToBytes(s.speed);
    Int32RoundTrip(s.servo);
    Int32RoundTrip(s.speed);
  }

  /** What the host makes of it. */
  function ParseCarStatus(p: seq<Byte>): CarStatus
    requires |p| >= 10
  {
    CarStatus(p[0] != 0, p[1] != 0, Unsigned32(p[2..6]), Signed32(p[6..10]))
  }

  lemma CarStatusRoundTrip(s: CarStatus)
    requires 0 <= s.servo < 0x1_0000_0000 && -0x8000_0000 <= s.speed < 0x8000_0000
    ensures ParseCarStatus(EncodeCarStatus(s)) == s
  {
    var p := EncodeCarStatus(s);
    assert p[2..6] == Int32ToBytes(s.servo);
    assert p[6..10] == Int32ToBytes(s.speed);
    Int32RoundTrip(s.servo);
    Int32RoundTrip(s.speed);
  }
}
