/**
 The distance sensors' hold on the motor.

 A sweep looks at each sensor in turn and sets or clears the stop of the direction it looks in.  A run is
 any sequence of speeds asked for and of looks at a sensor, so that commands may fall in the middle of a
 sweep.  Its state is shown to be a function of its history: the last speed accepted, and the last
 reading of each sensor.
 */
module EmergencyStop {
  import opened Words
  import opened Motor

  const MINDIST := 150

  datatype Channel = Front | Rear

  function Facing(c: Channel): Direction {
    if c == Front then Forwards else Backwards
  }

  /** A sensor that is not available reads 0. */
  function Reading(available: bool, range: nat): nat {
    if available then range else 0
  }

  datatype Event = Command(speed: Int32) | Look(channel: Channel, available: bool, range: nat)

  /** The motor's state after a change of its stop bits or speed. */
  function Output(stopDir: nat, speed: Int32): (s: State)
    ensures s.stopDir == stopDir && s.speed == speed && Shows(s, speed, stopDir)
  {
    State(stopDir, speed, Drive(speed, stopDir) == Backwards, Drive(speed, stopDir) == Forwards, Abs32(speed))
  }

  function Step(s: State, e: Event): State {
    match e
    case Command(speed) => if Accepts(speed) then Output(s.stopDir, speed) else s
    case Look(c, available, range) =>
      if Reading(available, range) < MINDIST
      then Output(Or(s.stopDir, StopBit(Facing(c))), s.speed)
      else Output(AndNot(s.stopDir, StopBit(Facing(c))), s.speed)
  }

  function Run(events: seq<Event>): State {
    if events == [] then Output(0, 0) else Step(Run(events[..|events| - 1]), events[|events| - 1])
  }

  // --------------------------------------------------------------------------------------------
  // History

  function LastAccepted(events: seq<Event>): Int32 {
    if events == [] then 0
    else
      var e := events[|events| - 1];
      if e.Command? && Accepts(e.speed) then e.speed else LastAccepted(events[..|events| - 1])
  }

  /** The last look at c came out too near; with no look so far nothing is near. */
  predicate Near(events: seq<Event>, c: Channel) {
    events != [] &&
      var e := events[|events| - 1];
      if e.Look? && e.channel == c then Reading(e.available, e.range) < MINDIST
      else Near(events[..|events| - 1], c)
  }

  lemma LookAffectsItsOwn(stopDir: nat, c: Channel, d: Channel)
    ensures Stopped(Or(stopDir, StopBit(Facing(c))), Facing(d)) <==> Stopped(stopDir, Facing(d)) || c == d
    ensures Stopped(AndNot(stopDir, StopBit(Facing(c))), Facing(d)) <==> Stopped(stopDir, Facing(d)) && c != d
  {
    var k := if d == Front then 0 else 1;
    BitOfOr(stopDir, StopBit(Facing(c)), k);
    BitOfAndNot(stopDir, StopBit(Facing(c)), k);
    StopBits(Facing(c), k);
  }

  /** Over every run: the speed is the last one accepted, a direction is stopped exactly when the last
      look that way came out too near, and the output is what these two say. */
  lemma {:induction false} StateIsHistory(events: seq<Event>)
    ensures
      var s := Run(events);
      && s.speed == LastAccepted(events)
      && (forall c :: Stopped(s.stopDir, Facing(c)) <==> Near(events, c))
      && Consistent(s)
    decreases |events|
  {
    if events == [] {
      BitOfZero(0);
      BitOfZero(1);
    } else {
      var before := events[..|events| - 1];
      StateIsHistory(before);
      var e := events[|events| - 1];
      if e.Look? {
        LookAffectsItsOwn(Run(before).stopDir, e.channel, Front);
        LookAffectsItsOwn(Run(before).stopDir, e.channel, Rear);
      }
    }
  }

  /** The vehicle is never driven in a direction whose last reading was too near or not available, and
      is driven at the last speed accepted in every other case. */
  lemma NeverDrivenIntoStop(events: seq<Event>)
    ensures
      var s, v := Run(events), LastAccepted(events);
      && (s.m1 <==> v > 0 && !Near(events, Front))
      && (s.m0 <==> v < 0 && !Near(events, Rear))
      && s.duty == Abs32(v)
      && (-100 <= v <= 100 ==> s.duty == if v < 0 then -v else v)
  {
    StateIsHistory(events);
  }

  lemma {:induction false} LooksKeepSpeed(events: seq<Event>, more: seq<Event>)
    requires forall e :: e in more ==> e.Look?
    ensures LastAccepted(events + more) == LastAccepted(events)
    decreases |more|
  {
    if more == [] {
      assert events + more == events;
    } else {
      var n := |more| - 1;
      var all := events + more;
      assert all[..|all| - 1] == events + more[..n];
      assert more[n] in more && all[|all| - 1] == more[n];
      LooksKeepSpeed(events, more[..n]);
    }
  }

  /** What the motor's code does with a speed asked for is the step of a run. */
  lemma SpeedIsCommand(s: State, s': State, v: Int32)
    requires Consistent(s) && s'.stopDir == s.stopDir
    requires if Accepts(v) then s'.speed == v && Consistent(s') else s' == s
    ensures s' == Step(s, Command(v))
  {
  }

  /** An accepted speed stays the motor's speed through looks and refused commands, until another is
      accepted. */
  lemma {:induction false} AcceptedSpeedStays(events: seq<Event>, v: Int32, more: seq<Event>)
    requires Accepts(v) && forall e :: e in more ==> e.Look? || !Accepts(e.speed)
    ensures Run(events + [Command(v)] + more).speed == v
    decreases |more|
  {
    var all := events + [Command(v)] + more;
    if more == [] {
      assert all[..|all| - 1] == events && all[|all| - 1] == Command(v);
    } else {
      var n := |more| - 1;
      assert all[..|all| - 1] == events + [Command(v)] + more[..n];
      assert more[n] in more && all[|all| - 1] == more[n];
      AcceptedSpeedStays(events, v, more[..n]);
    }
  }

  function Sweep(front: bool, frontRange: nat, rear: bool, rearRange: nat): seq<Event> {
    [Look(Front, front, frontRange), Look(Rear, rear, rearRange)]
  }

  /** After a sweep each direction is stopped exactly when its sensor is unavailable or reads less than
      the least distance, whatever went before; what is not stopped goes on at the last speed accepted,
      also if it was asked for while stopped. */
  lemma SweepDecides(events: seq<Event>, front: bool, frontRange: nat, rear: bool, rearRange: nat)
    ensures
      var s, v := Run(events + Sweep(front, frontRange, rear, rearRange)), LastAccepted(events);
      && (Stopped(s.stopDir, Forwards) <==> !front || frontRange < 150)
      && (Stopped(s.stopDir, Backwards) <==> !rear || rearRange < 150)
      && s.speed == v
      && (s.m1 <==> v > 0 && front && frontRange >= 150)
      && (s.m0 <==> v < 0 && rear && rearRange >= 150)
  {
    var sweep := Sweep(front, frontRange, rear, rearRange);
    var all := events + sweep;
    StateIsHistory(all);
    LooksKeepSpeed(events, sweep);
    assert all[..|all| - 1] == events + [sweep[0]];
    assert Near(all, Front) == Near(events + [sweep[0]], Front);
    assert Stopped(Run(all).stopDir, Facing(Front)) <==> Near(all, Front);
    assert Stopped(Run(all).stopDir, Facing(Rear)) <==> Near(all, Rear);
  }

  // --------------------------------------------------------------------------------------------
  // The bound on the speed

  predicate InBounds(s: State) {
    -100 <= s.speed <= 100 && 0 <= s.duty <= 100
  }

  /** The speed keeps to its bounds at every moment of a run exactly if the run never asks for the least
      int, which passes the test because its absolute value is negative. */
  lemma {:induction false} BoundsExactly(events: seq<Event>)
    ensures (forall n: nat :: n <= |events| ==> InBounds(Run(events[..n])))
       <==> Command(INT32_MIN) !in events
    decreases |events|
  {
    if events == [] {
      assert forall n: nat :: n <= |events| ==> events[..n] == [];
    } else {
      var last := |events| - 1;
      var before := events[..last];
      BoundsExactly(before);
      assert events[..|events|] == events;
      assert events == before + [events[last]];
      forall n: nat | n <= last
        ensures events[..n] == before[..n]
      {
      }
      assert before[..last] == before;
      StateIsHistory(events);
      StateIsHistory(before);
    }
  }

  /** The least int is asked for, accepted, and drives the vehicle backwards with a negative duty. */
  lemma LeastIntIsAccepted()
    ensures
      var s := Run([Command(INT32_MIN)]);
      s.speed == s.duty == INT32_MIN && s.m0 && !s.m1 && !InBounds(s)
  {
    var events := [Command(INT32_MIN)];
    assert events[..|events| - 1] == [];
    StateIsHistory([]);
    assert !Near([], Rear);
    assert !Stopped(Run([]).stopDir, Facing(Rear));
  }

  /** The speeds that arrive over the serial link have 16 bits and stay within bounds. */
  lemma {:induction false} LinkSpeedsAreBounded(events: seq<Event>)
    requires forall e :: e in events && e.Command? ==> -0x8000 <= e.speed < 0x8000
    ensures InBounds(Run(events))
  {
    BoundsExactly(events);
    assert events[..|events|] == events;
  }

  // --------------------------------------------------------------------------------------------
  // The code

  class Sensors {
    const motor: Motor
    const available: seq<bool>

    constructor (motor: Motor, available: seq<bool>)
      ensures this.motor == motor && this.available == available
    {
      this.motor, this.available := motor, available;
    }

    /** `range` is what the sensor's own interface gives. */
    method GetChannel(c: nat, range: nat) returns (d: nat)
      requires c < |available|
      ensures d == Reading(available[c], range)
    {
      if !available[c] {
        return 0;
      }
      return range;
    }

    /** Both looks of a sweep; `sent` is what is reported to the host. */
    method CheckOutput(ranges: seq<nat>) returns (sent: seq<nat>)
      requires |available| == |ranges| == 2 && Consistent(motor.Abs())
      modifies motor
      ensures Consistent(motor.Abs())
      ensures motor.Abs() == AfterLooks(old(motor.Abs()), available, ranges, 2)
      ensures sent == seq(2, i requires 0 <= i < 2 => Reading(available[i], ranges[i]))
    {
      sent := [];
      for c := 0 to 2
        invariant Consistent(motor.Abs())
        invariant motor.Abs() == AfterLooks(old(motor.Abs()), available, ranges, c)
        invariant sent == seq(c, i requires 0 <= i < c => Reading(available[i], ranges[i]))
      {
        var d := GetChannel(c, ranges[c]);
        var stop := if c == 0 then MOTOR_ESTOP_FORWARDS else MOTOR_ESTOP_BACKWARDS;
        if d < MINDIST {
          var _ := motor.SeteStop(stop);
        } else {
          var _ := motor.CleareStop(stop);
        }
        sent := sent + [d];
      }
    }
  }

  function ChannelOf(c: nat): Channel {
    if c == 0 then Front else Rear
  }

  /** The looks at the first n sensors. */
  function AfterLooks(s: State, available: seq<bool>, ranges: seq<nat>, n: nat): State
    requires n <= |available| && n <= |ranges|
  {
    if n == 0 then s
    else Step(AfterLooks(s, available, ranges, n - 1), Look(ChannelOf(n - 1), available[n - 1], ranges[n - 1]))
  }

  /** What the code of a sweep does to the motor is what a sweep does in a run. */
  lemma SweepIsLooks(events: seq<Event>, available: seq<bool>, ranges: seq<nat>)
    requires |available| == |ranges| == 2
    ensures
      AfterLooks(Run(events), available, ranges, 2)
      == Run(events + Sweep(available[0], ranges[0], available[1], ranges[1]))
  {
    var sweep := Sweep(available[0], ranges[0], available[1], ranges[1]);
    var all := events + sweep;
    assert all[..|all| - 1] == events + [sweep[0]];
    assert (events + [sweep[0]])[..|events|] == events;
    assert AfterLooks(Run(events), available, ranges, 1) == Run(events + [sweep[0]]);
  }
}
