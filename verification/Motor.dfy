/**
 The drive motor with its emergency stops.

 The speed last asked for and the directions stopped are kept apart: a stop does not change the speed, it
 only keeps it from the output pins, and each change of either works the pins out anew.
 */
module Motor {
  import opened Words

  const MOTOR_ESTOP_FORWARDS: nat := 1
  const MOTOR_ESTOP_BACKWARDS: nat := 2
  const INT32_MIN := -0x8000_0000

  type Int32 = x: int | -0x8000_0000 <= x < 0x8000_0000

  datatype Direction = Off | Forwards | Backwards

  // --------------------------------------------------------------------------------------------
  // Words of stop bits

  /** a & ~b */
  function AndNot(a: nat, b: nat): (r: nat)
    decreases a
  {
    if a == 0 then 0 else (if a % 2 == 1 && b % 2 == 0 then 1 else 0) + 2 * AndNot(a / 2, b / 2)
  }

  /** a & b */
  function And(a: nat, b: nat): (r: nat)
    decreases a
  {
    if a == 0 then 0 else (if a % 2 == 1 && b % 2 == 1 then 1 else 0) + 2 * And(a / 2, b / 2)
  }

  predicate Bit(n: nat, k: nat)
    decreases k, n
  {
    if k == 0 then n % 2 == 1 else Bit(n / 2, k - 1)
  }

  lemma {:induction false} BitOfZero(k: nat)
    ensures !Bit(0, k)
    decreases k
  {
    if k > 0 {
      BitOfZero(k - 1);
    }
  }

  lemma {:induction false} BitOfOr(a: nat, b: nat, k: nat)
    ensures Bit(Or(a, b), k) <==> Bit(a, k) || Bit(b, k)
    decreases k
  {
    OrDigits(a, b);
    if k > 0 {
      BitOfOr(a / 2, b / 2, k - 1);
    }
  }

  lemma {:induction false} BitOfAndNot(a: nat, b: nat, k: nat)
    ensures Bit(AndNot(a, b), k) <==> Bit(a, k) && !Bit(b, k)
    decreases k
  {
    if a == 0 {
      BitOfZero(k);
    } else if k > 0 {
      BitOfAndNot(a / 2, b / 2, k - 1);
    }
  }

  lemma {:induction false} BitOfAnd(a: nat, b: nat, k: nat)
    ensures Bit(And(a, b), k) <==> Bit(a, k) && Bit(b, k)
    decreases k
  {
    if a == 0 {
      BitOfZero(k);
    } else if k > 0 {
      BitOfAnd(a / 2, b / 2, k - 1);
    }
  }

  lemma {:induction false} SomeBit(n: nat) returns (k: nat)
    requires n != 0
    ensures Bit(n, k)
    decreases n
  {
    if n % 2 == 1 {
      k := 0;
    } else {
      k := SomeBit(n / 2);
      k := k + 1;
    }
  }

  /** The test a & b != 0 asks for a bit in common. */
  lemma AndTests(a: nat, b: nat)
    ensures And(a, b) != 0 <==> exists k: nat :: Bit(a, k) && Bit(b, k)
  {
    if And(a, b) != 0 {
      var k := SomeBit(And(a, b));
      BitOfAnd(a, b, k);
    } else {
      forall k: nat
        ensures !(Bit(a, k) && Bit(b, k))
      {
        BitOfAnd(a, b, k);
        BitOfZero(k);
      }
    }
  }

  /** Whether the direction's bit is set. */
  predicate Stopped(stopDir: nat, d: Direction) {
    match d
    case Off => false
    case Forwards => Bit(stopDir, 0)
    case Backwards => Bit(stopDir, 1)
  }

  function StopBit(d: Direction): nat {
    match d
    case Off => 0
    case Forwards => MOTOR_ESTOP_FORWARDS
    case Backwards => MOTOR_ESTOP_BACKWARDS
  }

  lemma StopBits(d: Direction, k: nat)
    ensures Bit(StopBit(d), k) <==> (d == Forwards && k == 0) || (d == Backwards && k == 1)
  {
    if k >= 2 {
      BitOfZero(k);
      BitOfZero(k - 1);
      BitOfZero(k - 2);
    } else if k == 1 {
      BitOfZero(0);
      BitOfZero(1);
      assert Bit(1, 1) == Bit(0, 0);
      assert Bit(2, 1) == Bit(1, 0);
    }
  }

  /** stopDir & MOTOR_ESTOP_FORWARDS, and likewise backwards. */
  lemma StoppedByAnd(stopDir: nat, d: Direction)
    ensures And(stopDir, StopBit(d)) != 0 <==> Stopped(stopDir, d)
  {
    var bit := StopBit(d);
    if And(stopDir, bit) != 0 {
      var k := SomeBit(And(stopDir, bit));
      BitOfAnd(stopDir, bit, k);
      StopBits(d, k);
    } else {
      var k: nat := if d == Forwards then 0 else 1;
      BitOfAnd(stopDir, bit, k);
      BitOfZero(k);
      StopBits(d, k);
    }
  }

  // --------------------------------------------------------------------------------------------
  // Speeds

  /** The C function abs: the least int has no positive counterpart and stays as it is. */
  function Abs32(x: Int32): (r: Int32) {
    if x == INT32_MIN then x else if x < 0 then -x else x
  }

  /** The test that a speed asked for has to pass. */
  predicate Accepts(speed: Int32) {
    Abs32(speed) <= 100
  }

  lemma AcceptsExactly(speed: Int32)
    ensures Accepts(speed) <==> -100 <= speed <= 100 || speed == INT32_MIN
  {
  }

  /** What the output should be. */
  function Drive(speed: int, stopDir: nat): Direction {
    if speed > 0 && !Stopped(stopDir, Forwards) then Forwards
    else if speed < 0 && !Stopped(stopDir, Backwards) then Backwards
    else Off
  }

  /** The motor's state: pin M0 drives it backwards and pin M1 forwards, at `duty` percent. */
  datatype State = State(stopDir: nat, speed: Int32, m0: bool, m1: bool, duty: Int32)

  /** The pins and duty show what Drive says. */
  predicate Shows(s: State, speed: Int32, stopDir: nat) {
    && (s.m0 <==> Drive(speed, stopDir) == Backwards)
    && (s.m1 <==> Drive(speed, stopDir) == Forwards)
    && s.duty == Abs32(speed)
  }

  predicate Consistent(s: State) {
    && Accepts(s.speed)
    && Shows(s, s.speed, s.stopDir)
  }

  class Motor {
    var stopDir: nat
    var speed: Int32
    var m0: bool
    var m1: bool
    var duty: Int32

    ghost function Abs(): State
      reads this
    {
      State(stopDir, speed, m0, m1, duty)
    }

    /** The output is set up with a speed of 0 and no stops. */
    constructor ()
      ensures Consistent(Abs()) && speed == 0 && stopDir == 0
    {
      stopDir, speed, m0, m1, duty := 0, 0, false, false, 50;
      new;
      var _ := Speed(0);
    }

    method RunMotor(d: Direction)
      modifies `m0, `m1, `duty
      ensures m0 == d.Backwards? && m1 == d.Forwards? && duty == Abs32(speed)
    {
      match d {
        case Off =>
          m0 := false;
          m1 := false;
        case Backwards =>
          m0 := true;
          m1 := false;
        case Forwards =>
          m0 := false;
          m1 := true;
      }
      duty := Abs32(speed);
    }

    /** A speed out of range changes nothing. */
    method Speed(speed: Int32) returns (ok: bool)
      modifies `speed, `m0, `m1, `duty
      ensures ok <==> Accepts(speed)
      ensures ok ==> this.speed == speed && Consistent(Abs())
      ensures !ok ==> Abs() == old(Abs())
    {
      if Abs32(speed) > 100 {
        return false;
      }
      this.speed := speed;
      StoppedByAnd(stopDir, Forwards);
      StoppedByAnd(stopDir, Backwards);
      if || speed == 0
         || (speed > 0 && And(stopDir, MOTOR_ESTOP_FORWARDS) != 0)
         || (speed < 0 && And(stopDir, MOTOR_ESTOP_BACKWARDS) != 0) {
        RunMotor(Off);
      } else if speed > 0 {
        RunMotor(Forwards);
      } else {
        RunMotor(Backwards);
      }
      return true;
    }

    method SeteStop(stopDirSet: nat) returns (ok: bool)
      requires Consistent(Abs())
      modifies `stopDir, `speed, `m0, `m1, `duty
      ensures ok && Consistent(Abs()) && speed == old(speed) && stopDir == Or(old(stopDir), stopDirSet)
      ensures forall k :: Bit(stopDir, k) <==> old(Bit(stopDir, k)) || Bit(stopDirSet, k)
    {
      ghost var was := stopDir;
      stopDir := Or(stopDir, stopDirSet);
      ok := Speed(speed);
      forall k
        ensures Bit(stopDir, k) <==> Bit(was, k) || Bit(stopDirSet, k)
      {
        BitOfOr(was, stopDirSet, k);
      }
    }

    method CleareStop(unstopDirSet: nat) returns (ok: bool)
      requires Consistent(Abs())
      modifies `stopDir, `speed, `m0, `m1, `duty
      ensures ok && Consistent(Abs()) && speed == old(speed) && stopDir == AndNot(old(stopDir), unstopDirSet)
      ensures forall k :: Bit(stopDir, k) <==> old(Bit(stopDir, k)) && !Bit(unstopDirSet, k)
    {
      ghost var was := stopDir;
      stopDir := AndNot(stopDir, unstopDirSet);
      ok := Speed(speed);
      forall k
        ensures Bit(stopDir, k) <==> Bit(was, k) && !Bit(unstopDirSet, k)
      {
        BitOfAndNot(was, unstopDirSet, k);
      }
    }

    /** Whether any of the given stop bits is set. */
    method GeteStop(direction: nat) returns (stopped: bool)
      ensures stopped <==> exists k: nat :: Bit(stopDir, k) && Bit(direction, k)
      ensures forall d :: direction == StopBit(d) ==> (stopped <==> Stopped(stopDir, d))
    {
      AndTests(stopDir, direction);
      forall d
        ensures And(stopDir, StopBit(d)) != 0 <==> Stopped(stopDir, d)
      {
        StoppedByAnd(stopDir, d);
      }
      stopped := And(stopDir, direction) != 0;
    }
  }
}
