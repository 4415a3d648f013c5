/**
 The quadrature decoder of the rotary encoder.

 The encoder's two contacts give two bits, of which a turn of the shaft changes one at a time, in the
 cyclic order 00, 10, 11, 01.  Each interrupt shifts the two bits in behind the previous two and adds the
 table entry for the four to the position.
 */
module Rotenc {
  import opened Modular

  /** The two contacts: 2 * A + B. */
  type Code = x: int | 0 <= x < 4

  const MOVE_TABLE: seq<int> := [0, -1, 1, 0, 1, 0, 0, -1, -1, 0, 0, 1, 0, 1, -1, 0]

  /** Assignment to a 32-bit int. */
  function Wrap32(x: int): (r: int)
    ensures -0x8000_0000 <= r < 0x8000_0000
  {
    (x + 0x8000_0000) % 0x1_0000_0000 - 0x8000_0000
  }

  class Encoder {
    var ab: nat   // 32 bits, of which the low four are used
    var psn: int

    ghost function Abs(): (s: State)
      reads this
    {
      State(ab, psn)
    }

    constructor ()
      ensures Abs() == State(0, 0)
    {
      ab, psn := 0, 0;
    }

    /** The interrupt handler of either contact. */
    method Check(a: bool, b: bool)
      requires InRange(Abs())
      modifies this
      ensures InRange(Abs())
      ensures Abs() == Sampled(old(Abs()), (if a then 2 else 0) + (if b then 1 else 0))
      ensures psn == Wrap32(old(psn) + Move(old(ab) % 4, ab % 4))
    {
      hide Wrap32;
      hide Move;
      var c: Code := (if a then 2 else 0) + (if b then 1 else 0);
      SampledMoves(Abs(), c);
      var shifted := (ab * 4) % 0x1_0000_0000 + c;
      ab := shifted;
      psn := Wrap32(psn + MOVE_TABLE[shifted % 16]);
    }
  }

  datatype State = State(ab: nat, psn: int)

  predicate InRange(s: State) {
    s.ab < 0x1_0000_0000 && -0x8000_0000 <= s.psn < 0x8000_0000
  }

  /** One interrupt. */
  function Sampled(s: State, c: Code): State {
    var ab := (s.ab * 4) % 0x1_0000_0000 + c;
    State(ab, Wrap32(s.psn + MOVE_TABLE[ab % 16]))
  }

  function SampledAll(s: State, samples: seq<Code>): State
    decreases |samples|
  {
    if samples == [] then s else SampledAll(Sampled(s, samples[0]), samples[1..])
  }

  /** The low four bits of the shifted word are the last code and the new one. */
  lemma ShiftIn(ab: nat, c: Code)
    ensures
      var ab' := (ab * 4) % 0x1_0000_0000 + c;
      ab' < 0x1_0000_0000 && ab' % 4 == c && ab' % 16 == (ab % 4) * 4 + c
  {
    var q, k := ab / 0x4000_0000, ab % 0x4000_0000;
    assert ab == q * 0x4000_0000 + k;
    ModUnique(ab * 4, 0x1_0000_0000, q, k * 4);
    ModUnique(k * 4 + c, 4, k, c);
    ModUnique(k * 4 + c, 16, k / 4, (k % 4) * 4 + c);
    assert ab % 4 == k % 4 by {
      ModUnique(ab, 4, q * 0x1000_0000 + k / 4, k % 4);
    }
  }

  lemma WrapOfWrap(x: int, y: int)
    ensures Wrap32(Wrap32(x) + y) == Wrap32(x + y)
  {
    var m := 0x1_0000_0000;
    var k, q := (x + 0x8000_0000) / m, (Wrap32(x) + y + 0x8000_0000) / m;
    assert Wrap32(x) == x - k * m;
    assert x + y + 0x8000_0000 == (k + q) * m + (Wrap32(x) + y + 0x8000_0000) % m;
    ModUnique(x + y + 0x8000_0000, m, k + q, (Wrap32(x) + y + 0x8000_0000) % m);
  }

  // --------------------------------------------------------------------------------------------
  // What the table means

  function Move(from: Code, to: Code): int {
    MOVE_TABLE[from * 4 + to]
  }

  /** Where in its cycle a code stands. */
  function Phase(c: Code): (r: Code) {
    if c == 0 then 0 else if c == 2 then 1 else if c == 3 then 2 else 3
  }

  /** How many places on in its cycle one code is from another; two, if both bits changed. */
  function Turn(from: Code, to: Code): (r: Code) {
    if Phase(to) >= Phase(from) then Phase(to) - Phase(from) else Phase(to) - Phase(from) + 4
  }

  /** One place on in the cycle counts 1, one place back counts -1, the same place and both bits changed
      count 0. */
  lemma TableIsSignedStep(from: Code, to: Code)
    ensures
      var d := Turn(from, to);
      Move(from, to) == if d == 1 then 1 else if d == 3 then -1 else 0
  {
  }

  /** A turn that counts up takes the codes in the order 00, 10, 11, 01. */
  lemma CountingUp()
    ensures Move(0, 2) == Move(2, 3) == Move(3, 1) == Move(1, 0) == 1
  {
  }

  // --------------------------------------------------------------------------------------------
  // Sequences of samples

  function Last(from: Code, samples: seq<Code>): Code {
    if samples == [] then from else samples[|samples| - 1]
  }

  /** The position's change, before it is cut to 32 bits. */
  function Travel(from: Code, samples: seq<Code>): int
    decreases |samples|
  {
    if samples == [] then 0 else Move(from, samples[0]) + Travel(samples[0], samples[1..])
  }

  lemma WrapInRange(x: int)
    requires -0x8000_0000 <= x < 0x8000_0000
    ensures Wrap32(x) == x
  {
  }

  lemma SampledMoves(s: State, c: Code)
    requires InRange(s)
    ensures
      var s' := Sampled(s, c);
      InRange(s') && s'.ab % 4 == c && s'.psn == Wrap32(s.psn + Move(s.ab % 4, c))
  {
    hide Wrap32;
    ShiftIn(s.ab, c);
  }

  /** After any sequence of interrupts the position has moved by the travel of their samples, cut to 32
      bits once, and the last code is kept for the next. */
  lemma {:induction false} PositionIsTravel(s: State, samples: seq<Code>)
    requires InRange(s)
    ensures
      var s' := SampledAll(s, samples);
      && InRange(s')
      && s'.psn == Wrap32(s.psn + Travel(s.ab % 4, samples))
      && s'.ab % 4 == Last(s.ab % 4, samples)
    decreases |samples|
  {
    hide Sampled;
    hide Move;
    hide Wrap32;
    if samples == [] {
      WrapInRange(s.psn);
    } else {
      hide Last;
      var from: Code, to, rest := s.ab % 4, samples[0], samples[1..];
      SampledMoves(s, to);
      LastOfRest(from, samples);
      var s1 := Sampled(s, to);
      PositionIsTravel(s1, rest);
      WrapOfWrap(s.psn + Move(from, to), Travel(to, rest));
      assert SampledAll(s, samples) == SampledAll(s1, rest);
      assert Travel(from, samples) == Move(from, to) + Travel(to, rest);
    }
  }

  /** How many samples are d places on from the one before. */
  function Steps(from: Code, samples: seq<Code>, d: int): nat
    decreases |samples|
  {
    if samples == [] then 0
    else (if Turn(from, samples[0]) == d then 1 else 0) + Steps(samples[0], samples[1..], d)
  }

  /** The position moves by the steps forward less the steps back. */
  lemma {:induction false} TravelIsSignedCount(from: Code, samples: seq<Code>)
    ensures Travel(from, samples) == Steps(from, samples, 1) - Steps(from, samples, 3)
    decreases |samples|
  {
    if samples != [] {
      TableIsSignedStep(from, samples[0]);
      TravelIsSignedCount(samples[0], samples[1..]);
    }
  }

  lemma LastOfRest(from: Code, samples: seq<Code>)
    requires samples != []
    ensures Last(samples[0], samples[1..]) == Last(from, samples)
  {
  }

  /** Turns add up, to whole cycles. */
  lemma TurnsAdd(a: Code, b: Code, c: Code)
    ensures Turn(a, b) + Turn(b, c) == Turn(a, c) || Turn(a, b) + Turn(b, c) == Turn(a, c) + 4
  {
    hide Phase;
  }

  /** The whole cycles of a path. */
  lemma {:induction false} WholeCycles(from: Code, samples: seq<Code>) returns (q: int)
    ensures Travel(from, samples) + 2 * Steps(from, samples, 2) == 4 * q + Turn(from, Last(from, samples))
    decreases |samples|
  {
    if samples == [] {
      q := 0;
    } else {
      hide Move;
      hide Turn;
      hide Last;
      var to, rest := samples[0], samples[1..];
      q := WholeCycles(to, rest);
      LastOfRest(from, samples);
      TableIsSignedStep(from, to);
      TurnsAdd(from, to, Last(to, rest));
      if Turn(from, to) == 3 {
        q := q - 1;
      }
      if Turn(from, to) + Turn(to, Last(to, rest)) != Turn(from, Last(to, rest)) {
        q := q + 1;
      }
    }
  }

  /** For every sequence of samples, the position is fixed to a multiple of 4 by the first code, the last
      code and the number of jumps: each jump puts it out by two. */
  lemma TravelModFour(from: Code, samples: seq<Code>)
    ensures (Travel(from, samples) + 2 * Steps(from, samples, 2)) % 4 == Turn(from, Last(from, samples))
  {
    hide Turn;
    var q := WholeCycles(from, samples);
    ModUnique(Travel(from, samples) + 2 * Steps(from, samples, 2), 4, q, Turn(from, Last(from, samples)));
  }

  lemma EvenJumps(t: int, k: nat, p: Code)
    requires (t + 2 * k) % 4 == p
    ensures p == if k % 2 == 0 then t % 4 else if t % 4 < 2 then t % 4 + 2 else t % 4 - 2
  {
    var j, u := k / 2, t + 2 * (k % 2);
    ModUnique(t + 2 * k, 4, u / 4 + j, u % 4);
    if k % 2 == 1 {
      if t % 4 < 2 {
        ModUnique(t + 2, 4, t / 4, t % 4 + 2);
      } else {
        ModUnique(t + 2, 4, t / 4 + 1, t % 4 - 2);
      }
    }
  }

  /** Without jumps the first and the last code fix the position to a multiple of 4; with jumps they do so
      exactly if the jumps are even in number. */
  lemma PhaseFixesPosition(from: Code, samples: seq<Code>)
    ensures
      Travel(from, samples) % 4 == Turn(from, Last(from, samples))
      <==> Steps(from, samples, 2) % 2 == 0
  {
    hide Turn;
    TravelModFour(from, samples);
    EvenJumps(Travel(from, samples), Steps(from, samples, 2), Turn(from, Last(from, samples)));
  }

  /** A path that ends where it began moves the position by whole cycles, if it had an even number of
      jumps, and by half a cycle more otherwise. */
  lemma ClosedPaths(from: Code, samples: seq<Code>)
    requires Last(from, samples) == from
    ensures Travel(from, samples) % 4 == if Steps(from, samples, 2) % 2 == 0 then 0 else 2
  {
    assert Turn(from, from) == 0;
    hide Turn;
    TravelModFour(from, samples);
    EvenJumps(Travel(from, samples), Steps(from, samples, 2), 0);
  }

  lemma {:induction false} Extend(from: Code, samples: seq<Code>, c: Code)
    ensures Last(from, samples + [c]) == c
    ensures Travel(from, samples + [c]) == Travel(from, samples) + Move(Last(from, samples), c)
    decreases |samples|
  {
    if samples == [] {
      assert samples + [c] == [c];
      assert [c][1..] == [];
    } else {
      assert (samples + [c])[1..] == samples[1..] + [c];
      Extend(samples[0], samples[1..], c);
    }
  }

  /** The same codes in the opposite order, back to the first. */
  function Backwards(from: Code, samples: seq<Code>): (r: seq<Code>)
    ensures |r| == |samples|
    decreases |samples|
  {
    if samples == [] then [] else Backwards(samples[0], samples[1..]) + [from]
  }

  lemma OppositeSteps(from: Code, to: Code)
    ensures Move(from, to) + Move(to, from) == 0
  {
  }

  /** The codes of a path in the opposite order bring the position back to where it was, jumps or none. */
  lemma {:induction false} BackwardsRestores(from: Code, samples: seq<Code>)
    ensures
      var last := Last(from, samples);
      && Travel(from, samples) + Travel(last, Backwards(from, samples)) == 0
      && Last(last, Backwards(from, samples)) == from
    decreases |samples|
  {
    if samples != [] {
      hide Move;
      hide Last;
      BackwardsRestores(samples[0], samples[1..]);
      LastOfRest(from, samples);
      Extend(Last(from, samples), Backwards(samples[0], samples[1..]), from);
      OppositeSteps(from, samples[0]);
    }
  }

  /** ... and that holds of the 32-bit position too. */
  lemma BackwardsRestores32(from: Code, samples: seq<Code>, psn: int)
    requires Wrap32(psn) == psn
    ensures
      Wrap32(Wrap32(psn + Travel(from, samples))
             + Travel(Last(from, samples), Backwards(from, samples))) == psn
  {
    BackwardsRestores(from, samples);
    WrapOfWrap(psn + Travel(from, samples), Travel(Last(from, samples), Backwards(from, samples)));
  }
}
