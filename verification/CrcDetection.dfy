/**
 What the checksum catches.

 Two codewords of equal length - a payload followed by its two checksum bytes, as bits - that differ
 in a burst of at most 16 consecutive bits, wherever it lies, or in an odd number of bits, cannot both
 pass the receiver's test.  The statements hold for every message length.
 */
module CrcDetection {
  import opened Words
  import opened Crc16

  /** A bit string that leaves the register clear. */
  ghost predicate Clean(word: BitString) {
    Feed(Ones(WIDTH), word) == Zeros(WIDTH)
  }

  ghost predicate Passes(codeword: seq<Byte>) {
    Clean(BitsOf(codeword))
  }

  /** What the receiver tests is whether the codeword is clean. */
  lemma ReceiverTestIsPasses(payload: seq<Byte>, high: Byte, low: Byte)
    ensures Crc(payload) == Join(high, low) <==> Passes(payload + [high, low])
  {
    ReceiverTestIsResidue(payload, high, low);
  }

  lemma CodewordPasses(payload: seq<Byte>)
    ensures Passes(payload + Footer(Crc(payload)))
  {
    var sum := Footer(Crc(payload));
    ReceiverTestIsResidue(payload, sum[0], sum[1]);
    assert [sum[0], sum[1]] == sum;
  }

  // --------------------------------------------------------------------------------------------
  // Linearity

  lemma StepLinear(r: BitString, s: BitString, b: bool, c: bool)
    requires |r| == |s| == WIDTH
    ensures ShiftStep(XorBits(r, s), b != c) == XorBits(ShiftStep(r, b), ShiftStep(s, c))
  {
    var left, right := ShiftStep(XorBits(r, s), b != c), XorBits(ShiftStep(r, b), ShiftStep(s, c));
    forall i | 0 <= i < WIDTH
      ensures left[i] == right[i]
    {
    }
  }

  lemma {:induction false} FeedLinear(r: BitString, s: BitString, m: BitString, n: BitString)
    requires |r| == |s| == WIDTH && |m| == |n|
    ensures Feed(XorBits(r, s), XorBits(m, n)) == XorBits(Feed(r, m), Feed(s, n))
    decreases |m|
  {
    if m != [] {
      StepLinear(r, s, m[0], n[0]);
      assert XorBits(m, n)[1..] == XorBits(m[1..], n[1..]);
      FeedLinear(ShiftStep(r, m[0]), ShiftStep(s, n[0]), m[1..], n[1..]);
    }
  }

  lemma XorWithItself(r: BitString)
    ensures XorBits(r, r) == Zeros(|r|)
  {
  }

  /** Two clean words of one length differ by a string that leaves the cleared register clear. */
  lemma DifferenceIsInvisible(a: BitString, b: BitString)
    requires |a| == |b| && Clean(a) && Clean(b)
    ensures Feed(Zeros(WIDTH), XorBits(a, b)) == Zeros(WIDTH)
  {
    FeedLinear(Ones(WIDTH), Ones(WIDTH), a, b);
    XorWithItself(Ones(WIDTH));
    XorWithItself(Zeros(WIDTH));
  }

  // --------------------------------------------------------------------------------------------
  // Bursts

  /** `e` is zero outside the n bits from i on, and not zero there. */
  ghost predicate Burst(e: BitString, i: nat, n: nat) {
    && i + n <= |e|
    && (exists k :: i <= k < i + n && e[k])
    && (forall k :: 0 <= k < |e| && !(i <= k < i + n) ==> !e[k])
  }

  lemma {:induction false} FeedZerosToZero(n: nat)
    ensures Feed(Zeros(WIDTH), Zeros(n)) == Zeros(WIDTH)
    decreases n
  {
    if n != 0 {
      assert Zeros(n)[1..] == Zeros(n - 1);
      assert ShiftStep(Zeros(WIDTH), false) == Zeros(WIDTH);
      FeedZerosToZero(n - 1);
    }
  }

  /** The register is not cleared by zero bits: a step can be undone. */
  lemma {:induction false} FeedZerosKeepsNonZero(r: BitString, n: nat)
    requires |r| == WIDTH && r != Zeros(WIDTH)
    ensures Feed(r, Zeros(n)) != Zeros(WIDTH)
    decreases n
  {
    if n != 0 {
      assert Zeros(n)[1..] == Zeros(n - 1);
      StepClears(r, false, Zeros(WIDTH));
      assert [false] + Zeros(WIDTH)[..15] == Zeros(WIDTH);
      FeedZerosKeepsNonZero(ShiftStep(r, false), n - 1);
    }
  }

  lemma BurstParts(e: BitString, i: nat, n: nat)
    requires Burst(e, i, n)
    ensures e == Zeros(i) + (e[i..i + n] + Zeros(|e| - i - n))
  {
    assert e[..i] == Zeros(i);
    assert e[i + n..] == Zeros(|e| - i - n);
    assert e == e[..i] + (e[i..i + n] + e[i + n..]);
  }

  lemma NonZeroWindow(e: BitString, i: nat, n: nat)
    requires n <= WIDTH && Burst(e, i, n)
    ensures Zeros(WIDTH) != e[i..i + n] + Zeros(WIDTH - n)
  {
    var k :| i <= k < i + n && e[k];
    assert (e[i..i + n] + Zeros(WIDTH - n))[k - i];
  }

  lemma BurstIsVisible(e: BitString, i: nat, n: nat)
    requires n <= WIDTH && Burst(e, i, n)
    ensures Feed(Zeros(WIDTH), e) != Zeros(WIDTH)
  {
    var zero, burst, tail := Zeros(WIDTH), e[i..i + n], |e| - i - n;
    BurstParts(e, i, n);
    FeedConcat(zero, Zeros(i), burst + Zeros(tail));
    FeedZerosToZero(i);
    FeedConcat(zero, burst, Zeros(tail));
    FeedClears(zero, burst);
    NonZeroWindow(e, i, n);
    FeedZerosKeepsNonZero(Feed(zero, burst), tail);
  }

  /** A burst of at most 16 bits, at any bit position and possibly reaching into the checksum, is
      always detected. */
  lemma BurstsAreDetected(a: BitString, b: BitString, i: nat, n: nat)
    requires |a| == |b| && n <= WIDTH && Burst(XorBits(a, b), i, n)
    ensures !(Clean(a) && Clean(b))
  {
    if Clean(a) && Clean(b) {
      DifferenceIsInvisible(a, b);
      BurstIsVisible(XorBits(a, b), i, n);
      assert false;
    }
  }

  /** The bound is tight: the generator itself, a burst of 17 bits, goes unnoticed. */
  lemma SeventeenBitBurstUndetected(e: BitString)
    requires e == [true] + GENERATOR
    ensures Burst(e, 0, 17)
    ensures Feed(Zeros(WIDTH), e) == Zeros(WIDTH)
  {
    assert e[0];
    assert e[1..] == GENERATOR;
    var r := ShiftStep(Zeros(WIDTH), e[0]);
    assert r == GENERATOR by {
      assert r == XorBits(Zeros(WIDTH)[1..] + [false], GENERATOR);
      assert Zeros(WIDTH)[1..] + [false] == Zeros(WIDTH);
    }
    FeedClears(r, GENERATOR);
    assert GENERATOR + Zeros(0) == GENERATOR;
  }

  // --------------------------------------------------------------------------------------------
  // Odd numbers of errors

  /** Whether `s` holds an odd number of ones. */
  ghost predicate Odd(s: BitString) {
    if s == [] then false else s[0] != Odd(s[1..])
  }

  lemma {:induction false} OddOfConcat(a: BitString, b: BitString)
    ensures Odd(a + b) == (Odd(a) != Odd(b))
    decreases |a|
  {
    if a == [] {
      assert a + b == b;
    } else {
      assert (a + b)[1..] == a[1..] + b;
      OddOfConcat(a[1..], b);
    }
  }

  lemma {:induction false} OddOfXor(a: BitString, b: BitString)
    requires |a| == |b|
    ensures Odd(XorBits(a, b)) == (Odd(a) != Odd(b))
    decreases |a|
  {
    if a != [] {
      assert XorBits(a, b)[1..] == XorBits(a[1..], b[1..]);
      OddOfXor(a[1..], b[1..]);
    }
  }

  lemma {:induction false} OddOfZeros(n: nat)
    ensures !Odd(Zeros(n))
    decreases n
  {
    if n != 0 {
      assert Zeros(n)[1..] == Zeros(n - 1);
      OddOfZeros(n - 1);
    }
  }

  lemma {:induction false} EvenOnes(n: nat)
    ensures !Odd(Ones(2 * n))
    decreases n
  {
    if n != 0 {
      assert Ones(2 * n)[1..][1..] == Ones(2 * (n - 1));
      EvenOnes(n - 1);
    }
  }

  /** The generator has four terms, so its 16 low coefficients hold three ones. */
  lemma GeneratorIsOdd()
    ensures Odd(GENERATOR)
  {
    assert GENERATOR == (Zeros(3) + [true]) + ((Zeros(6) + [true]) + (Zeros(4) + [true]));
    OddOfZeros(3);
    OddOfZeros(6);
    OddOfZeros(4);
    assert [true][1..] == [];
    OddOfConcat(Zeros(3), [true]);
    OddOfConcat(Zeros(6), [true]);
    OddOfConcat(Zeros(4), [true]);
    OddOfConcat(Zeros(6) + [true], Zeros(4) + [true]);
    OddOfConcat(Zeros(3) + [true], (Zeros(6) + [true]) + (Zeros(4) + [true]));
  }

  lemma StepParity(r: BitString, bit: bool)
    requires |r| == WIDTH
    ensures Odd(ShiftStep(r, bit)) == (Odd(r) != bit)
  {
    var shifted := r[1..] + [false];
    OddOfConcat(r[1..], [false]);
    assert [false][1..] == [];
    assert Odd(r) == (r[0] != Odd(shifted));
    OddOfXor(shifted, GENERATOR);
    GeneratorIsOdd();
  }

  /** The parity of the register and everything fed to it never changes. */
  lemma {:induction false} FeedParity(r: BitString, m: BitString)
    requires |r| == WIDTH
    ensures Odd(Feed(r, m)) == (Odd(r) != Odd(m))
    decreases |m|
  {
    if m != [] {
      StepParity(r, m[0]);
      FeedParity(ShiftStep(r, m[0]), m[1..]);
    }
  }

  /** Payload and checksum together always hold an even number of ones. */
  lemma CodewordsAreEven(payload: seq<Byte>)
    ensures !Odd(BitsOf(payload + Footer(Crc(payload))))
  {
    CodewordPasses(payload);
    CleanIsEven(BitsOf(payload + Footer(Crc(payload))));
  }

  lemma CleanIsEven(word: BitString)
    requires Clean(word)
    ensures !Odd(word)
  {
    FeedParity(Ones(WIDTH), word);
    OddOfZeros(WIDTH);
    EvenOnes(8);
  }

  /** Any odd number of flipped bits is always detected. */
  lemma OddErrorsAreDetected(a: BitString, b: BitString)
    requires |a| == |b| && Odd(XorBits(a, b))
    ensures !(Clean(a) && Clean(b))
  {
    OddOfXor(a, b);
    if Clean(a) && Clean(b) {
      CleanIsEven(a);
      CleanIsEven(b);
      assert false;
    }
  }
}
