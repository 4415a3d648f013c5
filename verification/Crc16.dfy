/**
 The checksum of the LMS serial link.

 `Crc` is its specification: the bits of a message fed, one at a time, to a shift register that starts
 as 16 ones.  `CrcIsPolynomialRemainder` ties it to schoolbook long division by the generator
 x^16 + x^12 + x^5 + 1 (section 2 of ITU-T V.41), and the methods `ComputeCrc` and `PyCrc16`, the
 byte-at-a-time loops of the vehicle firmware and of the Python host, are proved to compute it.
 */
module Crc16 {
  import opened Words

  const WIDTH := 16

  // --------------------------------------------------------------------------------------------
  // Polynomial long division, and the shift register that performs it one bit at a time

  /** The generator without its leading term: 0x1021. */
  const GENERATOR: BitString := [false, false, false, true, false, false, false, false,
                                 false, false, true, false, false, false, false, true]

  /** Bit i of a remainder is the coefficient of x^(15-i): with the x^16 that is implied, the generator is
      x^16 + x^12 + x^5 + 1. */
  lemma GeneratorTerms(i: nat)
    requires i < WIDTH
    ensures |GENERATOR| == WIDTH
    ensures GENERATOR[i] <==> WIDTH - 1 - i in {12, 5, 0}
  {
  }

  /** The remainder of the polynomial `s` modulo the generator: while the string is longer than the
      remainder, cancel its leading term by subtracting the generator aligned to it. */
  function Remainder(s: BitString): (r: BitString)
    requires |s| >= WIDTH
    ensures |r| == WIDTH
    decreases |s|
  {
    if |s| == WIDTH then s
    else if s[0] then Remainder(XorBits(s[1..17], GENERATOR) + s[17..])
    else Remainder(s[1..])
  }

  function ShiftStep(r: BitString, bit: bool): (r': BitString)
    requires |r| == WIDTH
    ensures |r'| == WIDTH
  {
    var shifted := r[1..] + [false];
    if r[0] != bit then XorBits(shifted, GENERATOR) else shifted
  }

  function Feed(r: BitString, m: BitString): (r': BitString)
    requires |r| == WIDTH
    ensures |r'| == WIDTH
    decreases |m|
  {
    if m == [] then r else Feed(ShiftStep(r, m[0]), m[1..])
  }

  function BitsOf(data: seq<Byte>): (r: BitString)
    ensures |r| == 8 * |data|
  {
    if data == [] then [] else Bits(data[0], 8) + BitsOf(data[1..])
  }

  /** The checksum of a message. */
  function Crc(data: seq<Byte>): (r: BitString)
    ensures |r| == WIDTH
  {
    Feed(Ones(WIDTH), BitsOf(data))
  }

  /** The two checksum bytes in the order in which they travel. */
  function Footer(crc: BitString): (r: seq<Byte>)
    requires |crc| == WIDTH
    ensures |r| == 2
  {
    [ByteOf(crc[..8]), ByteOf(crc[8..])]
  }

  /** How the receiver puts the two bytes back together. */
  function Join(high: Byte, low: Byte): (r: BitString)
    ensures |r| == WIDTH
  {
    Bits(high, 8) + Bits(low, 8)
  }

  /** `s` with `preset` added to its 16 leading bits. */
  function Preset(preset: BitString, s: BitString): (r: BitString)
    requires |preset| == WIDTH <= |s|
    ensures |r| == |s|
  {
    XorBits(preset, s[..WIDTH]) + s[WIDTH..]
  }

  lemma {:induction false} FeedConcat(r: BitString, a: BitString, b: BitString)
    requires |r| == WIDTH
    ensures Feed(r, a + b) == Feed(Feed(r, a), b)
    decreases |a|
  {
    if a == [] {
      assert a + b == b;
    } else {
      assert (a + b)[1..] == a[1..] + b;
      FeedConcat(ShiftStep(r, a[0]), a[1..], b);
    }
  }

  lemma {:induction false} BitsOfConcat(a: seq<Byte>, b: seq<Byte>)
    ensures BitsOf(a + b) == BitsOf(a) + BitsOf(b)
    decreases |a|
  {
    if a == [] {
      assert a + b == b;
    } else {
      assert (a + b)[1..] == a[1..] + b;
      BitsOfConcat(a[1..], b);
    }
  }

  // --------------------------------------------------------------------------------------------
  // The byte-at-a-time form is the shift register

  /** One turn of the firmware loop: the temporary is a uint8_t, the sum a uint16_t. */
  function Fold(crc: Word16, b: Byte): Word16 {
    var x := Low(Xor(Shr(crc, 8), b), 8);
    var folded := Xor(x, Shr(x, 4));
    var sum := Xor(Xor(Xor(Shl(crc, 8), Low(Shl(folded, 12), 16)), Low(Shl(folded, 5), 16)), folded);
    LowOf16(sum);
    Low(sum, 16)
  }

  /** One turn of the host loop, on unbounded integers: every term of the sum is masked to 16 bits, and
      the temporary, unlike in `Fold`, is never cut to a byte. */
  function PyFold(crc: nat, b: nat): nat {
    var tmp := Xor(Shr(crc, 8), b);
    var folded := Xor(tmp, Shr(tmp, 4));
    Xor(Xor(Xor(Low(Shl(crc, 8), 16), Low(Shl(folded, 12), 16)), Low(Shl(folded, 5), 16)), Low(folded, 16))
  }

  function Register(crc: Word16): (r: BitString)
    ensures |r| == WIDTH
  {
    Bits(crc, WIDTH)
  }

  /** Bit n of s, where everything outside the first `limit` bits reads as zero. */
  function At(s: BitString, limit: int, n: int): bool
    requires limit <= |s|
  {
    0 <= n < limit && s[n]
  }

  /** The bits fed back while one byte goes through the register `c`: the byte added to the register's
      upper half, x, and to that x moved four places. */
  function FeedbackBits(c: BitString, m: BitString): (f: BitString)
    requires |c| == WIDTH && |m| == 8
    ensures |f| == 8
    ensures forall k :: 0 <= k < 8 ==> f[k] == ((c[k] != m[k]) != At(f, k, k - 4))
  {
    var x := XorBits(c[..8], m);
    XorBits(x, Zeros(4) + x[..4])
  }

  /** Bit i of the register after j bits: the old register moved j places, and each of the j bits fed
      back so far at the three taps of the generator, moved on since. */
  function TappedBit(c: BitString, f: BitString, j: nat, i: int): bool
    requires |c| == WIDTH && j <= |f|
  {
    At(c, WIDTH, i + j) != (At(f, j, i + j - 4) != (At(f, j, i + j - 11) != At(f, j, i + j - 16)))
  }

  lemma TapStep(c: BitString, f: BitString, r: BitString, bit: bool, j: nat)
    requires |c| == |r| == WIDTH && |f| == 8 && j < 8
    requires forall i :: 0 <= i < WIDTH ==> r[i] == TappedBit(c, f, j, i)
    requires (r[0] != bit) == f[j]
    ensures forall i :: 0 <= i < WIDTH ==> ShiftStep(r, bit)[i] == TappedBit(c, f, j + 1, i)
  {
    var r' := ShiftStep(r, bit);
    forall i | 0 <= i < WIDTH
      ensures r'[i] == TappedBit(c, f, j + 1, i)
    {
      assert r'[i] == ((i < 15 && r[i + 1]) != (f[j] && GENERATOR[i]));
      assert At(f, j + 1, i + j - 3) == (At(f, j, i + j - 3) != (i == 3 && f[j]));
      assert At(f, j + 1, i + j - 10) == (At(f, j, i + j - 10) != (i == 10 && f[j]));
      assert At(f, j + 1, i + j - 15) == (At(f, j, i + j - 15) != (i == 15 && f[j]));
      if i < 15 {
        assert r[i + 1] == TappedBit(c, f, j, i + 1);
      }
    }
  }

  lemma TappedFeedback(c: BitString, m: BitString, j: nat)
    requires |c| == WIDTH && |m| == 8 && j < 8
    ensures (TappedBit(c, FeedbackBits(c, m), j, 0) != m[j]) == FeedbackBits(c, m)[j]
  {
  }

  lemma {:induction false} FeedTaps(c: BitString, m: BitString, j: nat)
    requires |c| == WIDTH && |m| == 8 && j <= 8
    ensures forall i :: 0 <= i < WIDTH ==> Feed(c, m[..j])[i] == TappedBit(c, FeedbackBits(c, m), j, i)
    decreases j
  {
    var f := FeedbackBits(c, m);
    if j != 0 {
      hide ShiftStep;
      hide FeedbackBits;
      hide TappedBit;
      FeedTaps(c, m, j - 1);
      var r := Feed(c, m[..j - 1]);
      assert m[..j] == m[..j - 1] + [m[j - 1]];
      FeedConcat(c, m[..j - 1], [m[j - 1]]);
      assert Feed(r, [m[j - 1]]) == ShiftStep(r, m[j - 1]);
      TappedFeedback(c, m, j - 1);
      TapStep(c, f, r, m[j - 1], j - 1);
    }
  }

  /** The sum that one turn of the firmware loop forms, bit by bit. */
  function FoldedSum(c: BitString, f: BitString): (r: BitString)
    requires |c| == WIDTH && |f| == 8
    ensures |r| == WIDTH
  {
    XorBits(XorBits(XorBits(c[8..] + Zeros(8), f[4..] + Zeros(12)), Zeros(3) + f + Zeros(5)), Zeros(8) + f)
  }

  lemma FoldedSumIsFeed(c: BitString, m: BitString)
    requires |c| == WIDTH && |m| == 8
    ensures FoldedSum(c, FeedbackBits(c, m)) == Feed(c, m)
  {
    var f := FeedbackBits(c, m);
    var s := FoldedSum(c, f);
    FeedTaps(c, m, 8);
    assert m[..8] == m && f[..8] == f;
    forall i | 0 <= i < WIDTH
      ensures s[i] == TappedBit(c, f, 8, i)
    {
      assert (Zeros(3) + f + Zeros(5))[i] == At(f, 8, i - 3);
      assert (Zeros(8) + f)[i] == At(f, 8, i - 8);
    }
  }

  /** The bits of a masked left shift. */
  lemma BitsOfMaskedShl(n: nat, k: nat, w: nat)
    ensures Bits(Low(Shl(n, k), w + k), w + k) == Bits(n, w) + Zeros(k)
  {
    BitsOfLow(Shl(n, k), w + k);
    BitsOfShl(n, k, w);
  }

  lemma BitsOfTemporary(crc: Word16, b: Byte, x: nat, h: nat)
    requires h == 8 && x == Low(Xor(Shr(crc, h), b), h)
    ensures Bits(x, h) == XorBits(Bits(crc, h + h)[..h], Bits(b, h))
  {
    BitsOfLow(Xor(Shr(crc, h), b), h);
    BitsOfXor(Shr(crc, h), b, h);
    BitsOfShr(crc, h, h);
  }

  lemma BitsOfFolded(x: nat, q: nat, folded: nat)
    requires q == 4 && Low(x, q + q) == x && folded == Xor(x, Shr(x, q))
    ensures Bits(folded, q + q) == XorBits(Bits(x, q + q), Zeros(q) + Bits(x, q + q)[..q])
    ensures Low(folded, q + q) == folded
  {
    BitsOfXor(x, Shr(x, q), q + q);
    BitsOfShr(x, q, q + q);
    LowFits(x, q + q);
    assert Bits(x, q + q + q) == Zeros(q) + Bits(x, q + q);
    ShrFits(x, q, q + q);
    XorFits(x, Shr(x, q), q + q);
  }

  lemma BitsOfSum(crc: Word16, f: nat, w: nat)
    requires w == 8 && Low(f, w) == f
    ensures
      var sum := Xor(Xor(Xor(Shl(crc, 8), Low(Shl(f, 12), 16)), Low(Shl(f, 5), 16)), f);
      Bits(Low(sum, w + w), w + w) == FoldedSum(Bits(crc, w + w), Bits(f, w))
  {
    var k, a, b, c := 4, Shl(crc, 8), Low(Shl(f, 12), 16), Low(Shl(f, 5), 16);
    BitsOfLow(Xor(Xor(Xor(a, b), c), f), w + w);
    BitsOfXor(Xor(Xor(a, b), c), f, w + w);
    BitsOfXor(Xor(a, b), c, w + w);
    BitsOfXor(a, b, w + w);
    BitsOfShl(crc, w, w);
    LowBits(crc, w, w);
    BitsOfMaskedShl(f, w + k, k);
    LowBits(f, k, k);
    BitsOfMaskedShl(f, k + 1, w + k - 1);
    LowFits(f, w);
    assert Bits(f, w + (k - 1)) == Zeros(k - 1) + Bits(f, w);
    assert Bits(f, w + w) == Zeros(w) + Bits(f, w);
  }

  lemma FoldIsFeed(crc: Word16, b: Byte)
    ensures Register(Fold(crc, b)) == Feed(Register(crc), Bits(b, 8))
  {
    var w, q := 8, 4;
    var x := Low(Xor(Shr(crc, 8), b), 8);
    var folded := Xor(x, Shr(x, 4));
    BitsOfTemporary(crc, b, x, w);
    LowIdempotent(Xor(Shr(crc, 8), b), w);
    BitsOfFolded(x, q, folded);
    BitsOfSum(crc, folded, w);
    assert Bits(folded, w) == FeedbackBits(Register(crc), Bits(b, w));
    FoldedSumIsFeed(Register(crc), Bits(b, w));
  }

  /** Continuing a checksum with one more byte. */
  lemma CrcOfOneMore(data: seq<Byte>, b: Byte)
    ensures Crc(data + [b]) == Feed(Crc(data), Bits(b, 8))
  {
    BitsOfConcat(data, [b]);
    assert [b][1..] == [];
    assert BitsOf([b]) == Bits(b, 8) + [] == Bits(b, 8);
    FeedConcat(Ones(WIDTH), BitsOf(data), Bits(b, 8));
  }

  lemma PresetIsOnes()
    ensures Register(0xFFFF) == Ones(WIDTH)
  {
    PowersOfTwo();
    BitsOfOnes(0xFFFF, WIDTH);
  }

  lemma EmptyCrc()
    ensures Register(0xFFFF) == Crc([])
  {
    PresetIsOnes();
  }

  /** The firmware's loop.  The countdown is a uint8_t. */
  method ComputeCrc(data: array<Byte>, from: nat, length: Byte) returns (crc: Word16)
    requires from + length <= data.Length
    ensures Register(crc) == Crc(data[from..from + length])
  {
    hide Fold;
    hide Crc;
    hide Register;
    crc := 0xFFFF;
    EmptyCrc();
    assert data[from..from] == [];
    var n: nat, i := length, from;
    while n != 0
      invariant n <= length && i == from + (length - n)
      invariant Register(crc) == Crc(data[from..i])
    {
      n := n - 1;
      CrcOfOneMore(data[from..i], data[i]);
      assert data[from..i + 1] == data[from..i] + [data[i]];
      FoldIsFeed(crc, data[i]);
      crc := Fold(crc, data[i]);
      i := i + 1;
    }
  }

  // --------------------------------------------------------------------------------------------
  // The shift register is long division

  /** Dividing the register, added to the 16 leading bits of what is still to come, is feeding what is
      still to come through the register. */
  lemma {:induction false} FeedIsRemainder(r: BitString, m: BitString)
    requires |r| == WIDTH
    ensures Remainder(Preset(r, m + Zeros(WIDTH))) == Feed(r, m)
    decreases |m|
  {
    if m == [] {
      assert Preset(r, m + Zeros(WIDTH)) == r;
    } else {
      var z := m + Zeros(WIDTH);
      var s := Preset(r, z);
      var r' := ShiftStep(r, m[0]);
      var s' := Preset(r', m[1..] + Zeros(WIDTH));
      assert m[1..] + Zeros(WIDTH) == z[1..];
      assert s[0] == (r[0] != m[0]);
      if s[0] {
        var t := XorBits(s[1..17], GENERATOR) + s[17..];
        forall i | 0 <= i < |s'|
          ensures s'[i] == t[i]
        {
          if i < WIDTH {
            assert s'[i] == (r'[i] != z[i + 1]);
            assert t[i] == (s[i + 1] != GENERATOR[i]);
          }
        }
        assert s' == t;
      } else {
        assert s' == s[1..];
      }
      FeedIsRemainder(r', m[1..]);
    }
  }

  /** The checksum of a message is the remainder of the message, extended by 16 zero bits and with its
      first 16 bits inverted, divided by the generator. */
  lemma CrcIsPolynomialRemainder(data: seq<Byte>)
    ensures Crc(data) == Remainder(Preset(Ones(WIDTH), BitsOf(data) + Zeros(WIDTH)))
  {
    FeedIsRemainder(Ones(WIDTH), BitsOf(data));
  }

  // --------------------------------------------------------------------------------------------
  // Firmware and host agree

  /** Masking every term of the sum or masking the sum is the same. */
  lemma MaskedSum(a: nat, b: nat, c: nat, f: nat, w: nat)
    ensures Low(Xor(Xor(Xor(a, Low(b, w)), Low(c, w)), f), w)
         == Xor(Xor(Xor(Low(a, w), Low(b, w)), Low(c, w)), Low(f, w))
  {
    LowOfXor(Xor(Xor(a, Low(b, w)), Low(c, w)), f, w);
    LowOfXor(Xor(a, Low(b, w)), Low(c, w), w);
    LowOfXor(a, Low(b, w), w);
    LowIdempotent(b, w);
    LowIdempotent(c, w);
  }

  lemma TemporaryFits(crc: Word16, b: Byte, w: nat)
    requires w == 8
    ensures Low(Xor(Shr(crc, w), b), w) == Xor(Shr(crc, w), b)
  {
    PowersOfTwo();
    ShrIsDiv(crc, w);
    Fits(Shr(crc, w), w);
    Fits(b, w);
    XorFits(Shr(crc, w), b, w);
  }

  lemma PyFoldIsFold(crc: Word16, b: Byte)
    ensures PyFold(crc, b) == Fold(crc, b)
  {
    TemporaryFits(crc, b, 8);
    var tmp := Xor(Shr(crc, 8), b);
    var folded := Xor(tmp, Shr(tmp, 4));
    MaskedSum(Shl(crc, 8), Shl(folded, 12), Shl(folded, 5), folded, 16);
  }

  /** The host's loop. */
  method PyCrc16(inputData: seq<Byte>) returns (crcValue: Word16)
    ensures Register(crcValue) == Crc(inputData)
  {
    hide PyFold;
    hide Fold;
    hide Crc;
    hide Register;
    crcValue := 0xFFFF;
    EmptyCrc();
    var i := 0;
    while i < |inputData|
      invariant 0 <= i <= |inputData|
      invariant Register(crcValue) == Crc(inputData[..i])
    {
      var c := inputData[i];
      CrcOfOneMore(inputData[..i], c);
      assert inputData[..i + 1] == inputData[..i] + [c];
      PyFoldIsFold(crcValue, c);
      FoldIsFeed(crcValue, c);
      crcValue := PyFold(crcValue, c);
      i := i + 1;
    }
    assert inputData[..i] == inputData;
  }

  // --------------------------------------------------------------------------------------------
  // A message followed by its own checksum leaves nothing

  lemma StepClears(r: BitString, bit: bool, rest: BitString)
    requires |r| == |rest| == WIDTH && !rest[15]
    ensures ShiftStep(r, bit) == rest <==> r == [bit] + rest[..15]
  {
    assert GENERATOR[15];
    var shifted := r[1..] + [false];
    if ShiftStep(r, bit) == rest {
      assert r[0] == bit;
      assert r[1..] == shifted[..15];
      assert r == [r[0]] + r[1..];
    }
    if r == [bit] + rest[..15] {
      assert r[1..] == rest[..15];
      assert rest == rest[..15] + [rest[15]];
    }
  }

  /** Feeding at most 16 bits clears the register exactly when they are its leading bits and the others
      are zero already. */
  lemma {:induction false} FeedClears(r: BitString, m: BitString)
    requires |r| == WIDTH && |m| <= WIDTH
    ensures Feed(r, m) == Zeros(WIDTH) <==> r == m + Zeros(WIDTH - |m|)
    decreases |m|
  {
    hide ShiftStep;
    if m == [] {
      assert m + Zeros(WIDTH) == Zeros(WIDTH);
    } else {
      var rest := m[1..] + Zeros(WIDTH - |m| + 1);
      FeedClears(ShiftStep(r, m[0]), m[1..]);
      StepClears(r, m[0], rest);
      assert [m[0]] + rest[..15] == m + Zeros(WIDTH - |m|);
    }
  }

  lemma RegisterInjective(a: Word16, b: Word16)
    ensures Register(a) == Register(b) <==> a == b
  {
    if Register(a) == Register(b) {
      var w := WIDTH;
      PowersOfTwo();
      Fits(a, w);
      Fits(b, w);
      BitsInjective(a, b, w);
    }
  }

  /** The footer carries the checksum, and nothing else does. */
  lemma FooterIsJoined(crc: BitString, high: Byte, low: Byte)
    requires |crc| == WIDTH
    ensures Join(high, low) == crc <==> [high, low] == Footer(crc)
  {
    var sum := Join(high, low);
    assert sum[..8] == Bits(high, 8) && sum[8..] == Bits(low, 8);
    ByteOfBits(high);
    ByteOfBits(low);
    BitsOfByteOf(crc[..8]);
    BitsOfByteOf(crc[8..]);
    assert crc == crc[..8] + crc[8..];
  }

  /** The register's two bytes as C takes them apart and puts them together. */
  lemma RegisterOfBytes(high: Byte, low: Byte)
    ensures Register(256 * high + low) == Join(high, low)
  {
    var n: Word16 := 256 * (high as int) + low as int;
    assert n / 256 == high && n % 256 == low;
    RegisterHalves(n, 8);
  }

  lemma RegisterHalves(n: Word16, w: nat)
    requires w == 8
    ensures Register(n) == Bits(n / 256, w) + Bits(n % 256, w)
  {
    ShrOf8(n);
    BitsOfShr(n, w, w);
    LowOf8(n);
    BitsOfLow(n, w);
    LowBits(n, w, w);
    assert Register(n) == Register(n)[..w] + Register(n)[w..];
  }

  lemma FooterOfRegister(crc: Word16)
    ensures [crc / 256, crc % 256] == Footer(Register(crc))
  {
    var high: Byte, low: Byte := crc / 256, crc % 256;
    RegisterOfBytes(high, low);
    FooterIsJoined(Register(crc), high, low);
  }

  lemma BitsOfTwo(high: Byte, low: Byte)
    ensures BitsOf([high, low]) == Join(high, low)
  {
    assert [high, low][1..] == [low] && [low][1..] == [];
    assert BitsOf([low]) == Bits(low, 8) + BitsOf([]);
  }

  /** What the receiver tests - the computed checksum against the one received - holds exactly when
      the whole codeword, footer included, leaves the register clear. */
  lemma ReceiverTestIsResidue(payload: seq<Byte>, high: Byte, low: Byte)
    ensures Crc(payload) == Join(high, low) <==> Crc(payload + [high, low]) == Zeros(WIDTH)
    ensures Crc(payload) == Join(high, low) <==> [high, low] == Footer(Crc(payload))
  {
    var c, sum := Crc(payload), Join(high, low);
    BitsOfConcat(payload, [high, low]);
    BitsOfTwo(high, low);
    FeedConcat(Ones(WIDTH), BitsOf(payload), sum);
    FeedClears(c, sum);
    assert sum + Zeros(0) == sum;
    FooterIsJoined(c, high, low);
  }
}
