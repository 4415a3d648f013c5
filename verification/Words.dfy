/**
 Unsigned machine words as natural numbers, and their bits.

 The operators of C and of Python on unsigned words are defined by recursion over the binary digits,
 so that every law about them is an induction over digits.  `Bits(n, w)` lists the low w digits of n,
 most significant first; the lemmas say what each operator does to that list.
 */
module Words {
  import opened Modular

  type Byte = x: int | 0 <= x < 256
  type Word16 = x: int | 0 <= x < 0x1_0000
  type BitString = seq<bool>

  // --------------------------------------------------------------------------------------------
  // The operators ^, |, <<, >> and "keep the low w bits"

  function Xor(a: nat, b: nat): (r: nat)
    decreases a + b
  {
    if a == 0 && b == 0 then 0
    else (if a % 2 == b % 2 then 0 else 1) + 2 * Xor(a / 2, b / 2)
  }

  function Or(a: nat, b: nat): (r: nat)
    decreases a + b
  {
    if a == 0 && b == 0 then 0
    else (if a % 2 == 0 && b % 2 == 0 then 0 else 1) + 2 * Or(a / 2, b / 2)
  }

  function Shl(n: nat, k: nat): nat
    decreases k, n
  {
    if k == 0 then n else Shl(2 * n, k - 1)
  }

  function Shr(n: nat, k: nat): nat
    decreases k, n
  {
    if k == 0 then n else Shr(n / 2, k - 1)
  }

  function Low(n: nat, w: nat): nat
    decreases w, n
  {
    if w == 0 then 0 else n % 2 + 2 * Low(n / 2, w - 1)
  }

  // --------------------------------------------------------------------------------------------
  // Bit strings

  function Bits(n: nat, w: nat): (r: BitString)
    ensures |r| == w
    decreases w, n
  {
    if w == 0 then [] else Bits(n / 2, w - 1) + [n % 2 == 1]
  }

  function Zeros(n: nat): (r: BitString)
    ensures |r| == n
  {
    seq(n, i => false)
  }

  function Ones(n: nat): (r: BitString)
    ensures |r| == n
  {
    seq(n, i => true)
  }

  function XorBits(a: BitString, b: BitString): (r: BitString)
    requires |a| == |b|
    ensures |r| == |a|
  {
    seq(|a|, i requires 0 <= i < |a| => a[i] != b[i])
  }

  /** The number that a bit string stands for. */
  function Value(s: BitString): (r: nat)
    ensures r < Pow2(|s|)
  {
    if s == [] then 0 else 2 * Value(s[..|s| - 1]) + (if s[|s| - 1] then 1 else 0)
  }

  function Pow2(k: nat): (r: nat)
    ensures r > 0
  {
    if k == 0 then 1 else 2 * Pow2(k - 1)
  }

  function ByteOf(s: BitString): Byte
    requires |s| == 8
  {
    PowersOfTwo();
    Value(s)
  }

  // --------------------------------------------------------------------------------------------
  // What the operators do to the bits

  lemma {:induction false} BitsOfZero(w: nat)
    ensures Bits(0, w) == Zeros(w)
    decreases w
  {
    if w != 0 {
      BitsOfZero(w - 1);
    }
  }

  lemma {:induction false} BitsOfXor(a: nat, b: nat, w: nat)
    ensures Bits(Xor(a, b), w) == XorBits(Bits(a, w), Bits(b, w))
    decreases w
  {
    if w != 0 {
      XorDigits(a, b);
      BitsOfXor(a / 2, b / 2, w - 1);
    }
  }

  lemma {:induction false} BitsOfShl(n: nat, k: nat, w: nat)
    ensures Bits(Shl(n, k), w + k) == Bits(n, w) + Zeros(k)
    decreases k
  {
    if k == 0 {
      assert Bits(n, w) + Zeros(0) == Bits(n, w);
    } else {
      BitsOfShl(2 * n, k - 1, w + 1);
      assert Bits(2 * n, w + 1) == Bits(n, w) + [false];
      assert [false] + Zeros(k - 1) == Zeros(k);
    }
  }

  lemma {:induction false} BitsOfShr(n: nat, k: nat, w: nat)
    ensures Bits(Shr(n, k), w) == Bits(n, w + k)[..w]
    decreases k
  {
    if k != 0 {
      BitsOfShr(n / 2, k - 1, w);
    }
  }

  lemma {:induction false} LowBits(n: nat, k: nat, w: nat)
    ensures Bits(n, w + k)[k..] == Bits(n, w)
    decreases w
  {
    if w != 0 {
      LowBits(n / 2, k, w - 1);
      assert Bits(n, w + k) == Bits(n / 2, w - 1 + k) + [n % 2 == 1];
    }
  }

  lemma {:induction false} BitsOfLow(n: nat, w: nat)
    ensures Bits(Low(n, w), w) == Bits(n, w)
    decreases w
  {
    if w != 0 {
      BitsOfLow(n / 2, w - 1);
    }
  }

  /** A number that fits in w bits is Low of itself, and its bits beyond those are zero. */
  lemma {:induction false} LowFits(n: nat, w: nat)
    requires Low(n, w) == n
    ensures forall k: nat :: Bits(n, w + k) == Zeros(k) + Bits(n, w)
    decreases w
  {
    if w == 0 {
      forall k: nat ensures Bits(n, w + k) == Zeros(k) + Bits(n, w) {
        BitsOfZero(k);
      }
    } else {
      LowFits(n / 2, w - 1);
      forall k: nat ensures Bits(n, w + k) == Zeros(k) + Bits(n, w) {
        assert Bits(n / 2, w - 1 + k) == Zeros(k) + Bits(n / 2, w - 1);
      }
    }
  }

  lemma {:induction false} BitsOfValue(s: BitString)
    ensures Bits(Value(s), |s|) == s
    decreases |s|
  {
    if s != [] {
      BitsOfValue(s[..|s| - 1]);
      assert s == s[..|s| - 1] + [s[|s| - 1]];
    }
  }

  lemma {:induction false} ValueOfBits(n: nat, w: nat)
    requires n < Pow2(w)
    ensures Value(Bits(n, w)) == n
    decreases w
  {
    if w != 0 {
      var s := Bits(n, w);
      assert s[..w - 1] == Bits(n / 2, w - 1);
      ValueOfBits(n / 2, w - 1);
    }
  }

  lemma ByteOfBits(b: Byte)
    ensures ByteOf(Bits(b, 8)) == b
  {
    PowersOfTwo();
    ValueOfBits(b, 8);
  }

  lemma BitsOfByteOf(s: BitString)
    requires |s| == 8
    ensures Bits(ByteOf(s), 8) == s
  {
    BitsOfValue(s);
  }

  lemma {:induction false} BitsInjective(a: nat, b: nat, w: nat)
    requires Low(a, w) == a && Low(b, w) == b
    requires Bits(a, w) == Bits(b, w)
    ensures a == b
    decreases w
  {
    if w != 0 {
      var x, y := Bits(a, w), Bits(b, w);
      assert x[..w - 1] == Bits(a / 2, w - 1) && y[..w - 1] == Bits(b / 2, w - 1);
      assert x[w - 1] == y[w - 1];
      BitsInjective(a / 2, b / 2, w - 1);
    }
  }

  /** Exclusive or of two words of w bits has w bits. */
  lemma {:induction false} XorFits(a: nat, b: nat, w: nat)
    requires Low(a, w) == a && Low(b, w) == b
    ensures Low(Xor(a, b), w) == Xor(a, b)
    decreases w
  {
    if w != 0 {
      XorFits(a / 2, b / 2, w - 1);
    }
  }

  lemma {:induction false} LowIdempotent(n: nat, w: nat)
    ensures Low(Low(n, w), w) == Low(n, w)
    decreases w
  {
    if w != 0 {
      LowIdempotent(n / 2, w - 1);
    }
  }

  lemma {:induction false} LowOfXor(a: nat, b: nat, w: nat)
    ensures Low(Xor(a, b), w) == Xor(Low(a, w), Low(b, w))
    decreases w
  {
    if w != 0 {
      LowOfXor(a / 2, b / 2, w - 1);
      XorDigits(a, b);
      LowDigits(a, w);
      LowDigits(b, w);
      XorDigits(Low(a, w), Low(b, w));
      LowDigits(Xor(a, b), w);
    }
  }

  lemma XorDigits(a: nat, b: nat)
    ensures Xor(a, b) % 2 == (if a % 2 == b % 2 then 0 else 1)
    ensures Xor(a, b) / 2 == Xor(a / 2, b / 2)
  {
  }

  lemma LowDigits(n: nat, w: nat)
    requires w != 0
    ensures Low(n, w) % 2 == n % 2 && Low(n, w) / 2 == Low(n / 2, w - 1)
  {
    DivModUnique(Low(n, w), 2, Low(n / 2, w - 1), n % 2);
  }

  lemma {:induction false} ShrFits(n: nat, k: nat, w: nat)
    requires Low(n, w) == n
    ensures Low(Shr(n, k), w) == Shr(n, k)
    decreases k
  {
    if k != 0 {
      HalfFits(n, w);
      ShrFits(n / 2, k - 1, w);
    }
  }

  lemma {:induction false} HalfFits(n: nat, w: nat)
    requires Low(n, w) == n
    ensures Low(n / 2, w) == n / 2
    decreases w
  {
    if w != 0 {
      HalfFits(n / 2, w - 1);
    }
  }

  // --------------------------------------------------------------------------------------------
  // The widths in use, as quotients and remainders

  lemma HalfDivMod(n: nat, d: int)
    requires d > 0
    ensures n / 2 / d == n / (2 * d)
    ensures n % (2 * d) == n % 2 + 2 * (n / 2 % d)
  {
    var q, r := n / 2 / d, n / 2 % d;
    assert n / 2 == q * d + r;
    assert n == q * (2 * d) + (n % 2 + 2 * r);
    DivModUnique(n, 2 * d, q, n % 2 + 2 * r);
  }

  lemma {:induction false} LowIsMod(n: nat, w: nat)
    ensures Low(n, w) == n % Pow2(w)
    decreases w
  {
    if w != 0 {
      LowIsMod(n / 2, w - 1);
      HalfDivMod(n, Pow2(w - 1));
    }
  }

  lemma {:induction false} Fits(n: nat, w: nat)
    requires n < Pow2(w)
    ensures Low(n, w) == n
    decreases w
  {
    if w != 0 {
      Fits(n / 2, w - 1);
    }
  }

  lemma {:induction false} ShrIsDiv(n: nat, k: nat)
    ensures Shr(n, k) == n / Pow2(k)
    decreases k
  {
    if k != 0 {
      ShrIsDiv(n / 2, k - 1);
      HalfDivMod(n, Pow2(k - 1));
    }
  }

  lemma {:induction false} ShlIsMul(n: nat, k: nat)
    ensures Shl(n, k) == n * Pow2(k)
    decreases k
  {
    if k != 0 {
      ShlIsMul(2 * n, k - 1);
    }
  }

  lemma PowersOfTwo()
    ensures Pow2(4) == 16 && Pow2(5) == 32 && Pow2(8) == 256 && Pow2(12) == 4096 && Pow2(16) == 0x1_0000
  {
    assert Pow2(4) == 16;
    assert Pow2(8) == 256;
    assert Pow2(12) == 4096;
  }

  lemma {:induction false} BitsOfOnes(n: nat, w: nat)
    requires n == Pow2(w) - 1
    ensures Bits(n, w) == Ones(w)
    decreases w
  {
    if w != 0 {
      BitsOfOnes(n / 2, w - 1);
    }
  }

  lemma LowOf8(n: nat)
    ensures Low(n, 8) == n % 256
  {
    PowersOfTwo();
    LowIsMod(n, 8);
  }

  lemma ShrOf8(n: nat)
    ensures Shr(n, 8) == n / 256
  {
    PowersOfTwo();
    ShrIsDiv(n, 8);
  }

  lemma LowOf16(n: nat)
    ensures Low(n, 16) == n % 0x1_0000
  {
    PowersOfTwo();
    LowIsMod(n, 16);
  }

  lemma {:induction false} OrZero(n: nat)
    ensures Or(n, 0) == n
    decreases n
  {
    if n != 0 {
      OrZero(n / 2);
    }
  }

  /** Or of a multiple of 2^k and a number below 2^k is their sum. */
  lemma {:induction false} OrOfParts(high: nat, low: nat, k: nat)
    requires low < Pow2(k)
    ensures Or(high * Pow2(k), low) == high * Pow2(k) + low
    decreases k
  {
    if k == 0 {
      OrZero(high);
    } else {
      var h := high * Pow2(k - 1);
      assert high * Pow2(k) == 2 * h;
      OrOfParts(high, low / 2, k - 1);
      assert Or(h, low / 2) == h + low / 2;
      assert (2 * h) / 2 == h && (2 * h) % 2 == 0;
    }
  }

  lemma OrOfBytes(high: nat, low: Byte)
    ensures Or(256 * high, low) == 256 * high + low
  {
    var k := 8;
    PowersOfTwo();
    OrOfParts(high, low, k);
  }

  lemma ShlAndOr(high: nat, low: nat, k: nat)
    requires low < Pow2(k)
    ensures Or(Shl(high, k), low) == high * Pow2(k) + low
  {
    ShlIsMul(high, k);
    OrOfParts(high, low, k);
  }

  lemma TwoBytesShifted(c: nat, d: Byte, k: nat)
    requires Pow2(k) == 256
    ensures Or(Shl(c, k), d) == 256 * c + d
  {
    ShlAndOr(c, d, k);
  }

  lemma FourBytesShifted(a: Byte, b: Byte, c: Byte, d: Byte, k: nat, kk: nat, kkk: nat)
    requires Pow2(k) == 256 && Pow2(kk) == 0x1_0000 && Pow2(kkk) == 0x100_0000
    ensures Or(Or(Or(Shl(a, kkk), Shl(b, kk)), Shl(c, k)), d) == 0x100_0000 * a + 0x1_0000 * b + 256 * c + d
  {
    hide Or;
    hide Shl;
    hide Pow2;
    ShlIsMul(b, kk);
    ShlAndOr(a, Shl(b, kk), kkk);
    ShlIsMul(c, k);
    OrOfParts(256 * a + b, Shl(c, k), kk);
    OrOfParts(0x1_0000 * a + 256 * b + c, d, k);
  }

  /** Bytes shifted to their places and or-ed together. */
  lemma ShiftedBytes(a: Byte, b: Byte, c: Byte, d: Byte)
    ensures Or(Shl(c, 8), d) == 256 * c + d
    ensures Or(Or(Or(Shl(a, 24), Shl(b, 16)), Shl(c, 8)), d) == 0x100_0000 * a + 0x1_0000 * b + 256 * c + d
  {
    PowersOfBytes();
    hide Or;
    hide Shl;
    hide Pow2;
    TwoBytesShifted(c, d, 8);
    FourBytesShifted(a, b, c, d, 8, 16, 24);
  }

  lemma PowersOfBytes()
    ensures Pow2(8) == 256 && Pow2(16) == 0x1_0000 && Pow2(24) == 0x100_0000
  {
    PowersOfTwo();
    assert Pow2(20) == 0x10_0000;
  }

  // --------------------------------------------------------------------------------------------
  // Bit fields

  /** The field of w bits that starts at bit k. */
  function Field(x: nat, k: nat, w: nat): nat {
    Low(Shr(x, k), w)
  }

  lemma OrDigits(a: nat, b: nat)
    ensures Or(a, b) % 2 == (if a % 2 == 0 && b % 2 == 0 then 0 else 1)
    ensures Or(a, b) / 2 == Or(a / 2, b / 2)
  {
  }

  lemma {:induction false} ShrOfOr(a: nat, b: nat, k: nat)
    ensures Shr(Or(a, b), k) == Or(Shr(a, k), Shr(b, k))
    decreases k
  {
    if k != 0 {
      OrDigits(a, b);
      ShrOfOr(a / 2, b / 2, k - 1);
    }
  }

  lemma {:induction false} LowOfOr(a: nat, b: nat, w: nat)
    ensures Low(Or(a, b), w) == Or(Low(a, w), Low(b, w))
    decreases w
  {
    if w != 0 {
      LowOfOr(a / 2, b / 2, w - 1);
      OrDigits(a, b);
      LowDigits(a, w);
      LowDigits(b, w);
      OrDigits(Low(a, w), Low(b, w));
      LowDigits(Or(a, b), w);
    }
  }

  lemma FieldOfOr(a: nat, b: nat, k: nat, w: nat)
    ensures Field(Or(a, b), k, w) == Or(Field(a, k, w), Field(b, k, w))
  {
    ShrOfOr(a, b, k);
    LowOfOr(Shr(a, k), Shr(b, k), w);
  }

  lemma {:induction false} ShlDouble(n: nat, k: nat)
    ensures Shl(2 * n, k) == 2 * Shl(n, k)
    decreases k
  {
    if k != 0 {
      ShlDouble(2 * n, k - 1);
    }
  }

  lemma {:induction false} ShrOfShl(n: nat, j: nat, k: nat)
    requires k <= j
    ensures Shr(Shl(n, j), k) == Shl(n, j - k)
    decreases k
  {
    if k != 0 {
      ShlDouble(n, j - 1);
      ShrOfShl(n, j - 1, k - 1);
    }
  }

  lemma {:induction false} ShrOfShr(n: nat, j: nat, k: nat)
    ensures Shr(n, j + k) == Shr(Shr(n, j), k)
    decreases j
  {
    if j != 0 {
      ShrOfShr(n / 2, j - 1, k);
    }
  }

  lemma {:induction false} LowOfShl(n: nat, j: nat, w: nat)
    requires w <= j
    ensures Low(Shl(n, j), w) == 0
    decreases w
  {
    if w != 0 {
      ShlDouble(n, j - 1);
      LowOfShl(n, j - 1, w - 1);
    }
  }

  lemma {:induction false} ShrOfLow(n: nat, m: nat, k: nat)
    ensures Shr(Low(n, m), k) == if k <= m then Low(Shr(n, k), m - k) else 0
    decreases k
  {
    if k != 0 {
      if m != 0 {
        LowDigits(n, m);
        ShrOfLow(n / 2, m - 1, k - 1);
      } else {
        ShrOfLow(0, 0, k - 1);
      }
    }
  }

  lemma {:induction false} LowOfLow(n: nat, m: nat, w: nat)
    requires w <= m
    ensures Low(Low(n, m), w) == Low(n, w)
    decreases w
  {
    if w != 0 {
      LowDigits(n, m);
      LowOfLow(n / 2, m - 1, w - 1);
    }
  }

  /** A field of a word cut to m bits, as long as the field lies inside. */
  lemma FieldOfLow(x: nat, m: nat, k: nat, w: nat)
    requires k + w <= m
    ensures Field(Low(x, m), k, w) == Field(x, k, w)
  {
    ShrOfLow(x, m, k);
    LowOfLow(Shr(x, k), m - k, w);
  }

  /** A field put in place at bit j is read back there and reads as zero from any field apart from it. */
  lemma FieldOfShl(n: nat, m: nat, j: nat, k: nat, w: nat)
    requires (k == j && w == m) || k >= j + m || k + w <= j
    ensures Field(Shl(Low(n, m), j), k, w) == if k == j && w == m then Low(n, m) else 0
  {
    var f := Low(n, m);
    if k == j && w == m {
      ShrOfShl(f, j, j);
      LowIdempotent(n, m);
    } else if k >= j + m {
      ShrOfShl(f, j, j);
      ShrOfShr(Shl(f, j), j, k - j);
      ShrOfLow(n, m, k - j);
      ZeroLow(w);
    } else {
      ShrOfShl(f, j, k);
      LowOfShl(f, j - k, w);
    }
  }

  lemma {:induction false} ZeroLow(w: nat)
    ensures Low(0, w) == 0
  {
    if w != 0 {
      ZeroLow(w - 1);
    }
  }

  lemma {:induction false} ZeroOr(n: nat)
    ensures Or(0, n) == n
  {
    if n != 0 {
      ZeroOr(n / 2);
    }
  }
}
