/**
 * What the checksum is, without a register: clause 3.2.9 of IEEE 802.3 divides polynomials
 * over the field of two elements.  `Crc.Checksum` is proved to be the remainder it asks for.
 */
module Polynomials {
  import opened Bytes
  import opened Crc

  // ---------------------------------------------------------------------------
  //  Polynomials over two elements
  // ---------------------------------------------------------------------------

  /** The exponents whose coefficient is one. */
  type Polynomial = set<nat>

  function Sum(p: Polynomial, q: Polynomial): Polynomial {
    (p - q) + (q - p)
  }

  function TimesX(p: Polynomial): Polynomial {
    set e | e in p :: e + 1
  }

  function Constant(bit: bool): Polynomial {
    if bit then {0} else {}
  }

  /** The generator polynomial. */
  const GENERATOR: Polynomial := {32, 26, 23, 22, 16, 12, 11, 10, 8, 7, 5, 4, 2, 1, 0}

  /** p times x modulo the generator, for a p of degree below 32. */
  function Step(p: Polynomial): Polynomial {
    if 31 in p then Sum(TimesX(p), GENERATOR) else TimesX(p)
  }

  /** The polynomial with these coefficients, the highest first. */
  function Coefficients(bits: seq<bool>): Polynomial
    decreases |bits|
  {
    if bits == [] then {} else Sum(TimesX(Coefficients(bits[..|bits| - 1])), Constant(bits[|bits| - 1]))
  }

  /** The remainder of such a polynomial by the generator, digit by digit. */
  function Remainder(bits: seq<bool>): Polynomial
    decreases |bits|
  {
    if bits == [] then {} else Sum(Step(Remainder(bits[..|bits| - 1])), Constant(bits[|bits| - 1]))
  }

  /** The generator times the polynomial with these coefficients. */
  function Multiple(quotient: seq<bool>): Polynomial
    decreases |quotient|
  {
    if quotient == [] then {}
    else
      var n := |quotient| - 1;
      Sum(TimesX(Multiple(quotient[..n])), if quotient[n] then GENERATOR else {})
  }

  lemma TimesXOfSum(p: Polynomial, q: Polynomial)
    ensures TimesX(Sum(p, q)) == Sum(TimesX(p), TimesX(q))
  {
    var a, b := TimesX(Sum(p, q)), Sum(TimesX(p), TimesX(q));
    forall e
      ensures e in a <==> e in b
    {
      assert e in TimesX(p) <==> e > 0 && e - 1 in p;
      assert e in TimesX(q) <==> e > 0 && e - 1 in q;
      assert e in a <==> e > 0 && e - 1 in Sum(p, q);
    }
  }

  /** Division: the dividend is a multiple of the generator plus a remainder of smaller degree. */
  lemma {:induction false} DividesWithRemainder(bits: seq<bool>) returns (quotient: seq<bool>)
    ensures |quotient| == |bits|
    ensures Coefficients(bits) == Sum(Multiple(quotient), Remainder(bits))
    ensures forall e <- Remainder(bits) :: e < 32
    decreases |bits|
  {
    if bits == [] {
      quotient := [];
    } else {
      var n := |bits| - 1;
      var before := DividesWithRemainder(bits[..n]);
      var r := Remainder(bits[..n]);
      quotient := before + [31 in r];
      assert quotient[..n] == before;
      TimesXOfSum(Multiple(before), r);
      StepIsSmall(r);
      Cancel(TimesX(Multiple(before)), TimesX(r), if 31 in r then GENERATOR else {}, Constant(bits[n]));
    }
  }

  lemma StepIsSmall(p: Polynomial)
    requires forall e <- p :: e < 32
    ensures forall e <- Step(p) :: e < 32
    ensures Step(p) == Sum(TimesX(p), if 31 in p then GENERATOR else {})
  {
    assert 32 in TimesX(p) <==> 31 in p;
    assert Sum(TimesX(p), {}) == TimesX(p);
  }

  lemma Cancel(a: Polynomial, b: Polynomial, g: Polynomial, c: Polynomial)
    ensures Sum(Sum(a, b), c) == Sum(Sum(a, g), Sum(Sum(b, g), c))
  {
  }

  /** x^32 modulo the generator. */
  lemma XTo32()
    ensures Step({31}) == {26, 23, 22, 16, 12, 11, 10, 8, 7, 5, 4, 2, 1, 0}
  {
    assert TimesX({31}) == {32};
  }

  // ---------------------------------------------------------------------------
  //  The register as a polynomial
  // ---------------------------------------------------------------------------

  predicate Bit(w: bv32, k: nat)
    decreases k
  {
    if k == 0 then Odd(w) else Bit(Half(w), k - 1)
  }

  /** In the register the lowest bit is the highest coefficient. */
  predicate Coefficient(w: bv32, e: nat) {
    e < 32 && Bit(w, 31 - e)
  }

  function PolynomialOf(w: bv32): Polynomial {
    set e: nat | e < 32 && Coefficient(w, e)
  }

  lemma {:induction false} BitOfXor(a: bv32, b: bv32, k: nat)
    ensures Bit(Xor(a, b), k) <==> Bit(a, k) != Bit(b, k)
    decreases k
  {
    hide Xor, Half, Odd;
    if k == 0 {
      OddSum(a, b);
    } else {
      HalfSum(a, b);
      BitOfXor(Half(a), Half(b), k - 1);
    }
  }

  lemma PolynomialOfXor(a: bv32, b: bv32)
    ensures PolynomialOf(Xor(a, b)) == Sum(PolynomialOf(a), PolynomialOf(b))
  {
    hide Xor, Bit;
    forall e: nat
      ensures Coefficient(Xor(a, b), e) <==> Coefficient(a, e) != Coefficient(b, e)
    {
      if e < 32 {
        BitOfXor(a, b, 31 - e);
      }
    }
  }

  lemma {:induction false} BitOfDown(w: bv32, j: nat, k: nat)
    ensures Bit(Down(w, j), k) == Bit(w, j + k)
    decreases j
  {
    hide Half, Odd;
    if j > 0 {
      BitOfDown(Half(w), j - 1, k);
    }
  }

  lemma NoBit32(w: bv32)
    ensures !Bit(w, 32)
  {
    hide Half, Odd, Down, Down8, Bit;
    BitOfDown(w, 8, 24);
    BitOfDown(Down(w, 8), 8, 16);
    BitOfDown(Down(Down(w, 8), 8), 8, 8);
    BitOfDown(Down(Down(Down(w, 8), 8), 8), 8, 0);
    DownByEight(w);
    DownByEight(Down8(w));
    DownByEight(Down8(Down8(w)));
    DownByEight(Down8(Down8(Down8(w))));
    TopIsClear(w);
    BitOfZero();
  }

  lemma BitOfZero()
    ensures !Bit(0, 0)
  {
  }

  lemma FourBits(w: bv32, k: nat)
    ensures Bit(w, 0) <==> w & 1 == 1
    ensures Bit(w, 1) <==> w & 2 == 2
    ensures Bit(w, 2) <==> w & 4 == 4
    ensures Bit(w, 3) <==> w & 8 == 8
    ensures Bit(w, 4 + k) == Bit(w >> 4, k)
  {
    hide Half, Odd;
    var w1 := Half(w);
    var w2 := Half(w1);
    var w3 := Half(w2);
    FourHalves(w);
    assert Bit(w, 0) == Odd(w) && Bit(w, 1) == Bit(w1, 0) == Odd(w1);
    assert Bit(w, 2) == Bit(w1, 1) == Bit(w2, 0) == Odd(w2);
    assert Bit(w, 3) == Bit(w1, 2) == Bit(w2, 1) == Bit(w3, 0) == Odd(w3);
    assert Bit(w, 4 + k) == Bit(w1, 3 + k) == Bit(w2, 2 + k) == Bit(w3, 1 + k) == Bit(Half(w3), k);
  }

  lemma FourHalves(w: bv32)
    ensures Half(Half(Half(Half(w)))) == w >> 4
    ensures Odd(w) <==> w & 1 == 1
    ensures Odd(Half(w)) <==> w & 2 == 2
    ensures Odd(Half(Half(w))) <==> w & 4 == 4
    ensures Odd(Half(Half(Half(w)))) <==> w & 8 == 8
  {
  }

  /** The register's feedback constant holds the generator below x^32. */
  lemma FeedbackIsGenerator()
    ensures PolynomialOf(POLYNOMIAL) == GENERATOR - {32}
  {
    hide Bit;
    forall e: nat
      ensures Coefficient(POLYNOMIAL, e) <==> e in GENERATOR && e != 32
    {
      if e < 32 {
        FeedbackBit(31 - e);
      }
    }
  }

  lemma FeedbackBit(k: nat)
    requires k < 32
    ensures Bit(0xEDB88320, k) <==> 31 - k in GENERATOR
  {
    hide Bit;
    if k < 4 {
      FourBits(0xEDB88320, 0);
    } else {
      FourBits(0xEDB88320, k - 4);
      if k < 8 {
        FourBits(0xEDB8832, 0);
      } else {
        FourBits(0xEDB8832, k - 8);
        HighFeedbackBit(k);
      }
    }
  }

  lemma HighFeedbackBit(k: nat)
    requires 8 <= k < 32
    ensures Bit(0xEDB883, k - 8) <==> 31 - k in GENERATOR
  {
    hide Bit;
    if k < 12 {
      FourBits(0xEDB883, 0);
    } else {
      FourBits(0xEDB883, k - 12);
      if k < 16 {
        FourBits(0xEDB88, 0);
      } else {
        FourBits(0xEDB88, k - 16);
        TopFeedbackBit(k);
      }
    }
  }

  lemma TopFeedbackBit(k: nat)
    requires 16 <= k < 32
    ensures Bit(0xEDB8, k - 16) <==> 31 - k in GENERATOR
  {
    hide Bit;
    if k < 20 {
      FourBits(0xEDB8, 0);
    } else {
      FourBits(0xEDB8, k - 20);
      if k < 24 {
        FourBits(0xEDB, 0);
      } else {
        FourBits(0xEDB, k - 24);
        if k < 28 {
          FourBits(0xED, 0);
        } else {
          FourBits(0xED, k - 28);
          FourBits(0xE, 0);
        }
      }
    }
  }

  /** One step of the register multiplies its polynomial by x, modulo the generator. */
  lemma ShiftIsStep(c: bv32)
    ensures PolynomialOf(Shift(c)) == Step(PolynomialOf(c))
  {
    hide Bit, Sum, Xor, Half;
    HalfIsTimesX(c);
    assert Bit(c, 0) <==> Odd(c) by {
      FourBits(c, 0);
    }
    if Odd(c) {
      PolynomialOfXor(POLYNOMIAL, Half(c));
      FeedbackIsGenerator();
      assert 31 in PolynomialOf(c) && 31 + 1 in TimesX(PolynomialOf(c));
      FoldTop(TimesX(PolynomialOf(c)));
    } else {
      assert TimesX(PolynomialOf(c)) - {32} == TimesX(PolynomialOf(c));
    }
  }

  lemma HalfIsTimesX(c: bv32)
    ensures PolynomialOf(Half(c)) == TimesX(PolynomialOf(c)) - {32}
  {
    hide Half;
    NoBit32(c);
    forall e: nat | e < 32
      ensures Coefficient(Half(c), e) <==> e > 0 && Coefficient(c, e - 1)
    {
      hide Bit;
      BitOfHalf(c, 31 - e);
    }
    assert forall e :: e in TimesX(PolynomialOf(c)) <==> e > 0 && e - 1 in PolynomialOf(c);
  }

  lemma BitOfHalf(c: bv32, k: nat)
    ensures Bit(Half(c), k) == Bit(c, k + 1)
  {
  }

  lemma FoldTop(p: Polynomial)
    requires 32 in p
    ensures Sum(GENERATOR - {32}, p - {32}) == Sum(p, GENERATOR)
  {
  }

  // ---------------------------------------------------------------------------
  //  A message, bit by bit
  // ---------------------------------------------------------------------------

  /** The `k` low bits of a number, the lowest first. */
  function LowBits(n: nat, k: nat): (bits: seq<bool>)
    ensures |bits| == k
    decreases k
  {
    if k == 0 then [] else [n % 2 == 1] + LowBits(n / 2, k - 1)
  }

  /** The bits of a message in the order of transmission: byte after byte, the lowest bit first. */
  function MessageBits(message: seq<byte>): (bits: seq<bool>)
    ensures |bits| == 8 * |message|
    decreases |message|
  {
    if message == [] then [] else LowBits(message[0] as int, 8) + MessageBits(message[1..])
  }

  function Digit(bit: bool): bv32 {
    if bit then 1 else 0
  }

  /** Feeds bits to the register. */
  function FeedAll(c: bv32, bits: seq<bool>): bv32
    decreases |bits|
  {
    if bits == [] then c
    else
      var n := |bits| - 1;
      Shift(Xor(FeedAll(c, bits[..n]), Digit(bits[n])))
  }

  lemma {:induction false} FeedAllConcat(c: bv32, a: seq<bool>, b: seq<bool>)
    ensures FeedAll(c, a + b) == FeedAll(FeedAll(c, a), b)
    decreases |b|
  {
    hide Shift, Xor, Digit;
    if b == [] {
      assert a + b == a;
    } else {
      var n := |b| - 1;
      FeedAllConcat(c, a, b[..n]);
      assert (a + b)[..|a| + n] == a + b[..n];
    }
  }

  lemma FeedOne(c: bv32, bit: bool)
    ensures FeedAll(c, [bit]) == Shift(Xor(c, Digit(bit)))
  {
    assert [bit][..0] == [];
  }

  lemma HalfNibble(n: int)
    requires 0 <= n < 16
    ensures ((n as bv4) >> 1) == (n / 2) as bv4
    ensures (n as bv4) & 1 == (n % 2) as bv4
  {
    if n < 8 {
      if n < 4 {
        assert n == 0 || n == 1 || n == 2 || n == 3;
      } else {
        assert n == 4 || n == 5 || n == 6 || n == 7;
      }
    } else if n < 12 {
      assert n == 8 || n == 9 || n == 10 || n == 11;
    } else {
      assert n == 12 || n == 13 || n == 14 || n == 15;
    }
  }

  lemma JoinNibble(x: int, y: int)
    requires 0 <= x < 2 && 0 <= y < 8
    ensures (8 * x + y) as bv4 == ((x as bv4) << 3) | (y as bv4)
  {
    assert y == 0 || y == 1 || y == 2 || y == 3 || y == 4 || y == 5 || y == 6 || y == 7;
  }

  lemma PackHalf(high: bv4, low: bv4)
    ensures Half(Pack(high, low)) == Pack(high >> 1, ((high & 1) << 3) | (low >> 1))
    ensures Odd(Pack(high, low)) <==> low & 1 == 1
  {
  }

  lemma HalfOfWord(b: byte)
    ensures Half(Word(b)) == Word(b / 2)
    ensures Odd(Word(b)) <==> b % 2 == 1
  {
    hide Pack, Half, Odd;
    var n := b as int;
    PackHalf((n / 16) as bv4, (n % 16) as bv4);
    HalfNibble(n / 16);
    HalfNibble(n % 16);
    JoinNibble(n / 16 % 2, n % 16 / 2);
    assert n / 2 / 16 == n / 16 / 2 && n / 2 % 16 == 8 * (n / 16 % 2) + n % 16 / 2;
    assert n % 16 % 2 == n % 2;
  }

  lemma LowDigit(w: bv32)
    ensures LowBit(w) == Digit(Odd(w))
  {
  }

  /** The register takes a byte's bits in the order of transmission. */
  lemma {:induction false} FeedBitsIsFeedAll(c: bv32, b: byte, k: nat)
    ensures FeedBits(c, Word(b), k) == FeedAll(c, LowBits(b as int, k))
    decreases k
  {
    hide Shift, Xor, Half, LowBit, Word, Odd, Digit;
    if k > 0 {
      HalfOfWord(b);
      LowDigit(Word(b));
      var bit := b % 2 == 1;
      FeedBitsIsFeedAll(Shift(Xor(c, Digit(bit))), b / 2, k - 1);
      FeedAllConcat(c, [bit], LowBits(b as int / 2, k - 1));
      FeedOne(c, bit);
    }
  }

  lemma {:induction false} FeedIsFeedAll(c: bv32, message: seq<byte>)
    ensures Feed(c, message) == FeedAll(c, MessageBits(message))
    decreases |message|
  {
    hide Shift, Xor, FeedBits, Word, FeedAll, LowBits;
    if message == [] {
      NothingFed(c);
    } else {
      var bits := LowBits(message[0] as int, 8);
      FeedBitsIsFeedAll(c, message[0], 8);
      FeedIsFeedAll(FeedAll(c, bits), message[1..]);
      FeedAllConcat(c, bits, MessageBits(message[1..]));
    }
  }

  lemma NothingFed(c: bv32)
    ensures FeedAll(c, []) == c
  {
  }

  // ---------------------------------------------------------------------------
  //  Division in the register
  // ---------------------------------------------------------------------------

  const TOP: bv32 := 0x80000000   // the constant polynomial one

  function TopDigit(bit: bool): bv32 {
    if bit then TOP else 0
  }

  /** Long division, with the remainder in the register. */
  function Divided(bits: seq<bool>): bv32
    decreases |bits|
  {
    if bits == [] then 0
    else
      var n := |bits| - 1;
      Xor(Shift(Divided(bits[..n])), TopDigit(bits[n]))
  }

  lemma PolynomialOfTop(bit: bool)
    ensures PolynomialOf(TopDigit(bit)) == Constant(bit)
  {
    hide Bit;
    forall e: nat | e < 32
      ensures Coefficient(TopDigit(bit), e) <==> bit && e == 0
    {
      TopBit(31 - e);
      ZeroBit(31 - e);
    }
  }

  lemma {:induction false} ZeroBit(k: nat)
    ensures !Bit(0, k)
    decreases k
  {
    if k > 0 {
      assert Half(0) == 0;
      ZeroBit(k - 1);
    }
  }

  lemma TopBit(k: nat)
    requires k < 32
    ensures Bit(TOP, k) <==> k == 31
  {
    hide Bit;
    if k < 4 {
      FourBits(0x80000000, 0);
    } else {
      FourBits(0x80000000, k - 4);
      if k < 8 {
        FourBits(0x8000000, 0);
      } else {
        FourBits(0x8000000, k - 8);
        if k < 12 {
          FourBits(0x800000, 0);
        } else {
          FourBits(0x800000, k - 12);
          HighTopBit(k);
        }
      }
    }
  }

  lemma HighTopBit(k: nat)
    requires 12 <= k < 32
    ensures Bit(0x80000, k - 12) <==> k == 31
  {
    hide Bit;
    if k < 16 {
      FourBits(0x80000, 0);
    } else {
      FourBits(0x80000, k - 16);
      if k < 20 {
        FourBits(0x8000, 0);
      } else {
        FourBits(0x8000, k - 20);
        if k < 24 {
          FourBits(0x800, 0);
        } else {
          FourBits(0x800, k - 24);
          if k < 28 {
            FourBits(0x80, 0);
          } else {
            FourBits(0x80, k - 28);
            FourBits(0x8, 0);
          }
        }
      }
    }
  }

  lemma {:induction false} DividedIsRemainder(bits: seq<bool>)
    ensures PolynomialOf(Divided(bits)) == Remainder(bits)
    decreases |bits|
  {
    hide PolynomialOf, Xor, Shift, TopDigit, Sum, Step, Constant;
    if bits == [] {
      NoCoefficients();
    } else {
      var n := |bits| - 1;
      DividedIsRemainder(bits[..n]);
      ShiftIsStep(Divided(bits[..n]));
      PolynomialOfTop(bits[n]);
      PolynomialOfXor(Shift(Divided(bits[..n])), TopDigit(bits[n]));
    }
  }

  lemma NoCoefficients()
    ensures PolynomialOf(0) == {}
  {
    hide Bit;
    forall e: nat | e < 32
      ensures !Coefficient(0, e)
    {
      ZeroBit(31 - e);
    }
  }

  function Zeros(n: nat): (bits: seq<bool>)
    ensures |bits| == n
  {
    seq(n, i => false)
  }

  lemma ShiftByMore(c: bv32, k: nat)
    ensures ShiftBy(c, k + 1) == Shift(ShiftBy(c, k)) == ShiftBy(Shift(c), k)
  {
    hide Shift;
    ShiftBySum(c, k, 1);
    assert ShiftBy(ShiftBy(c, k), 1) == ShiftBy(Shift(ShiftBy(c, k)), 0);
  }

  /** Digits of zero only multiply by x. */
  lemma {:induction false} DividedZeros(bits: seq<bool>, k: nat)
    ensures Divided(bits + Zeros(k)) == ShiftBy(Divided(bits), k)
    decreases k
  {
    hide Shift, Xor;
    if k == 0 {
      assert bits + Zeros(0) == bits;
    } else {
      DividedZeros(bits, k - 1);
      assert (bits + Zeros(k))[..|bits| + k - 1] == bits + Zeros(k - 1);
      ShiftByMore(Divided(bits), k - 1);
      XorZero(ShiftBy(Divided(bits), k));
    }
  }

  lemma {:induction false} ShiftByZero(k: nat)
    ensures ShiftBy(0, k) == 0
    decreases k
  {
    if k > 0 {
      assert Shift(0) == 0;
      ShiftByZero(k - 1);
    }
  }

  /** The constant one is 31 steps above the digit that is fed in. */
  lemma TopReachesDigit(bit: bool)
    ensures ShiftBy(TopDigit(bit), 32) == Shift(Digit(bit))
  {
    hide ShiftBy;
    if bit {
      ByteDown(0x80000000, 0x800000);
      ByteDown(0x800000, 0x8000);
      ByteDown(0x8000, 0x80);
      ShiftBySum(TOP, 8, 8);
      ShiftBySum(TOP, 16, 8);
      ShiftBySum(TOP, 24, 8);
      SevenDown();
      ShiftByMore(0x80, 7);
    } else {
      ShiftByZero(32);
    }
  }

  lemma ByteDown(w: bv32, v: bv32)
    requires w == Up8(v) && ThreeBytes(v)
    ensures ShiftBy(w, 8) == v
  {
    hide ShiftBy, Up8, Down8, ThreeBytes;
    ShiftOfUp8(v);
    UpDown(v);
  }

  lemma SevenDown()
    ensures ShiftBy(0x80, 7) == 1
  {
    assert Shift(0x80) == 0x40 && Shift(0x40) == 0x20 && Shift(0x20) == 0x10 && Shift(0x10) == 8;
    assert Shift(8) == 4 && Shift(4) == 2 && Shift(2) == 1;
    hide Shift;
    assert ShiftBy(0x80, 7) == ShiftBy(0x40, 6) == ShiftBy(0x20, 5) == ShiftBy(0x10, 4);
    assert ShiftBy(0x10, 4) == ShiftBy(8, 3) == ShiftBy(4, 2) == ShiftBy(2, 1) == ShiftBy(1, 0);
  }

  /** Feeding bits at the top is dividing them 32 digits further on. */
  lemma {:induction false} FeedAllIsDivided(bits: seq<bool>)
    ensures FeedAll(0, bits) == ShiftBy(Divided(bits), 32)
    decreases |bits|
  {
    hide Shift, Xor, ShiftBy, Digit, TopDigit;
    if bits == [] {
      ShiftByZero(32);
    } else {
      var n := |bits| - 1;
      var d := Divided(bits[..n]);
      FeedAllIsDivided(bits[..n]);
      ShiftLinear(ShiftBy(d, 32), Digit(bits[n]));
      ShiftByLinear(Shift(d), TopDigit(bits[n]), 32);
      ShiftByMore(d, 32);
      TopReachesDigit(bits[n]);
    }
  }

  /** What the register starts with only moves on. */
  lemma {:induction false} FeedAllFrom(c: bv32, bits: seq<bool>)
    ensures FeedAll(c, bits) == Xor(FeedAll(0, bits), ShiftBy(c, |bits|))
    decreases |bits|
  {
    hide Shift, Xor, Digit;
    if bits == [] {
      XorZero(c);
      XorCommutes(c, 0);
    } else {
      var n := |bits| - 1;
      var f, d, m := FeedAll(0, bits[..n]), Digit(bits[n]), ShiftBy(c, n);
      FeedAllFrom(c, bits[..n]);
      XorAssociative(f, m, d);
      XorCommutes(m, d);
      XorAssociative(f, d, m);
      ShiftLinear(Xor(f, d), m);
      ShiftByMore(c, n);
    }
  }

  // ---- The first 32 digits complemented

  /** The first 32 digits complemented. */
  function Inverted(bits: seq<bool>): (now: seq<bool>)
    ensures |now| == |bits|
  {
    seq(|bits|, i requires 0 <= i < |bits| => if i < 32 then !bits[i] else bits[i])
  }

  function Ones(n: nat): (bits: seq<bool>)
    ensures |bits| == n
  {
    seq(n, i => i < 32)
  }

  lemma {:induction false} DividedInverted(bits: seq<bool>)
    ensures Divided(Inverted(bits)) == Xor(Divided(bits), Divided(Ones(|bits|)))
    decreases |bits|
  {
    hide Shift, Xor, TopDigit;
    if bits == [] {
      XorZero(0);
    } else {
      var n := |bits| - 1;
      var a, b, x, y := Shift(Divided(bits[..n])), Shift(Divided(Ones(n))), TopDigit(bits[n]), TopDigit(n < 32);
      DividedInverted(bits[..n]);
      assert Inverted(bits)[..n] == Inverted(bits[..n]) && Ones(n + 1)[..n] == Ones(n);
      ShiftLinear(Divided(bits[..n]), Divided(Ones(n)));
      FlippedDigit(bits[n], n < 32);
      Rearranged(a, b, x, y);
    }
  }

  lemma FlippedDigit(bit: bool, flip: bool)
    ensures TopDigit(if flip then !bit else bit) == Xor(TopDigit(bit), TopDigit(flip))
  {
  }

  lemma Rearranged(a: bv32, b: bv32, x: bv32, y: bv32)
    ensures Xor(Xor(a, b), Xor(x, y)) == Xor(Xor(a, x), Xor(b, y))
  {
    hide Xor;
    XorAssociative(a, b, Xor(x, y));
    XorCommon(x, y, b);
    XorAssociative(a, x, Xor(b, y));
    XorAssociative(x, b, y);
    XorCommutes(x, b);
    XorAssociative(b, x, y);
  }

  lemma OneMoreOne(k: nat, w: bv32)
    requires k < 32 && Divided(Ones(k)) == w && LowBit(w) == 0
    ensures Divided(Ones(k + 1)) == Xor(Half(w), TOP)
  {
    hide Shift, Xor, LowBit, Half;
    assert Ones(k + 1)[..k] == Ones(k);
    ShiftOfEven(w);
  }

  function Lead(w: bv32): bv32 {
    Xor(Half(w), TOP)
  }

  lemma EightLeads(w: bv32)
    requires LowPart(w) == 0
    ensures Lead(Lead(Lead(Lead(Lead(Lead(Lead(Lead(w)))))))) == Xor(Down8(w), 0xFF000000)
    ensures LowBit(w) == 0 && LowBit(Lead(w)) == 0 && LowBit(Lead(Lead(w))) == 0
    ensures LowBit(Lead(Lead(Lead(w)))) == 0 && LowBit(Lead(Lead(Lead(Lead(w))))) == 0
    ensures LowBit(Lead(Lead(Lead(Lead(Lead(w)))))) == 0
    ensures LowBit(Lead(Lead(Lead(Lead(Lead(Lead(w))))))) == 0
    ensures LowBit(Lead(Lead(Lead(Lead(Lead(Lead(Lead(w)))))))) == 0
  {
  }

  lemma EightMoreOnes(k: nat, w: bv32)
    requires k + 8 <= 32 && Divided(Ones(k)) == w && LowPart(w) == 0
    ensures Divided(Ones(k + 8)) == Xor(Down8(w), 0xFF000000)
  {
    hide Divided, Xor, Half, LowBit, Ones, Down8;
    EightLeads(w);
    var w1 := Lead(w);
    var w2 := Lead(w1);
    var w3 := Lead(w2);
    var w4 := Lead(w3);
    var w5 := Lead(w4);
    var w6 := Lead(w5);
    OneMoreOne(k, w);
    OneMoreOne(k + 1, w1);
    OneMoreOne(k + 2, w2);
    OneMoreOne(k + 3, w3);
    OneMoreOne(k + 4, w4);
    OneMoreOne(k + 5, w5);
    OneMoreOne(k + 6, w6);
    OneMoreOne(k + 7, Lead(w6));
  }

  lemma ThirtyTwoOnes()
    ensures Divided(Ones(32)) == ALL_ONES
  {
    hide Divided;
    NoOnes();
    EightMoreOnes(0, 0);
    EightMoreOnes(8, 0xFF000000);
    EightMoreOnes(16, 0xFFFF0000);
    EightMoreOnes(24, 0xFFFFFF00);
  }

  lemma NoOnes()
    ensures Divided(Ones(0)) == 0
  {
  }

  // ---------------------------------------------------------------------------
  //  The standard's checksum
  // ---------------------------------------------------------------------------

  /** The coefficients that are not in p, below x^32. */
  function Complement(p: Polynomial): Polynomial {
    set e: nat | e < 32 && e !in p
  }

  /**
   * Clause 3.2.9 of IEEE 802.3: the message's bits in the order of transmission, 32 zeros behind
   * them and the first 32 digits complemented, divided by the generator; the checksum is the
   * complement of the remainder.
   */
  lemma ChecksumIsRemainder(message: seq<byte>)
    ensures PolynomialOf(Checksum(message)) == Complement(Remainder(Inverted(MessageBits(message) + Zeros(32))))
  {
    hide Divided, Shift, Xor, FeedAll, Feed, MessageBits, PolynomialOf, Remainder, Inverted, Ones, Complement, ShiftBy, Zeros;
    var bits := MessageBits(message);
    var digits := bits + Zeros(32);
    DividedInverted(digits);
    DividedZeros(bits, 32);
    OnesAreZerosBehind(|bits|);
    DividedZeros(Ones(32), |bits|);
    ThirtyTwoOnes();
    FeedAllIsDivided(bits);
    FeedAllFrom(ALL_ONES, bits);
    FeedIsFeedAll(ALL_ONES, message);
    DividedIsRemainder(Inverted(digits));
    PolynomialOfComplement(Feed(ALL_ONES, message));
  }

  lemma OnesAreZerosBehind(n: nat)
    ensures Ones(n + 32) == Ones(32) + Zeros(n)
  {
  }

  lemma PolynomialOfComplement(w: bv32)
    ensures PolynomialOf(Xor(w, ALL_ONES)) == Complement(PolynomialOf(w))
  {
    hide Xor, Bit;
    PolynomialOfXor(w, ALL_ONES);
    forall e: nat | e < 32
      ensures Coefficient(ALL_ONES, e)
    {
      OneBit(31 - e);
    }
  }

  lemma OneBit(k: nat)
    requires k < 32
    ensures Bit(ALL_ONES, k)
  {
    hide Bit;
    if k < 4 {
      FourBits(0xFFFFFFFF, 0);
    } else {
      FourBits(0xFFFFFFFF, k - 4);
      if k < 8 {
        FourBits(0xFFFFFFF, 0);
      } else {
        FourBits(0xFFFFFFF, k - 8);
        if k < 12 {
          FourBits(0xFFFFFF, 0);
        } else {
          FourBits(0xFFFFFF, k - 12);
          HighOneBit(k);
        }
      }
    }
  }

  lemma HighOneBit(k: nat)
    requires 12 <= k < 32
    ensures Bit(0xFFFFF, k - 12)
  {
    hide Bit;
    if k < 16 {
      FourBits(0xFFFFF, 0);
    } else {
      FourBits(0xFFFFF, k - 16);
      if k < 20 {
        FourBits(0xFFFF, 0);
      } else {
        FourBits(0xFFFF, k - 20);
        if k < 24 {
          FourBits(0xFFF, 0);
        } else {
          FourBits(0xFFF, k - 24);
          if k < 28 {
            FourBits(0xFF, 0);
          } else {
            FourBits(0xFF, k - 28);
            FourBits(0xF, 0);
          }
        }
      }
    }
  }

  lemma EightShifts(c: bv32)
    ensures ShiftBy(c, 8) == Shift(Shift(Shift(Shift(Shift(Shift(Shift(Shift(c))))))))
  {
    hide Shift;
    var c1 := Shift(c);
    var c2 := Shift(c1);
    var c3 := Shift(c2);
    var c4 := Shift(c3);
    assert ShiftBy(c, 8) == ShiftBy(c1, 7) == ShiftBy(c2, 6) == ShiftBy(c3, 5) == ShiftBy(c4, 4);
    var c5 := Shift(c4);
    var c6 := Shift(c5);
    var c7 := Shift(c6);
    assert ShiftBy(c4, 4) == ShiftBy(c5, 3) == ShiftBy(c6, 2) == ShiftBy(c7, 1) == ShiftBy(Shift(c7), 0);
  }

  lemma FedByte(c: bv32, b: byte, w: bv32, next: bv32, message: seq<byte>)
    requires message != [] && message[0] == b
    requires w == Word(b) && OneByte(w)
    requires Shift(Shift(Shift(Shift(Shift(Shift(Shift(Shift(Xor(c, w))))))))) == next
    ensures Feed(c, message) == Feed(next, message[1..])
  {
    hide Shift, Xor, Word, OneByte, FeedBits;
    FeedByte(c, w);
    EightShifts(Xor(c, w));
  }

  lemma FirstThree()
    ensures Feed(0xFFFFFFFF, [0x31, 0x32, 0x33]) == 0x77B79C2D
  {
    hide Feed;
    var s := [0x31, 0x32, 0x33];
    FedByte(0xFFFFFFFF, 0x31, 0x31, 0x7C231048, s);
    FedByte(0x7C231048, 0x32, 0x32, 0xB0ACBB32, s[1..]);
    FedByte(0xB0ACBB32, 0x33, 0x33, 0x77B79C2D, s[1..][1..]);
    assert s[1..][1..][1..] == [];
    NothingLeft(0x77B79C2D);
  }

  lemma NextThree()
    ensures Feed(0x77B79C2D, [0x34, 0x35, 0x36]) == 0xF68D2C9E
  {
    hide Feed;
    var s := [0x34, 0x35, 0x36];
    FedByte(0x77B79C2D, 0x34, 0x34, 0x641C1F5C, s);
    FedByte(0x641C1F5C, 0x35, 0x35, 0x340AC5E3, s[1..]);
    FedByte(0x340AC5E3, 0x36, 0x36, 0xF68D2C9E, s[1..][1..]);
    assert s[1..][1..][1..] == [];
    NothingLeft(0xF68D2C9E);
  }

  lemma LastThree()
    ensures Feed(0xF68D2C9E, [0x37, 0x38, 0x39]) == 0x340BC6D9
  {
    hide Feed;
    var s := [0x37, 0x38, 0x39];
    FedByte(0xF68D2C9E, 0x37, 0x37, 0xAFFC9660, s);
    FedByte(0xAFFC9660, 0x38, 0x38, 0x651F2550, s[1..]);
    FedByte(0x651F2550, 0x39, 0x39, 0x340BC6D9, s[1..][1..]);
    assert s[1..][1..][1..] == [];
    NothingLeft(0x340BC6D9);
  }

  lemma NothingLeft(c: bv32)
    ensures Feed(c, []) == c
  {
  }

  /** The check value of this checksum: that of the digits one to nine. */
  lemma CheckValue()
    ensures Checksum([0x31, 0x32, 0x33, 0x34, 0x35, 0x36, 0x37, 0x38, 0x39]) == 0xCBF43926
  {
    hide Feed;
    var a, b, c: seq<byte> := [0x31, 0x32, 0x33], [0x34, 0x35, 0x36], [0x37, 0x38, 0x39];
    FirstThree();
    NextThree();
    LastThree();
    FeedConcat(ALL_ONES, a, b);
    FeedConcat(ALL_ONES, a + b, c);
    assert a + b + c == [0x31, 0x32, 0x33, 0x34, 0x35, 0x36, 0x37, 0x38, 0x39];
  }
}
