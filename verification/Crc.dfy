/**
 * The CRC-32 of the log's frames.
 *
 * `Feed` is the definition: a 32-bit shift register that takes the message bit by
 * bit, least significant bit of each byte first (clause 3.2.9 of IEEE 802.3).
 * `Crc32` is the table-driven loop that the log runs.  Everything the log relies on
 * follows from two facts about one step of the register: it is linear over
 * exclusive-or, and it is a bijection.
 *
 * The bit-vector operators are named, and their bodies hidden where a proof only
 * needs their algebra.
 */
module Crc {
  import opened Bytes

  // ---------------------------------------------------------------------------
  //  32-bit words
  // ---------------------------------------------------------------------------

  const ALL_ONES: bv32 := 0xFFFFFFFF

  function Xor(a: bv32, b: bv32): bv32 { a ^ b }
  function Up8(w: bv32): bv32 { w << 8 }
  function Down8(w: bv32): bv32 { w >> 8 }
  function Half(w: bv32): bv32 { w >> 1 }
  function LowBit(w: bv32): bv32 { w & 1 }
  function LowPart(w: bv32): bv32 { w & 0xFF }
  predicate Odd(w: bv32) { w & 1 == 1 }

  predicate OneByte(w: bv32) { w & 0xFFFFFF00 == 0 }
  predicate TwoBytes(w: bv32) { w & 0xFFFF0000 == 0 }
  predicate ThreeBytes(w: bv32) { w & 0xFF000000 == 0 }

  lemma XorCancel(a: bv32, b: bv32)
    ensures Xor(a, Xor(a, b)) == b
  {
  }

  lemma XorZero(a: bv32)
    ensures Xor(a, 0) == a
  {
  }

  lemma XorAssociative(a: bv32, b: bv32, c: bv32)
    ensures Xor(Xor(a, b), c) == Xor(a, Xor(b, c))
  {
    assert (a ^ b) ^ c == a ^ (b ^ c);
  }

  lemma XorCommutes(a: bv32, b: bv32)
    ensures Xor(a, b) == Xor(b, a)
  {
  }

  lemma XorCommon(a: bv32, b: bv32, c: bv32)
    ensures Xor(Xor(c, a), Xor(c, b)) == Xor(a, b)
    ensures Xor(Xor(c, a), b) == Xor(c, Xor(a, b)) == Xor(a, Xor(c, b))
  {
    hide Xor;
    XorAssociative(c, a, b);
    XorAssociative(a, c, b);
    XorCommutes(a, c);
    XorAssociative(c, a, Xor(c, b));
    XorCancel(c, Xor(a, b));
  }

  lemma XorRightInjective(a: bv32, b: bv32, c: bv32)
    requires Xor(a, b) == Xor(a, c)
    ensures b == c
  {
    hide Xor;
    XorCancel(a, b);
    XorCancel(a, c);
  }

  // ---------------------------------------------------------------------------
  //  Bytes as parts of a word
  // ---------------------------------------------------------------------------

  function Pack(high: bv4, low: bv4): bv32 {
    ((high as bv32) << 4) | (low as bv32)
  }

  function Join(high: bv4, low: bv4): byte {
    16 * high as byte + low as byte
  }

  function LowNibble(w: bv32): bv4 {
    (w & 0xF) as bv4
  }

  function HighNibble(w: bv32): bv4 {
    ((w >> 4) & 0xF) as bv4
  }

  /** The byte, zero-extended to a word. */
  function Word(b: byte): bv32 {
    Pack((b / 16) as bv4, (b % 16) as bv4)
  }

  /** The low byte of a word. */
  function LowByte(w: bv32): byte {
    Join(HighNibble(w), LowNibble(w))
  }

  /** What copying four bytes into a 32-bit variable yields. */
  function LoadWord(s: seq<byte>): bv32
    requires |s| <= 4
  {
    if s == [] then 0 else Xor(Word(s[0]), Up8(LoadWord(s[1..])))
  }

  /** The four bytes of a 32-bit variable, in memory order. */
  function StoreWord(w: bv32): (s: seq<byte>)
    ensures |s| == 4
  {
    [LowByte(w), LowByte(Down8(w)), LowByte(Down8(Down8(w))), LowByte(Down8(Down8(Down8(w))))]
  }

  lemma NibbleRoundTrip(n: int)
    requires 0 <= n < 16
    ensures (n as bv4) as int == n
  {
  }

  lemma PackFits(high: bv4, low: bv4)
    ensures OneByte(Pack(high, low))
  {
  }

  lemma PackInjective(a: bv4, b: bv4, c: bv4, d: bv4)
    requires Pack(a, b) == Pack(c, d)
    ensures a == c && b == d
  {
  }

  lemma PackNibbles(w: bv32)
    requires OneByte(w)
    ensures Pack(HighNibble(w), LowNibble(w)) == w
  {
  }

  lemma NibblesOfLowPart(w: bv32)
    ensures HighNibble(LowPart(w)) == HighNibble(w) && LowNibble(LowPart(w)) == LowNibble(w)
  {
  }

  lemma WordFits(b: byte)
    ensures OneByte(Word(b))
  {
    PackFits((b / 16) as bv4, (b % 16) as bv4);
  }

  lemma HighNibbleInjective(a: byte, b: byte)
    requires (a / 16) as bv4 == (b / 16) as bv4
    ensures a / 16 == b / 16
  {
    NibbleRoundTrip((a / 16) as int);
    NibbleRoundTrip((b / 16) as int);
  }

  lemma LowNibbleInjective(a: byte, b: byte)
    requires (a % 16) as bv4 == (b % 16) as bv4
    ensures a % 16 == b % 16
  {
    NibbleRoundTrip((a % 16) as int);
    NibbleRoundTrip((b % 16) as int);
  }

  lemma WordInjective(a: byte, b: byte)
    requires Word(a) == Word(b)
    ensures a == b
  {
    hide Pack;
    PackInjective((a / 16) as bv4, (a % 16) as bv4, (b / 16) as bv4, (b % 16) as bv4);
    HighNibbleInjective(a, b);
    LowNibbleInjective(a, b);
  }

  lemma WordOfJoin(high: bv4, low: bv4)
    ensures Word(Join(high, low)) == Pack(high, low)
  {
    hide Pack;
    var b := Join(high, low);
    assert b / 16 == high as byte && b % 16 == low as byte;
  }

  lemma WordOfLowByte(w: bv32)
    ensures Word(LowByte(w)) == LowPart(w)
  {
    hide Pack, Word, Join, HighNibble, LowNibble, OneByte, LowPart;
    NibblesOfLowPart(w);
    WordOfJoin(HighNibble(w), LowNibble(w));
    LowPartFits(w);
    PackNibbles(LowPart(w));
  }

  lemma LowPartFits(w: bv32)
    ensures OneByte(LowPart(w))
  {
  }

  lemma SplitWord(w: bv32)
    ensures Xor(LowPart(w), Up8(Down8(w))) == w
  {
  }

  lemma LowPartOfJoined(a: bv32, x: bv32)
    requires OneByte(a)
    ensures LowPart(Xor(a, Up8(x))) == a
  {
  }

  lemma HighPartOfJoined(a: bv32, x: bv32)
    requires OneByte(a) && ThreeBytes(x)
    ensures Down8(Xor(a, Up8(x))) == x
  {
  }

  lemma ZeroFits()
    ensures OneByte(0) && TwoBytes(0) && ThreeBytes(0)
  {
  }

  lemma OneByteFits(w: bv32)
    requires OneByte(w)
    ensures TwoBytes(w)
  {
  }

  lemma TwoBytesFit(w: bv32)
    requires TwoBytes(w)
    ensures ThreeBytes(w)
  {
  }

  lemma JoinedWithZero(a: bv32)
    ensures Xor(a, Up8(0)) == a
  {
  }

  lemma JoinedWithOne(a: bv32, x: bv32)
    requires OneByte(a) && OneByte(x)
    ensures TwoBytes(Xor(a, Up8(x)))
  {
  }

  lemma JoinedWithTwo(a: bv32, x: bv32)
    requires OneByte(a) && TwoBytes(x)
    ensures ThreeBytes(Xor(a, Up8(x)))
  {
  }

  lemma {:induction false} LoadWordFits(s: seq<byte>)
    requires |s| <= 3
    ensures |s| <= 1 ==> OneByte(LoadWord(s))
    ensures |s| <= 2 ==> TwoBytes(LoadWord(s))
    ensures ThreeBytes(LoadWord(s))
  {
    hide Xor, Up8, Word, OneByte, TwoBytes, ThreeBytes;
    ZeroFits();
    if s != [] {
      var a, x := Word(s[0]), LoadWord(s[1..]);
      WordFits(s[0]);
      LoadWordFits(s[1..]);
      if |s| == 1 {
        JoinedWithZero(a);
        OneByteFits(a);
        TwoBytesFit(a);
      } else if |s| == 2 {
        JoinedWithOne(a, x);
        TwoBytesFit(LoadWord(s));
      } else {
        JoinedWithTwo(a, x);
      }
    }
  }

  lemma {:induction false} LoadWordInjective(s: seq<byte>, t: seq<byte>)
    requires |s| == |t| <= 4
    requires LoadWord(s) == LoadWord(t)
    ensures s == t
  {
    if s != [] {
      hide Xor, Up8, Down8, LowPart, Word, OneByte, TwoBytes, ThreeBytes;
      WordFits(s[0]);
      WordFits(t[0]);
      LoadWordFits(s[1..]);
      LoadWordFits(t[1..]);
      LowPartOfJoined(Word(s[0]), LoadWord(s[1..]));
      LowPartOfJoined(Word(t[0]), LoadWord(t[1..]));
      HighPartOfJoined(Word(s[0]), LoadWord(s[1..]));
      HighPartOfJoined(Word(t[0]), LoadWord(t[1..]));
      WordInjective(s[0], t[0]);
      LoadWordInjective(s[1..], t[1..]);
      assert s == [s[0]] + s[1..] && t == [t[0]] + t[1..];
    }
  }

  lemma LoadFirst(w: bv32, s: seq<byte>)
    requires 0 < |s| <= 4 && s[0] == LowByte(w) && LoadWord(s[1..]) == Down8(w)
    ensures LoadWord(s) == w
  {
    hide Xor, Up8, Down8, LowPart, Word, LowByte;
    WordOfLowByte(w);
    SplitWord(w);
  }

  lemma TopIsClear(w: bv32)
    ensures Down8(Down8(Down8(Down8(w)))) == 0
  {
  }

  lemma LoadStored(w: bv32)
    ensures LoadWord(StoreWord(w)) == w
  {
    hide Xor, Up8, Down8, Word, LowByte;
    var s := StoreWord(w);
    var w1 := Down8(w);
    var w2 := Down8(w1);
    var w3 := Down8(w2);
    assert s[1..][1..] == s[2..] && s[2..][1..] == s[3..] && s[3..][1..] == s[4..] == [];
    TopIsClear(w);
    LoadFirst(w3, s[3..]);
    LoadFirst(w2, s[2..]);
    LoadFirst(w1, s[1..]);
    LoadFirst(w, s);
  }

  /** Storing and loading a 32-bit variable are inverse, both ways. */
  lemma StoreLoaded(s: seq<byte>)
    requires |s| == 4
    ensures StoreWord(LoadWord(s)) == s
  {
    hide LoadWord, StoreWord;
    LoadStored(LoadWord(s));
    LoadWordInjective(StoreWord(LoadWord(s)), s);
  }

  // ---------------------------------------------------------------------------
  //  The shift register
  // ---------------------------------------------------------------------------

  const POLYNOMIAL: bv32 := 0xEDB88320

  /** One step of the register with no message bit coming in. */
  function Shift(c: bv32): bv32 {
    if Odd(c) then Xor(POLYNOMIAL, Half(c)) else Half(c)
  }

  function ShiftBy(c: bv32, k: nat): bv32
    decreases k, c
  {
    if k == 0 then c else ShiftBy(Shift(c), k - 1)
  }

  /** Feeds the `k` low bits of `b` to the register, least significant bit first. */
  function FeedBits(c: bv32, b: bv32, k: nat): bv32
    decreases k, b
  {
    if k == 0 then c else FeedBits(Shift(Xor(c, LowBit(b))), Half(b), k - 1)
  }

  /** Feeds a message to the register, bit by bit. */
  function Feed(c: bv32, message: seq<byte>): bv32
    decreases |message|
  {
    if message == [] then c else Feed(FeedBits(c, Word(message[0]), 8), message[1..])
  }

  /** The checksum of a message. */
  function Checksum(message: seq<byte>): bv32 {
    Xor(Feed(ALL_ONES, message), ALL_ONES)
  }

  lemma OddSum(a: bv32, b: bv32)
    ensures Odd(Xor(a, b)) <==> Odd(a) != Odd(b)
  {
  }

  lemma HalfSum(a: bv32, b: bv32)
    ensures Half(Xor(a, b)) == Xor(Half(a), Half(b))
  {
  }

  lemma ShiftLinear(a: bv32, b: bv32)
    ensures Shift(Xor(a, b)) == Xor(Shift(a), Shift(b))
  {
    hide Xor, Odd, Half;
    OddSum(a, b);
    HalfSum(a, b);
    XorCommon(Half(a), Half(b), POLYNOMIAL);
  }

  lemma ShiftInjective(a: bv32, b: bv32)
    requires Shift(a) == Shift(b)
    ensures a == b
  {
  }

  lemma {:induction false} ShiftByLinear(a: bv32, b: bv32, k: nat)
    ensures ShiftBy(Xor(a, b), k) == Xor(ShiftBy(a, k), ShiftBy(b, k))
    decreases k
  {
    hide Xor, Shift;
    if k > 0 {
      ShiftLinear(a, b);
      ShiftByLinear(Shift(a), Shift(b), k - 1);
    }
  }

  lemma {:induction false} ShiftByInjective(a: bv32, b: bv32, k: nat)
    requires ShiftBy(a, k) == ShiftBy(b, k)
    ensures a == b
    decreases k
  {
    hide Shift;
    if k > 0 {
      ShiftByInjective(Shift(a), Shift(b), k - 1);
      ShiftInjective(a, b);
    }
  }

  lemma {:induction false} ShiftBySum(c: bv32, j: nat, k: nat)
    ensures ShiftBy(ShiftBy(c, j), k) == ShiftBy(c, j + k)
    decreases j
  {
    hide Shift;
    if j > 0 {
      ShiftBySum(Shift(c), j - 1, k);
    }
  }

  function Down(w: bv32, k: nat): bv32
    decreases k, w
  {
    if k == 0 then w else Down(Half(w), k - 1)
  }

  lemma DownByEight(w: bv32)
    ensures Down(w, 8) == Down8(w)
  {
    hide Half, Down8;
    var w1 := Half(w);
    var w2 := Half(w1);
    var w3 := Half(w2);
    var w4 := Half(w3);
    var w5 := Half(w4);
    var w6 := Half(w5);
    var w7 := Half(w6);
    assert Down(w, 8) == Down(w1, 7) == Down(w2, 6) == Down(w3, 5) == Down(w4, 4);
    assert Down(w4, 4) == Down(w5, 3) == Down(w6, 2) == Down(w7, 1) == Half(w7);
    EightSteps(w);
  }

  lemma EightSteps(w: bv32)
    ensures Half(Half(Half(Half(Half(Half(Half(Half(w)))))))) == Down8(w)
  {
  }

  /** The `k` low bits of the word are clear. */
  predicate LowBitsClear(w: bv32, k: nat)
    decreases k
  {
    k == 0 || (LowBit(w) == 0 && LowBitsClear(Half(w), k - 1))
  }

  lemma ShiftOfEven(w: bv32)
    requires LowBit(w) == 0
    ensures Shift(w) == Half(w)
  {
    hide Xor, Half;
  }

  lemma {:induction false} ShiftOfClearBits(w: bv32, k: nat)
    requires LowBitsClear(w, k)
    ensures ShiftBy(w, k) == Down(w, k)
    decreases k
  {
    hide Shift, Half, LowBit;
    if k > 0 {
      ShiftOfEven(w);
      ShiftOfClearBits(Half(w), k - 1);
    }
  }

  lemma Up8IsClear(w: bv32)
    ensures LowBitsClear(Up8(w), 8)
  {
    hide LowBitsClear, LowBit, Half, Up8;
    var v := Up8(w);
    Up8Bits(w);
    LowBitsClearStep(Half(Half(Half(Half(Half(Half(Half(Half(v)))))))), 0);
    LowBitsClearStep(Half(Half(Half(Half(Half(Half(Half(v))))))), 0);
    LowBitsClearStep(Half(Half(Half(Half(Half(Half(v)))))), 1);
    LowBitsClearStep(Half(Half(Half(Half(Half(v))))), 2);
    LowBitsClearStep(Half(Half(Half(Half(v)))), 3);
    LowBitsClearStep(Half(Half(Half(v))), 4);
    LowBitsClearStep(Half(Half(v)), 5);
    LowBitsClearStep(Half(v), 6);
    LowBitsClearStep(v, 7);
  }

  lemma LowBitsClearStep(w: bv32, k: nat)
    ensures LowBitsClear(w, 0)
    ensures LowBit(w) == 0 && LowBitsClear(Half(w), k) ==> LowBitsClear(w, k + 1)
  {
    hide LowBit, Half;
  }

  lemma Up8Bits(w: bv32)
    ensures var v := Up8(w);
      LowBit(v) == 0 && LowBit(Half(v)) == 0 && LowBit(Half(Half(v))) == 0
      && LowBit(Half(Half(Half(v)))) == 0
      && LowBit(Half(Half(Half(Half(v))))) == 0
      && LowBit(Half(Half(Half(Half(Half(v)))))) == 0
      && LowBit(Half(Half(Half(Half(Half(Half(v))))))) == 0
      && LowBit(Half(Half(Half(Half(Half(Half(Half(v)))))))) == 0
  {
  }

  /** A clear low byte passes through eight steps untouched by the polynomial. */
  lemma ShiftOfUp8(w: bv32)
    ensures ShiftBy(Up8(w), 8) == Down8(Up8(w))
  {
    hide Up8, Down8, Shift, LowBitsClear, Down;
    Up8IsClear(w);
    ShiftOfClearBits(Up8(w), 8);
    DownByEight(Up8(w));
  }

  /** The bits of `b` above the first may be mixed in after one step, moved down. */
  lemma ShiftOfMixed(c: bv32, b: bv32)
    ensures Shift(Xor(c, b)) == Xor(Shift(Xor(c, LowBit(b))), Half(b))
  {
    hide Xor, Shift, Half, LowBit;
    var even := Xor(LowBit(b), b);
    EvenPart(b);
    ShiftOfEven(even);
    ShiftLinear(Xor(c, LowBit(b)), even);
    XorAssociative(c, LowBit(b), even);
    XorCancel(LowBit(b), b);
  }

  lemma EvenPart(b: bv32)
    ensures LowBit(Xor(LowBit(b), b)) == 0
    ensures Half(Xor(LowBit(b), b)) == Half(b)
  {
  }

  lemma {:induction false} FeedLastBits(c: bv32, b: bv32, k: nat)
    requires Down(b, k) == 0
    ensures FeedBits(c, b, k) == ShiftBy(Xor(c, b), k)
    decreases k
  {
    hide Xor, Shift, Half, LowBit;
    if k > 0 {
      ShiftOfMixed(c, b);
      FeedLastBits(Shift(Xor(c, LowBit(b))), Half(b), k - 1);
    } else {
      XorZero(c);
    }
  }

  /** Eight message bits may be mixed in at once, before the eight steps. */
  lemma FeedByte(c: bv32, b: bv32)
    requires OneByte(b)
    ensures FeedBits(c, b, 8) == ShiftBy(Xor(c, b), 8)
  {
    hide Xor, Shift, Half, Down8, FeedBits, ShiftBy, Down, OneByte;
    DownByEight(b);
    OneByteDown(b);
    FeedLastBits(c, b, 8);
  }

  lemma OneByteDown(b: bv32)
    requires OneByte(b)
    ensures Down8(b) == 0
  {
  }

  // ---------------------------------------------------------------------------
  //  What a checksum detects
  // ---------------------------------------------------------------------------

  lemma {:induction false} FeedConcat(c: bv32, s: seq<byte>, t: seq<byte>)
    ensures Feed(c, s + t) == Feed(Feed(c, s), t)
    decreases |s|
  {
    hide FeedBits, Word;
    if s == [] {
      assert s + t == t;
    } else {
      FeedConcat(FeedBits(c, Word(s[0]), 8), s[1..], t);
      assert (s + t)[1..] == s[1..] + t;
    }
  }

  /** Up to four bytes act on the register as one word, mixed in before the steps. */
  lemma {:induction false} FeedWindow(c: bv32, s: seq<byte>)
    requires |s| <= 4
    ensures Feed(c, s) == ShiftBy(Xor(c, LoadWord(s)), 8 * |s|)
    decreases |s|
  {
    hide Xor, Up8, Down8, Shift, FeedBits, Word, OneByte, TwoBytes, ThreeBytes;
    if s == [] {
      XorZero(c);
    } else {
      var w, rest := Word(s[0]), LoadWord(s[1..]);
      WordFits(s[0]);
      LoadWordFits(s[1..]);
      FeedByte(c, w);
      FeedWindow(ShiftBy(Xor(c, w), 8), s[1..]);
      ShiftByLinear(Xor(c, w), Up8(rest), 8);
      ShiftOfUp8(rest);
      UpDown(rest);
      XorAssociative(c, w, Up8(rest));
      ShiftBySum(Xor(c, LoadWord(s)), 8, 8 * |s[1..]|);
    }
  }

  lemma UpDown(w: bv32)
    requires ThreeBytes(w)
    ensures Down8(Up8(w)) == w
  {
  }

  lemma {:induction false} FeedInjectiveInState(c: bv32, d: bv32, s: seq<byte>)
    requires Feed(c, s) == Feed(d, s)
    ensures c == d
    decreases |s|
  {
    hide Xor, FeedBits, ShiftBy, Word, OneByte;
    if s != [] {
      var w := Word(s[0]);
      WordFits(s[0]);
      FeedByte(c, w);
      FeedByte(d, w);
      FeedInjectiveInState(FeedBits(c, w, 8), FeedBits(d, w, 8), s[1..]);
      ShiftByInjective(Xor(c, w), Xor(d, w), 8);
      XorCommutes(c, w);
      XorCommutes(d, w);
      XorRightInjective(w, c, d);
    }
  }

  /** Two messages that differ only within four consecutive bytes leave different registers. */
  lemma BurstDetected(c: bv32, before: seq<byte>, x: seq<byte>, y: seq<byte>, after: seq<byte>)
    requires |x| == |y| <= 4
    requires x != y
    ensures Feed(c, before + x + after) != Feed(c, before + y + after)
  {
    hide Xor, Feed, ShiftBy, LoadWord;
    var d := Feed(c, before);
    FeedConcat(c, before + x, after);
    FeedConcat(c, before, x);
    FeedConcat(c, before + y, after);
    FeedConcat(c, before, y);
    FeedWindow(d, x);
    FeedWindow(d, y);
    if Feed(c, before + x + after) == Feed(c, before + y + after) {
      FeedInjectiveInState(Feed(d, x), Feed(d, y), after);
      ShiftByInjective(Xor(d, LoadWord(x)), Xor(d, LoadWord(y)), 8 * |x|);
      XorRightInjective(d, LoadWord(x), LoadWord(y));
      LoadWordInjective(x, y);
    }
  }

  /** The register after any message followed by its own stored checksum. */
  function Residue(): bv32 {
    ShiftBy(ALL_ONES, 32)
  }

  /** A stored checksum is right exactly when the register ends at the residue. */
  lemma ChecksumMatchesIffResidue(message: seq<byte>, stored: seq<byte>)
    requires |stored| == 4
    ensures Checksum(message) == LoadWord(stored) <==> Feed(ALL_ONES, message + stored) == Residue()
  {
    hide Xor, Feed, ShiftBy, LoadWord;
    var c, w := Feed(ALL_ONES, message), LoadWord(stored);
    FeedConcat(ALL_ONES, message, stored);
    FeedWindow(c, stored);
    XorCancel(c, w);
    XorCancel(c, ALL_ONES);
    if ShiftBy(Xor(c, w), 32) == Residue() {
      ShiftByInjective(Xor(c, w), ALL_ONES, 32);
    }
  }

  // ---------------------------------------------------------------------------
  //  The table-driven loop
  // ---------------------------------------------------------------------------

  ghost predicate IsTable(t: seq<bv32>) {
    |t| == 256 && forall b: byte :: t[b as int] == ShiftBy(Word(b), 8)
  }

  /** One table look-up stands for eight steps of the register. */
  lemma TableStep(t: seq<bv32>, c: bv32, b: byte)
    requires IsTable(t)
    ensures Xor(t[LowByte(Xor(c, Word(b))) as int], Down8(c)) == FeedBits(c, Word(b), 8)
  {
    hide Xor, Up8, Down8, LowPart, LowByte, Word, OneByte, FeedBits, ShiftBy;
    var x := Xor(c, Word(b));
    WordFits(b);
    FeedByte(c, Word(b));
    WordOfLowByte(x);
    SplitWord(x);
    ShiftByLinear(LowPart(x), Up8(Down8(x)), 8);
    ShiftOfUp8(Down8(x));
    DownUpDown(c, Word(b));
  }

  lemma DownUpDown(c: bv32, w: bv32)
    requires OneByte(w)
    ensures Down8(Up8(Down8(Xor(c, w)))) == Down8(c)
  {
  }

  method BuildTable() returns (table: array<bv32>)
    ensures fresh(table) && IsTable(table[..])
  {
    hide Word, Shift;
    table := new bv32[256];
    for i := 0 to 256
      invariant forall b: byte :: b as int < i ==> table[b as int] == ShiftBy(Word(b), 8)
    {
      var c := Word(i as byte);
      for k := 0 to 8
        invariant ShiftBy(c, 8 - k) == ShiftBy(Word(i as byte), 8)
      {
        c := Shift(c);
      }
      table[i] := c;
    }
  }

  method Crc32(data: seq<byte>) returns (crc: bv32)
    ensures crc == Checksum(data)
  {
    hide Word, Xor, Down8, LowByte, FeedBits;
    var table := BuildTable();
    ghost var t := table[..];
    crc := ALL_ONES;
    for i := 0 to |data|
      invariant table[..] == t
      invariant Feed(crc, data[i..]) == Feed(ALL_ONES, data)
    {
      TableStep(t, crc, data[i]);
      assert data[i..][1..] == data[i + 1..];
      var lookup := LowByte(Xor(crc, Word(data[i]))) as int;
      assert table[lookup] == t[lookup];
      crc := Xor(table[lookup], Down8(crc));
    }
    crc := Xor(crc, ALL_ONES);
  }
}
