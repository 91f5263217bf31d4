/** Bytes, and the little-endian integers the log and the slot files store. */
module Bytes {

  newtype byte = x: int | 0 <= x < 256

  const TWO_32 := 0x1_0000_0000
  const TWO_64 := 0x1_0000_0000_0000_0000

  /** 256 to the power `k`: the number of values that fit in `k` bytes. */
  function Pow256(k: nat): (p: nat)
    ensures p > 0
  {
    if k == 0 then 1 else 256 * Pow256(k - 1)
  }

  lemma Pow256Values()
    ensures Pow256(4) == TWO_32
    ensures Pow256(8) == TWO_64
  {
    assert Pow256(2) == 65536;
    assert Pow256(4) == TWO_32;
    assert Pow256(6) == 0x1_0000_0000_0000;
  }

  /** The `k` low bytes of `n`, least significant first. */
  function LittleEndian(n: nat, k: nat): (s: seq<byte>)
    ensures |s| == k
    decreases k, n
  {
    if k == 0 then [] else [(n % 256) as byte] + LittleEndian(n / 256, k - 1)
  }

  /** The number that a run of little-endian bytes denotes. */
  function FromLittleEndian(s: seq<byte>): (n: nat)
    ensures n < Pow256(|s|)
  {
    if s == [] then 0 else s[0] as int + 256 * FromLittleEndian(s[1..])
  }

  /** The first byte counts ones, the next 256s, and so on. */
  lemma FourDigits(s: seq<byte>)
    requires |s| >= 4
    ensures FromLittleEndian(s) ==
      s[0] as int + 0x100 * s[1] as int + 0x1_0000 * s[2] as int + 0x100_0000 * s[3] as int
      + 0x1_0000_0000 * FromLittleEndian(s[4..])
    ensures FromLittleEndian(s[..4]) ==
      s[0] as int + 0x100 * s[1] as int + 0x1_0000 * s[2] as int + 0x100_0000 * s[3] as int
  {
    FirstDigits(s);
    FirstDigits(s[..4]);
    assert s[..4][4..] == [];
  }

  lemma FirstDigits(s: seq<byte>)
    requires |s| >= 4
    ensures FromLittleEndian(s) ==
      s[0] as int + 0x100 * s[1] as int + 0x1_0000 * s[2] as int + 0x100_0000 * s[3] as int
      + 0x1_0000_0000 * FromLittleEndian(s[4..])
  {
    assert s[1..][1..] == s[2..] && s[2..][1..] == s[3..] && s[3..][1..] == s[4..];
    var n := FromLittleEndian(s[4..]);
    assert FromLittleEndian(s[3..]) == s[3] as int + 0x100 * n;
    assert FromLittleEndian(s[2..]) == s[2] as int + 0x100 * FromLittleEndian(s[3..]);
    assert FromLittleEndian(s[1..]) == s[1] as int + 0x100 * FromLittleEndian(s[2..]);
  }

  lemma {:induction false} LittleEndianRoundTrip(n: nat, k: nat)
    requires n < Pow256(k)
    ensures FromLittleEndian(LittleEndian(n, k)) == n
    decreases k
  {
    if k > 0 {
      LittleEndianRoundTrip(n / 256, k - 1);
      assert LittleEndian(n, k)[1..] == LittleEndian(n / 256, k - 1);
    }
  }

  lemma {:induction false} FromLittleEndianRoundTrip(s: seq<byte>)
    ensures LittleEndian(FromLittleEndian(s), |s|) == s
  {
    if s != [] {
      FromLittleEndianRoundTrip(s[1..]);
      LowByte(s[0], FromLittleEndian(s[1..]));
      assert s == [s[0]] + s[1..];
    }
  }

  lemma LowByte(b: byte, n: nat)
    ensures (b as int + 256 * n) % 256 == b as int && (b as int + 256 * n) / 256 == n
  {
  }

  /** The 32-bit and 64-bit fields, both ways. */
  lemma FieldRoundTrip32(n: nat)
    requires n < TWO_32
    ensures FromLittleEndian(LittleEndian(n, 4)) == n
  {
    Pow256Values();
    LittleEndianRoundTrip(n, 4);
  }

  lemma FieldRoundTrip64(n: nat)
    requires n < TWO_64
    ensures FromLittleEndian(LittleEndian(n, 8)) == n
  {
    Pow256Values();
    LittleEndianRoundTrip(n, 8);
  }

  /** A field of fixed width determines its bytes: different bytes, different number. */
  lemma FieldInjective(s: seq<byte>, t: seq<byte>)
    requires |s| == |t|
    ensures FromLittleEndian(s) == FromLittleEndian(t) <==> s == t
  {
    FromLittleEndianRoundTrip(s);
    FromLittleEndianRoundTrip(t);
  }

  lemma SliceOfSlice(s: seq<byte>, from: nat, to: nat, a: nat, b: nat)
    requires from <= to <= |s| && a <= b <= to - from
    ensures s[from..to][a..b] == s[from + a..from + b]
  {
    var t, u := s[from..to][a..b], s[from + a..from + b];
    forall i | 0 <= i < |t|
      ensures t[i] == u[i]
    {
      assert t[i] == s[from..to][a + i] == s[from + a + i];
    }
    assert t == u;
  }
}
