/**
 * The on-disk frame of one log entry:
 *
 *   frameLength (4) | index (8) | term (8) | payloadLength (4) | payload | checksum (4)
 *
 * `Frame` is what append writes; `Decode` is what the recovery scan accepts.
 */
module Frames {
  import opened Bytes
  import opened Common
  import opened Crc

  const HEADER_SIZE := 24   // frameLength, index, term, payloadLength
  const FIXED_BODY := 24    // index, term, payloadLength, checksum

  datatype Entry = Entry(term: nat, payload: seq<byte>) {
    predicate Encodable() {
      term < TWO_64 && |payload| + FIXED_BODY < TWO_32
    }

    function FrameSize(): nat {
      HEADER_SIZE + |payload| + 4
    }
  }

  /** The value of frameLength, computed in 32-bit unsigned arithmetic. */
  function BodySize(payloadLength: nat): (n: nat)
    ensures n < TWO_32
  {
    (payloadLength + FIXED_BODY) % TWO_32
  }

  /** Everything the checksum covers. */
  function Covered(index: nat, e: Entry): (s: seq<byte>)
    ensures |s| == HEADER_SIZE + |e.payload|
  {
    LittleEndian(BodySize(|e.payload|), 4) + LittleEndian(index, 8) + LittleEndian(e.term, 8)
    + LittleEndian(|e.payload|, 4) + e.payload
  }

  function Frame(index: nat, e: Entry): (s: seq<byte>)
    ensures |s| == e.FrameSize()
  {
    Covered(index, e) + StoreWord(Checksum(Covered(index, e)))
  }

  function Field(s: seq<byte>, from: nat, width: nat): nat
    requires from + width <= |s|
  {
    FromLittleEndian(s[from..from + width])
  }

  /** The checks of the recovery scan on the bytes that remain, in the scan's order. */
  function Decode(s: seq<byte>, index: nat): Option<Entry> {
    if |s| < 4 then None                                                   // no room for the length prefix
    else
      var frameLength := Field(s, 0, 4);
      if 4 + frameLength > |s| then None                                   // torn tail
      else if frameLength < FIXED_BODY then None                           // too short for the fixed fields
      else
        var payloadLength := Field(s, 20, 4);
        if frameLength != BodySize(payloadLength) then None                // inconsistent lengths
        else if Checksum(s[..frameLength]) != LoadWord(s[frameLength..frameLength + 4]) then None
        else if Field(s, 4, 8) != index then None                          // out of sequence
        else
          PayloadLengthIsForced(frameLength, payloadLength);
          Some(Entry(Field(s, 12, 8), s[HEADER_SIZE..HEADER_SIZE + payloadLength]))
  }

  /** The wrapping length check leaves one payload length: the one that fills the body. */
  lemma PayloadLengthIsForced(frameLength: nat, payloadLength: nat)
    requires frameLength < TWO_32 && payloadLength < TWO_32
    ensures frameLength == BodySize(payloadLength) && frameLength >= FIXED_BODY
      <==> frameLength >= FIXED_BODY && payloadLength == frameLength - FIXED_BODY
  {
  }

  // ---------------------------------------------------------------------------
  //  Decoding inverts encoding
  // ---------------------------------------------------------------------------

  /** The fields of a frame, read back from its bytes, whatever follows them. */
  lemma FieldsOfFrame(index: nat, e: Entry, rest: seq<byte>)
    requires index < TWO_64 && e.Encodable()
    ensures var s := Frame(index, e) + rest;
      && Field(s, 0, 4) == BodySize(|e.payload|) == |e.payload| + FIXED_BODY
      && Field(s, 4, 8) == index
      && Field(s, 12, 8) == e.term
      && Field(s, 20, 4) == |e.payload|
      && s[HEADER_SIZE..HEADER_SIZE + |e.payload|] == e.payload
      && s[..HEADER_SIZE + |e.payload|] == Covered(index, e)
      && s[HEADER_SIZE + |e.payload|..e.FrameSize()] == StoreWord(Checksum(Covered(index, e)))
  {
    hide Checksum, StoreWord, LittleEndian, FromLittleEndian;
    var s := Frame(index, e) + rest;
    assert s[0..4] == LittleEndian(BodySize(|e.payload|), 4);
    assert s[4..12] == LittleEndian(index, 8);
    assert s[12..20] == LittleEndian(e.term, 8);
    assert s[20..24] == LittleEndian(|e.payload|, 4);
    FieldRoundTrip32(BodySize(|e.payload|));
    FieldRoundTrip64(index);
    FieldRoundTrip64(e.term);
    FieldRoundTrip32(|e.payload|);
  }

  /** The frame byte by byte: where each field lies, and that the lowest digit of a number comes first. */
  lemma FrameOnDisk(index: nat, e: Entry)
    requires index < TWO_64 && e.Encodable()
    ensures var f, n := Frame(index, e), |e.payload|;
      && |f| == n + 28
      && n + 24 == f[0] as int + 0x100 * f[1] as int + 0x1_0000 * f[2] as int + 0x100_0000 * f[3] as int
      && index % 0x1_0000_0000 == f[4] as int + 0x100 * f[5] as int + 0x1_0000 * f[6] as int + 0x100_0000 * f[7] as int
      && index / 0x1_0000_0000 == f[8] as int + 0x100 * f[9] as int + 0x1_0000 * f[10] as int + 0x100_0000 * f[11] as int
      && e.term % 0x1_0000_0000 == f[12] as int + 0x100 * f[13] as int + 0x1_0000 * f[14] as int + 0x100_0000 * f[15] as int
      && e.term / 0x1_0000_0000 == f[16] as int + 0x100 * f[17] as int + 0x1_0000 * f[18] as int + 0x100_0000 * f[19] as int
      && n == f[20] as int + 0x100 * f[21] as int + 0x1_0000 * f[22] as int + 0x100_0000 * f[23] as int
      && f[24..24 + n] == e.payload
      && LoadWord(f[24 + n..]) == Checksum(f[..24 + n])
  {
    hide Checksum, StoreWord, LoadWord, LittleEndian, FromLittleEndian, Frame;
    var f, n := Frame(index, e), |e.payload|;
    FieldsOfFrame(index, e, []);
    assert f + [] == f;
    FourDigits(f[0..4]);
    FourDigits(f[20..24]);
    assert f[0..4][..4] == f[0..4] && f[20..24][..4] == f[20..24];
    EightBytes(f[4..12]);
    EightBytes(f[12..20]);
    LoadStored(Checksum(Covered(index, e)));
  }

  lemma EightBytes(s: seq<byte>)
    requires |s| == 8
    ensures FromLittleEndian(s) % 0x1_0000_0000 == s[0] as int + 0x100 * s[1] as int + 0x1_0000 * s[2] as int + 0x100_0000 * s[3] as int
    ensures FromLittleEndian(s) / 0x1_0000_0000 == s[4] as int + 0x100 * s[5] as int + 0x1_0000 * s[6] as int + 0x100_0000 * s[7] as int
  {
    hide FromLittleEndian;
    FourDigits(s);
    FourDigits(s[4..]);
    assert s[4..][..4] == s[4..];
  }

  /** Decoding a frame followed by any bytes gives the entry back, under its own index only. */
  lemma DecodeEncoded(index: nat, e: Entry, rest: seq<byte>, wanted: nat)
    requires index < TWO_64 && e.Encodable()
    ensures Decode(Frame(index, e) + rest, wanted) == if wanted == index then Some(e) else None
  {
    hide Checksum, StoreWord, LoadWord, Field, Covered, Frame;
    FieldsOfFrame(index, e, rest);
    LoadStored(Checksum(Covered(index, e)));
  }

  /** Only encoded frames decode: the accepted bytes are exactly the entry's frame. */
  lemma EncodeDecoded(s: seq<byte>, index: nat)
    requires Decode(s, index).Some?
    ensures var e := Decode(s, index).value;
      index < TWO_64 && e.Encodable() && e.FrameSize() <= |s| && s[..e.FrameSize()] == Frame(index, e)
  {
    hide Checksum, StoreWord, LoadWord, LittleEndian, FromLittleEndian;
    var e := Decode(s, index).value;
    var n := |e.payload|;
    PayloadLengthIsForced(Field(s, 0, 4), Field(s, 20, 4));
    Pow256Values();
    FromLittleEndianRoundTrip(s[0..4]);
    FromLittleEndianRoundTrip(s[4..12]);
    FromLittleEndianRoundTrip(s[12..20]);
    FromLittleEndianRoundTrip(s[20..24]);
    assert s[..HEADER_SIZE + n] == s[0..4] + s[4..12] + s[12..20] + s[20..24] + s[24..24 + n];
    assert s[..HEADER_SIZE + n] == Covered(index, e);
    StoreLoaded(s[HEADER_SIZE + n..HEADER_SIZE + n + 4]);
    assert s[..e.FrameSize()] == s[..HEADER_SIZE + n] + s[HEADER_SIZE + n..HEADER_SIZE + n + 4];
  }

  /** A frame cut short never decodes, so a torn write is never mistaken for an entry. */
  lemma TornFrameRejected(index: nat, e: Entry, m: nat, wanted: nat)
    requires index < TWO_64 && e.Encodable() && m < e.FrameSize()
    ensures Decode(Frame(index, e)[..m], wanted) == None
  {
    hide Checksum, StoreWord, LoadWord, Covered, Frame, FromLittleEndian;
    FieldsOfFrame(index, e, []);
    var f := Frame(index, e);
    assert f + [] == f;
    if m >= 4 {
      assert f[..m][0..4] == f[0..4];
    }
  }

  /** The whole frame, checksum included, leaves the register at the residue. */
  lemma DecodedResidue(s: seq<byte>, index: nat)
    requires Decode(s, index).Some?
    ensures Decode(s, index).value.FrameSize() <= |s|
    ensures Feed(ALL_ONES, s[..Decode(s, index).value.FrameSize()]) == Residue()
  {
    hide Checksum, StoreWord, LoadWord, Feed, Residue, FromLittleEndian;
    var e := Decode(s, index).value;
    var n := HEADER_SIZE + |e.payload|;
    PayloadLengthIsForced(Field(s, 0, 4), Field(s, 20, 4));
    ChecksumMatchesIffResidue(s[..n], s[n..n + 4]);
    assert s[..e.FrameSize()] == s[..n] + s[n..n + 4];
  }

  // ---------------------------------------------------------------------------
  //  Damage
  // ---------------------------------------------------------------------------

  /** `s` and `t` first differ at `i`, and nowhere from `i + 4` on. */
  ghost predicate DifferInBurst(s: seq<byte>, t: seq<byte>, i: nat) {
    && |s| == |t|
    && i < |s|
    && s[i] != t[i]
    && s[..i] == t[..i]
    && forall j :: i + 4 <= j < |s| ==> s[j] == t[j]
  }

  /** Damage to the length prefix is caught by the other length field, 20 bytes further on. */
  lemma LengthDamageRejected(s: seq<byte>, t: seq<byte>, i: nat, index: nat)
    requires DifferInBurst(s, t, i) && i < 4
    requires Decode(s, index).Some?
    ensures Decode(t, index) == None
  {
    hide Checksum, LoadWord, FromLittleEndian, BodySize;
    assert s[0..4][i] != t[0..4][i];
    FieldInjective(s[0..4], t[0..4]);
    if |t| >= 24 {
      assert s[20..24] == t[20..24];
    }
  }

  lemma BurstInPrefix(s: seq<byte>, t: seq<byte>, i: nat, n: nat)
    requires DifferInBurst(s, t, i) && i < n <= |s|
    ensures Feed(ALL_ONES, s[..n]) != Feed(ALL_ONES, t[..n])
  {
    hide Feed;
    var j := if i + 4 < n then i + 4 else n;
    var x, y := s[i..j], t[i..j];
    assert s[j..n] == t[j..n];
    assert s[..n] == s[..i] + x + s[j..n];
    assert t[..n] == s[..i] + y + s[j..n];
    assert x[0] != y[0];
    BurstDetected(ALL_ONES, s[..i], x, y, s[j..n]);
  }

  /** Damage anywhere else in the frame is caught by the checksum, if not before. */
  lemma BodyDamageRejected(s: seq<byte>, t: seq<byte>, i: nat, index: nat)
    requires DifferInBurst(s, t, i) && 4 <= i
    requires Decode(s, index).Some? && i < Decode(s, index).value.FrameSize()
    ensures Decode(t, index) == None
  {
    hide Checksum, LoadWord, FromLittleEndian, Feed, Residue;
    if Decode(t, index).Some? {
      assert s[0..4] == s[..i][0..4] == t[..i][0..4] == t[0..4];
      PayloadLengthIsForced(Field(s, 0, 4), Field(s, 20, 4));
      PayloadLengthIsForced(Field(t, 0, 4), Field(t, 20, 4));
      DecodedResidue(s, index);
      DecodedResidue(t, index);
      BurstInPrefix(s, t, i, Decode(s, index).value.FrameSize());
    }
  }

  /** A frame damaged within four consecutive bytes no longer decodes. */
  lemma DamagedFrameRejected(s: seq<byte>, t: seq<byte>, i: nat, index: nat)
    requires DifferInBurst(s, t, i)
    requires Decode(s, index).Some? && i < Decode(s, index).value.FrameSize()
    ensures Decode(t, index) == None
  {
    if i < 4 {
      LengthDamageRejected(s, t, i, index);
    } else {
      BodyDamageRejected(s, t, i, index);
    }
  }
}
