/**
 * What the recovery scan makes of a file.
 *
 * `Recover` is the scan on values.  Its meaning does not mention the scan: it is the
 * longest list of entries whose encoding, numbered 1, 2, 3, ..., is a prefix of the file.
 */
module Recovery {
  import opened Bytes
  import opened Common
  import opened Frames

  /** The entries that back-to-back valid frames numbered from `n + 1` hold. */
  function Parse(s: seq<byte>, n: nat): seq<Entry>
    decreases |s|
  {
    match Decode(s, n + 1)
    case None => []
    case Some(e) =>
      EncodeDecoded(s, n + 1);
      [e] + Parse(s[e.FrameSize()..], n + 1)
  }

  function Recover(file: seq<byte>): seq<Entry> {
    Parse(file, 0)
  }

  /** The entries can be written as frames numbered from `n + 1`. */
  ghost predicate Encodable(n: nat, es: seq<Entry>) {
    n + |es| < TWO_64 && forall e <- es :: e.Encodable()
  }

  function TotalSize(es: seq<Entry>): nat {
    if es == [] then 0 else es[0].FrameSize() + TotalSize(es[1..])
  }

  function EncodeFrom(n: nat, es: seq<Entry>): (s: seq<byte>)
    ensures |s| == TotalSize(es)
    decreases |es|
  {
    if es == [] then [] else Frame(n + 1, es[0]) + EncodeFrom(n + 1, es[1..])
  }

  /** The file that holds exactly these entries. */
  function Encode(es: seq<Entry>): seq<byte> {
    EncodeFrom(0, es)
  }

  /** Where each frame starts. */
  function OffsetsFrom(start: nat, es: seq<Entry>): (o: seq<nat>)
    ensures |o| == |es|
    decreases |es|
  {
    if es == [] then [] else [start] + OffsetsFrom(start + es[0].FrameSize(), es[1..])
  }

  function Offsets(es: seq<Entry>): seq<nat> {
    OffsetsFrom(0, es)
  }

  function LastTerm(es: seq<Entry>): nat {
    if es == [] then 0 else es[|es| - 1].term
  }

  // ---------------------------------------------------------------------------
  //  Encoding a longer list
  // ---------------------------------------------------------------------------

  lemma {:induction false} EncodeConcat(n: nat, es: seq<Entry>, fs: seq<Entry>)
    ensures EncodeFrom(n, es + fs) == EncodeFrom(n, es) + EncodeFrom(n + |es|, fs)
    decreases |es|
  {
    hide Frame;
    if es == [] {
      assert es + fs == fs;
    } else {
      assert (es + fs)[1..] == es[1..] + fs;
      EncodeConcat(n + 1, es[1..], fs);
    }
  }

  lemma {:induction false} OffsetsConcat(start: nat, es: seq<Entry>, fs: seq<Entry>)
    ensures OffsetsFrom(start, es + fs) == OffsetsFrom(start, es) + OffsetsFrom(start + TotalSize(es), fs)
    decreases |es|
  {
    if es == [] {
      assert es + fs == fs;
    } else {
      assert (es + fs)[1..] == es[1..] + fs;
      OffsetsConcat(start + es[0].FrameSize(), es[1..], fs);
    }
  }

  /** Appending one entry: the file grows by its frame, the offsets by the old file length. */
  lemma EncodeSnoc(es: seq<Entry>, e: Entry)
    ensures Encode(es + [e]) == Encode(es) + Frame(|es| + 1, e)
    ensures Offsets(es + [e]) == Offsets(es) + [|Encode(es)|]
  {
    hide Frame;
    EncodeConcat(0, es, [e]);
    OffsetsConcat(0, es, [e]);
    assert [e][1..] == [];
    assert EncodeFrom(|es|, [e]) == Frame(|es| + 1, e) + EncodeFrom(|es| + 1, []) == Frame(|es| + 1, e);
  }

  /** The frame of entry `k` lies at its recorded offset, which is where the first `k` entries end. */
  lemma FrameAtOffset(es: seq<Entry>, k: nat)
    requires k < |es|
    ensures Offsets(es)[k] == |Encode(es[..k])|
    ensures Encode(es) == Encode(es[..k]) + Frame(k + 1, es[k]) + EncodeFrom(k + 1, es[k + 1..])
    ensures Offsets(es[..k]) == Offsets(es)[..k]
  {
    hide Frame, TotalSize;
    assert es == es[..k] + es[k..];
    EncodeConcat(0, es[..k], es[k..]);
    OffsetsConcat(0, es[..k], es[k..]);
    assert es[k..][1..] == es[k + 1..];
  }

  lemma {:induction false} EntriesAreBounded(es: seq<Entry>)
    ensures 28 * |es| <= TotalSize(es)
  {
    if es != [] {
      EntriesAreBounded(es[1..]);
    }
  }

  // ---------------------------------------------------------------------------
  //  The scan finds the longest log in the file
  // ---------------------------------------------------------------------------

  lemma ParseFrame(n: nat, e: Entry, tail: seq<byte>)
    requires n + 1 < TWO_64 && e.Encodable()
    ensures Parse(Frame(n + 1, e) + tail, n) == [e] + Parse(tail, n + 1)
  {
    hide Frame, Decode;
    DecodeEncoded(n + 1, e, tail, n + 1);
    assert (Frame(n + 1, e) + tail)[e.FrameSize()..] == tail;
  }

  /** A written log is recovered in full; the scan goes on in whatever follows it. */
  lemma {:induction false} ParseEncoded(n: nat, es: seq<Entry>, rest: seq<byte>)
    requires Encodable(n, es)
    ensures Parse(EncodeFrom(n, es) + rest, n) == es + Parse(rest, n + |es|)
    decreases |es|
  {
    hide Frame, Parse;
    if es == [] {
      assert EncodeFrom(n, es) + rest == rest;
    } else {
      var tail := EncodeFrom(n + 1, es[1..]) + rest;
      assert EncodeFrom(n, es) + rest == Frame(n + 1, es[0]) + tail;
      ParseFrame(n, es[0], tail);
      ParseEncoded(n + 1, es[1..], rest);
      assert es == [es[0]] + es[1..];
    }
  }

  /** What is recovered was in the file: its encoding is the front of the file. */
  lemma {:induction false} ParsedIsPrefix(s: seq<byte>, n: nat)
    requires n < TWO_64
    ensures Encodable(n, Parse(s, n))
    ensures EncodeFrom(n, Parse(s, n)) <= s
    ensures Decode(s[|EncodeFrom(n, Parse(s, n))|..], n + |Parse(s, n)| + 1) == None
    decreases |s|
  {
    hide Frame, Decode;
    if Decode(s, n + 1).Some? {
      EncodeDecoded(s, n + 1);
      var e := Decode(s, n + 1).value;
      var t := s[e.FrameSize()..];
      ParsedIsPrefix(t, n + 1);
      assert s == s[..e.FrameSize()] + t;
      assert Parse(s, n)[1..] == Parse(t, n + 1);
      var m := |EncodeFrom(n + 1, Parse(t, n + 1))|;
      assert s[e.FrameSize() + m..] == t[m..];
    } else {
      assert s[0..] == s;
    }
  }

  /** The file starts with the log's encoding. */
  ghost predicate Holds(file: seq<byte>, es: seq<Entry>) {
    Encodable(0, es) && Encode(es) <= file
  }

  lemma EncodePrefix(es: seq<Entry>, fs: seq<Entry>)
    requires es <= fs && Encodable(0, fs)
    ensures Encodable(0, es) && Encode(es) <= Encode(fs)
  {
    hide EncodeFrom;
    assert fs == es + fs[|es|..];
    EncodeConcat(0, es, fs[|es|..]);
    forall e | e in es ensures e in fs {
      var i :| 0 <= i < |es| && es[i] == e;
      assert fs[i] == e;
    }
  }

  /** For any bytes at all, recovery yields the longest log that the file holds. */
  lemma RecoverIsLongest(file: seq<byte>, es: seq<Entry>)
    ensures Holds(file, Recover(file))
    ensures Holds(file, es) <==> Encodable(0, es) && es <= Recover(file)
  {
    hide EncodeFrom, Parse;
    ParsedIsPrefix(file, 0);
    if Holds(file, es) {
      var tail := file[|Encode(es)|..];
      assert file == Encode(es) + tail;
      ParseEncoded(0, es, tail);
    }
    if es <= Recover(file) {
      EncodePrefix(es, Recover(file));
    }
  }

  /** Recovery of a written log, and hence a second recovery, changes nothing. */
  lemma RecoverEncoded(es: seq<Entry>)
    requires Encodable(0, es)
    ensures Recover(Encode(es)) == es
  {
    ParseEncoded(0, es, []);
    assert Encode(es) + [] == Encode(es);
    assert Parse([], |es|) == [];
  }

  /** Two logs with the same file are the same log. */
  lemma EncodeInjective(es: seq<Entry>, fs: seq<Entry>)
    requires Encodable(0, es) && Encodable(0, fs)
    requires Encode(es) == Encode(fs)
    ensures es == fs
  {
    RecoverEncoded(es);
    RecoverEncoded(fs);
  }

  /** Bytes after the log are ignored exactly when they do not start with the next frame. */
  lemma RecoverWithTail(es: seq<Entry>, tail: seq<byte>)
    requires Encodable(0, es)
    ensures Recover(Encode(es) + tail) == es + Parse(tail, |es|)
    ensures Recover(Encode(es) + tail) == es <==> Decode(tail, |es| + 1) == None
  {
    hide Decode, EncodeFrom, Encodable, Parse;
    ParseEncoded(0, es, tail);
    NothingParsedIff(tail, |es|);
  }

  lemma NothingParsedIff(s: seq<byte>, n: nat)
    ensures Parse(s, n) == [] <==> Decode(s, n + 1) == None
  {
    hide Decode;
  }

  /** A torn append is dropped and a complete one is kept; there is no third outcome. */
  lemma RecoverInterrupted(es: seq<Entry>, e: Entry, m: nat)
    requires Encodable(0, es + [e])
    requires m <= e.FrameSize()
    ensures Recover(Encode(es) + Frame(|es| + 1, e)[..m]) == if m < e.FrameSize() then es else es + [e]
  {
    hide Frame, Decode;
    assert e in es + [e] && forall f <- es :: f in es + [e];
    if m < e.FrameSize() {
      TornFrameRejected(|es| + 1, e, m, |es| + 1);
      RecoverWithTail(es, Frame(|es| + 1, e)[..m]);
    } else {
      assert Frame(|es| + 1, e)[..m] == Frame(|es| + 1, e);
      EncodeSnoc(es, e);
      RecoverEncoded(es + [e]);
    }
  }

  // ---------------------------------------------------------------------------
  //  Damage to a durable log
  // ---------------------------------------------------------------------------

  lemma DamageInSuffix(s: seq<byte>, t: seq<byte>, i: nat, start: nat)
    requires DifferInBurst(s, t, i) && start <= i
    ensures |s| == |t|
    ensures DifferInBurst(s[start..], t[start..], i - start)
    ensures s[..start] == t[..start]
  {
    assert s[start..][..i - start] == s[..i][start..];
    assert t[start..][..i - start] == t[..i][start..];
    assert s[..start] == s[..i][..start];
    assert t[..start] == t[..i][..start];
  }

  /**
   * Damage confined to four consecutive bytes, starting in the frame of entry `k + 1`:
   * recovery yields exactly the entries before it, whatever follows the log.
   */
  lemma DamagedLog(es: seq<Entry>, tail: seq<byte>, k: nat, i: nat, damaged: seq<byte>)
    requires Encodable(0, es) && k < |es|
    requires Offsets(es)[k] <= i < Offsets(es)[k] + es[k].FrameSize()
    requires DifferInBurst(Encode(es) + tail, damaged, i)
    ensures Recover(damaged) == es[..k]
  {
    hide Frame, Decode, Parse, EncodeFrom, OffsetsFrom, TotalSize, DifferInBurst;
    var start := Offsets(es)[k];
    var rest := EncodeFrom(k + 1, es[k + 1..]) + tail;
    FrameAtOffset(es, k);
    assert Encode(es) + tail == Encode(es[..k]) + (Frame(k + 1, es[k]) + rest);
    DamageInSuffix(Encode(es) + tail, damaged, i, start);
    var s, t := Frame(k + 1, es[k]) + rest, damaged[start..];
    assert (Encode(es) + tail)[start..] == s;
    DecodeEncoded(k + 1, es[k], rest, k + 1);
    DamagedFrameRejected(s, t, i - start, k + 1);
    assert damaged == Encode(es[..k]) + t;
    EncodePrefix(es[..k], es);
    RecoverWithTail(es[..k], t);
  }

  /** Changing any one byte of entry `k + 1`'s frame loses that entry and those after it, no more. */
  lemma OneDamagedByte(es: seq<Entry>, tail: seq<byte>, k: nat, i: nat, b: byte)
    requires Encodable(0, es) && k < |es|
    requires Offsets(es)[k] <= i < Offsets(es)[k] + es[k].FrameSize()
    ensures i < |Encode(es) + tail|
    ensures b != (Encode(es) + tail)[i] ==> Recover((Encode(es) + tail)[i := b]) == es[..k]
  {
    hide Frame;
    FrameAtOffset(es, k);
    var file := Encode(es) + tail;
    if b != file[i] {
      DamagedLog(es, tail, k, i, file[i := b]);
    }
  }
}
