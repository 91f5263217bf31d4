/**
 * Fixed-size slots in a flat file: a 4-byte length, the payload, zeros up to the slot size.
 * The file stands for a map from slot number to payload, in which an empty payload is absent.
 */
module Slots {
  import opened Bytes
  import opened Common
  import opened Files

  /** The image of one slot. */
  function SlotImage(slotSize: nat, payload: seq<byte>): (s: seq<byte>)
    requires |payload| + 4 <= slotSize
    ensures |s| == slotSize
  {
    LittleEndian(|payload|, 4) + payload + Zeros(slotSize - 4 - |payload|)
  }

  /** Where slot `k` starts. */
  function SlotOffset(k: nat, slotSize: nat): nat {
    k * slotSize
  }

  /** The file can grow so far. */
  predicate SlotFits(k: nat, slotSize: nat) {
    SlotOffset(k, slotSize) + slotSize <= MAX_FILE_SIZE
  }

  /** What reading slot `k` of a file with these bytes yields. */
  function SlotContents(file: seq<byte>, k: nat, slotSize: nat): (Status, seq<byte>) {
    ContentsAt(file, SlotOffset(k, slotSize), slotSize)
  }

  function ContentsAt(file: seq<byte>, at: nat, slotSize: nat): (Status, seq<byte>) {
    var chunk := Slice(file, at, at + slotSize);
    if |chunk| < 4 then (NOT_FOUND, [])
    else
      var buf := chunk + Zeros(slotSize - |chunk|);
      var len := FromLittleEndian(buf[..4]);
      if len == 0 then (NOT_FOUND, [])
      else if len + 4 > slotSize then (PARSE_ERROR, [])
      else (OK, buf[4..4 + len])
  }

  method CopyInto(buf: array<byte>, off: nat, data: seq<byte>)
    requires off + |data| <= buf.Length
    modifies buf
    ensures buf[..] == old(buf[..off]) + data + old(buf[off + |data|..])
  {
    for i := 0 to |data|
      invariant buf[..off] == old(buf[..off])
      invariant buf[off..off + i] == data[..i]
      invariant buf[off + i..] == old(buf[off + i..])
    {
      buf[off + i] := data[i];
    }
  }

  method BuildSlot(slotSize: nat, payload: seq<byte>) returns (buf: array<byte>)
    requires |payload| + 4 <= slotSize
    ensures fresh(buf) && buf[..] == SlotImage(slotSize, payload)
  {
    hide LittleEndian;
    buf := new byte[slotSize](_ => 0);
    CopyInto(buf, 0, LittleEndian(|payload|, 4));
    CopyInto(buf, 4, payload);
  }

  method WriteSlot(file: File, k: nat, slotSize: nat, payload: seq<byte>) returns (status: Status)
    requires file.Valid() && slotSize < TWO_32
    modifies file
    ensures file.Valid()
    ensures status == OUT_OF_MEMORY <==> |payload| + 4 > slotSize
    ensures status == OK || status == OUT_OF_MEMORY || status == IO_ERROR
    ensures status != IO_ERROR ==> file.bytes == Written(old(file.bytes), slotSize, Write(k, payload))
    ensures status == IO_ERROR ==>
      (exists m :: file.bytes == Written(old(file.bytes), slotSize, FailedWrite(k, payload, m)))
    ensures file.reliable && SlotFits(k, slotSize) ==> status != IO_ERROR
  {
    hide Spliced, SlotOffset, SlotImage, Written;
    ghost var before := file.bytes;
    WrittenIs(before, slotSize, k, payload);
    if |payload| + 4 > slotSize {
      return OUT_OF_MEMORY;
    }
    var buf := BuildSlot(slotSize, payload);
    ghost var image := buf[..];
    var written := 0;
    NothingSpliced(before, SlotOffset(k, slotSize));
    assert image[..0] == [];
    var fd := file.Open();
    if fd != 0 {
      assert file.bytes == Written(before, slotSize, FailedWrite(k, payload, 0));
      return IO_ERROR;
    }
    while written < buf.Length
      invariant written <= buf.Length && buf[..] == image
      invariant file.Valid() && file.bytes == Spliced(before, SlotOffset(k, slotSize), image[..written])
      modifies file
    {
      var n := file.Pwrite(buf[written..], SlotOffset(k, slotSize) + written);
      if n < 0 {
        assert file.bytes == Written(before, slotSize, FailedWrite(k, payload, written));
        return IO_ERROR;
      }
      SplicedTwice(before, SlotOffset(k, slotSize), image[..written], buf[written..][..n]);
      assert image[..written] + buf[written..][..n] == image[..written + n];
      written := written + n;
    }
    assert image[..written] == image;
    return OK;
  }

  lemma WrittenIs(file: seq<byte>, slotSize: nat, k: nat, payload: seq<byte>)
    ensures |payload| + 4 > slotSize ==> Written(file, slotSize, Write(k, payload)) == file
    ensures |payload| + 4 <= slotSize ==>
      var at, image := SlotOffset(k, slotSize), SlotImage(slotSize, payload);
      && Written(file, slotSize, Write(k, payload)) == Spliced(file, at, image)
      && forall m | 0 <= m <= slotSize ::
           Written(file, slotSize, FailedWrite(k, payload, m)) == Spliced(file, at, image[..m])
  {
    hide Spliced, SlotOffset, SlotImage;
  }

  lemma NothingSpliced(file: seq<byte>, offset: nat)
    ensures Spliced(file, offset, []) == file
  {
  }

  /** Reads until the slot is full or the file ends. */
  method ReadChunk(file: File, at: nat, slotSize: nat) returns (failed: bool, chunk: seq<byte>)
    ensures !failed ==> chunk == Slice(file.bytes, at, at + slotSize)
    ensures file.reliable ==> !failed
  {
    chunk := [];
    while |chunk| < slotSize
      invariant |chunk| <= slotSize
      invariant chunk == Slice(file.bytes, at, at + |chunk|)
      decreases slotSize - |chunk|
    {
      var n, data := file.PreadSome(slotSize - |chunk|, at + |chunk|);
      if n < 0 {
        return true, [];
      }
      if n == 0 {
        break;
      }
      SliceExtends(file.bytes, at, |chunk|, n);
      chunk := chunk + data;
    }
    return false, chunk;
  }

  /** A file that cannot be opened reads as not found, one that cannot be read as an error. */
  method ReadSlot(file: File, k: nat, slotSize: nat) returns (status: Status, payload: seq<byte>)
    requires file.Valid() && slotSize < TWO_32
    ensures (status, payload) == SlotContents(file.bytes, k, slotSize)
      || (status, payload) == (NOT_FOUND, []) || (status, payload) == (IO_ERROR, [])
    ensures file.reliable ==> (status, payload) == SlotContents(file.bytes, k, slotSize)
  {
    hide FromLittleEndian, SlotOffset, Slice, Zeros;
    var fd := file.Open();
    if fd != 0 {
      return NOT_FOUND, [];
    }
    var failed, chunk := ReadChunk(file, SlotOffset(k, slotSize), slotSize);
    if failed {
      return IO_ERROR, [];
    }
    if |chunk| < 4 {
      return NOT_FOUND, [];
    }
    SliceIsShort(file.bytes, SlotOffset(k, slotSize), slotSize);
    var buf := chunk + Zeros(slotSize - |chunk|);
    var len := FromLittleEndian(buf[..4]);
    if len == 0 {
      return NOT_FOUND, [];
    }
    if len + 4 > slotSize {
      return PARSE_ERROR, [];
    }
    return OK, buf[4..4 + len];
  }

  lemma SliceIsShort(file: seq<byte>, from: nat, n: nat)
    ensures |Slice(file, from, from + n)| <= n
  {
  }

  lemma SliceExtends(file: seq<byte>, from: nat, m: nat, n: nat)
    requires from + m <= |file|
    ensures Slice(file, from, from + m) + Slice(file, from + m, from + m + n) == Slice(file, from, from + m + n)
  {
  }

  // ---------------------------------------------------------------------------
  //  The file refines a map
  // ---------------------------------------------------------------------------

  /** The slot at `at` holds this payload, or nothing: its length bytes, as far as there are any, are zero. */
  ghost predicate Holding(file: seq<byte>, slotSize: nat, at: nat, v: Option<seq<byte>>) {
    match v
    case None => forall i :: at <= i < at + 4 && i < |file| ==> file[i] == 0
    case Some(p) =>
      && p != []
      && |p| + 4 <= slotSize
      && at + 4 + |p| <= |file|
      && file[at..at + 4] == LittleEndian(|p|, 4)
      && file[at + 4..at + 4 + |p|] == p
  }

  lemma ZeroLength(s: seq<byte>)
    requires forall i :: 0 <= i < |s| ==> s[i] == 0
    ensures FromLittleEndian(s) == 0
    decreases |s|
  {
    if s != [] {
      ZeroLength(s[1..]);
    }
  }

  lemma ReadEmpty(file: seq<byte>, slotSize: nat, at: nat)
    requires 4 <= slotSize < TWO_32 && Holding(file, slotSize, at, None)
    ensures ContentsAt(file, at, slotSize) == (NOT_FOUND, [])
  {
    hide FromLittleEndian;
    var chunk := Slice(file, at, at + slotSize);
    if |chunk| >= 4 {
      ChunkFront(file, at, slotSize, 4);
      var head := (chunk + Zeros(slotSize - |chunk|))[..4];
      forall i | 0 <= i < 4
        ensures head[i] == 0
      {
        assert head[i] == file[at..at + 4][i] == file[at + i];
      }
      ZeroLength(head);
    }
  }

  /** The front of the buffer that a read fills is the front of the slot. */
  lemma ChunkFront(file: seq<byte>, at: nat, slotSize: nat, n: nat)
    requires n <= slotSize && at + n <= |file|
    ensures |Slice(file, at, at + slotSize)| >= n
    ensures (Slice(file, at, at + slotSize) + Zeros(slotSize - |Slice(file, at, at + slotSize)|))[..n] == file[at..at + n]
  {
  }

  lemma ReadPayload(file: seq<byte>, slotSize: nat, at: nat, p: seq<byte>)
    requires 4 <= slotSize < TWO_32 && Holding(file, slotSize, at, Some(p))
    ensures ContentsAt(file, at, slotSize) == (OK, p)
  {
    hide LittleEndian, FromLittleEndian, Slice, Zeros;
    var n := 4 + |p|;
    ChunkFront(file, at, slotSize, n);
    var chunk := Slice(file, at, at + slotSize);
    var buf := chunk + Zeros(slotSize - |chunk|);
    SliceOfSlice(file, at, at + n, 0, 4);
    SliceOfSlice(file, at, at + n, 4, n);
    SliceOfSlice(buf, 0, n, 0, 4);
    SliceOfSlice(buf, 0, n, 4, n);
    FieldRoundTrip32(|p|);
  }

  /** A held payload is what reading returns; an empty slot reads as not found. */
  lemma ReadHolding(file: seq<byte>, slotSize: nat, at: nat, v: Option<seq<byte>>)
    requires 4 <= slotSize < TWO_32 && Holding(file, slotSize, at, v)
    ensures ContentsAt(file, at, slotSize) == if v.Some? then (OK, v.value) else (NOT_FOUND, [])
  {
    hide ContentsAt, Holding;
    match v {
      case None => ReadEmpty(file, slotSize, at);
      case Some(p) => ReadPayload(file, slotSize, at, p);
    }
  }

  lemma {:induction false} SlotsApart(j: nat, k: nat, slotSize: nat)
    ensures j < k ==> SlotOffset(j, slotSize) + slotSize <= SlotOffset(k, slotSize)
    decreases k
  {
    if j < k {
      assert k * slotSize == (k - 1) * slotSize + slotSize;
      SlotsApart(j, k - 1, slotSize);
    }
  }

  /**
   * A slot on disk: slot `k` starts at byte k times the slot size, with the payload's length in four
   * bytes, the lowest first, then the payload, then zeros; a gap before it fills with zeros.
   */
  lemma SlotOnDisk(file: seq<byte>, slotSize: nat, k: nat, payload: seq<byte>)
    requires |payload| + 4 <= slotSize < TWO_32
    ensures var now, o := Written(file, slotSize, Write(k, payload)), k * slotSize;
      && |now| == (if |file| > o + slotSize then |file| else o + slotSize)
      && |payload| == now[o] as int + 0x100 * now[o + 1] as int + 0x1_0000 * now[o + 2] as int + 0x100_0000 * now[o + 3] as int
      && now[o + 4..o + 4 + |payload|] == payload
      && (forall i :: o + 4 + |payload| <= i < o + slotSize ==> now[i] == 0)
      && (forall i :: 0 <= i < |now| && !(o <= i < o + slotSize) ==> now[i] == if i < |file| then file[i] else 0)
  {
    hide LittleEndian, FromLittleEndian, Spliced;
    var now, o, image := Written(file, slotSize, Write(k, payload)), k * slotSize, SlotImage(slotSize, payload);
    FieldRoundTrip32(|payload|);
    FourDigits(LittleEndian(|payload|, 4));
    assert LittleEndian(|payload|, 4)[..4] == LittleEndian(|payload|, 4);
    SplicedAt(file, o, image, 0);
    forall i: nat | i < |now|
      ensures now[i] == if o <= i < o + slotSize then image[i - o] else if i < |file| then file[i] else 0
    {
      SplicedAt(file, o, image, i);
    }
    forall i | 0 <= i < |payload|
      ensures now[o + 4..o + 4 + |payload|][i] == payload[i]
    {
      assert image[4 + i] == payload[i];
    }
  }

  lemma HeadRead(file: seq<byte>, at: nat, slotSize: nat)
    requires 4 <= slotSize < TWO_32 && at + 4 <= |file|
    ensures var n := file[at] as int + 0x100 * file[at + 1] as int + 0x1_0000 * file[at + 2] as int + 0x100_0000 * file[at + 3] as int;
      && FromLittleEndian(file[at..at + 4]) == n
      && (n == 0 ==> ContentsAt(file, at, slotSize) == (NOT_FOUND, []))
      && (n > slotSize - 4 ==> ContentsAt(file, at, slotSize) == (PARSE_ERROR, []))
  {
    hide FromLittleEndian, Zeros, Slice;
    ShortChunk(file, at, slotSize);
    ChunkFront(file, at, slotSize, 4);
    FourDigits(file[at..at + 4]);
    assert file[at..at + 4][..4] == file[at..at + 4];
  }

  lemma BodyRead(file: seq<byte>, at: nat, slotSize: nat, n: nat)
    requires 4 <= slotSize < TWO_32 && 0 < n <= slotSize - 4 && at + 4 + n <= |file|
    requires FromLittleEndian(file[at..at + 4]) == n
    ensures ContentsAt(file, at, slotSize) == (OK, file[at + 4..at + 4 + n])
  {
    hide FromLittleEndian, LittleEndian, ContentsAt, Slice;
    var p := file[at + 4..at + 4 + n];
    FromLittleEndianRoundTrip(file[at..at + 4]);
    ReadPayload(file, slotSize, at, p);
  }

  /** What reading a slot gives, told from its bytes. */
  lemma SlotReads(file: seq<byte>, k: nat, slotSize: nat)
    requires 4 <= slotSize < TWO_32
    ensures var o := k * slotSize;
      && (|file| < o + 4 ==> SlotContents(file, k, slotSize) == (NOT_FOUND, []))
      && (|file| >= o + 4 ==>
            var n := file[o] as int + 0x100 * file[o + 1] as int + 0x1_0000 * file[o + 2] as int + 0x100_0000 * file[o + 3] as int;
            && (n == 0 ==> SlotContents(file, k, slotSize) == (NOT_FOUND, []))
            && (n > slotSize - 4 ==> SlotContents(file, k, slotSize) == (PARSE_ERROR, []))
            && (0 < n <= slotSize - 4 && o + 4 + n <= |file| ==>
                  SlotContents(file, k, slotSize) == (OK, file[o + 4..o + 4 + n])))
  {
    hide FromLittleEndian, ContentsAt;
    var o := k * slotSize;
    if |file| < o + 4 {
      NoHead(file, o, slotSize);
    } else {
      HeadRead(file, o, slotSize);
      var n := FromLittleEndian(file[o..o + 4]);
      if 0 < n <= slotSize - 4 && o + 4 + n <= |file| {
        BodyRead(file, o, slotSize, n);
      }
    }
  }

  lemma NoHead(file: seq<byte>, at: nat, slotSize: nat)
    requires 4 <= slotSize && |file| < at + 4
    ensures ContentsAt(file, at, slotSize) == (NOT_FOUND, [])
  {
    hide Slice;
    ShortChunk(file, at, slotSize);
  }

  lemma ShortChunk(file: seq<byte>, at: nat, slotSize: nat)
    requires 4 <= slotSize
    ensures |file| < at + 4 <==> |Slice(file, at, at + slotSize)| < 4
    ensures |Slice(file, at, at + slotSize)| <= slotSize
  {
  }

  /** A write beside a slot, even one cut short, leaves it holding what it held. */
  lemma OtherSlotsKeep(file: seq<byte>, slotSize: nat, at: nat, v: Option<seq<byte>>, offset: nat, data: seq<byte>)
    requires slotSize >= 4 && |data| <= slotSize
    requires at + slotSize <= offset || offset + slotSize <= at
    requires Holding(file, slotSize, at, v)
    ensures Holding(Spliced(file, offset, data), slotSize, at, v)
  {
    hide LittleEndian, Spliced;
    var now := Spliced(file, offset, data);
    SplicedElsewhere(file, offset, data, at, at + slotSize);
    if v.Some? {
      var p := v.value;
      assert now[at..at + 4] == file[at..at + 4];
      assert now[at + 4..at + 4 + |p|] == file[at + 4..at + 4 + |p|];
    }
  }

  /** Outside the written range bytes stay; new ones in a gap are zero. */
  lemma SplicedElsewhere(file: seq<byte>, offset: nat, data: seq<byte>, from: nat, to: nat)
    requires from <= to && (to <= offset || offset + |data| <= from)
    ensures |Spliced(file, offset, data)| >= |file|
    ensures forall i :: from <= i < to && i < |Spliced(file, offset, data)| ==>
      Spliced(file, offset, data)[i] == if i < |file| then file[i] else 0
  {
  }

  /** A completed write makes the slot hold its payload. */
  lemma WrittenSlotHolds(file: seq<byte>, slotSize: nat, at: nat, payload: seq<byte>)
    requires |payload| + 4 <= slotSize < TWO_32
    ensures Holding(Spliced(file, at, SlotImage(slotSize, payload)), slotSize, at,
                    if payload == [] then None else Some(payload))
  {
    hide LittleEndian, Spliced, Zeros;
    var image := SlotImage(slotSize, payload);
    var now := Spliced(file, at, image);
    SplicedHere(file, at, image);
    if payload == [] {
      ZeroField();
      forall i | at <= i < at + 4 && i < |now|
        ensures now[i] == 0
      {
        assert now[i] == now[at..at + slotSize][i - at] == image[i - at] == LittleEndian(0, 4)[i - at];
      }
    } else {
      SliceOfSlice(now, at, at + slotSize, 0, 4);
      SliceOfSlice(now, at, at + slotSize, 4, 4 + |payload|);
      assert image[0..4] == LittleEndian(|payload|, 4) && image[4..4 + |payload|] == payload;
    }
  }

  lemma ZeroField()
    ensures LittleEndian(0, 4) == [0, 0, 0, 0]
  {
    assert LittleEndian(0, 1) == [0];
    assert LittleEndian(0, 2) == [0, 0];
    assert LittleEndian(0, 3) == [0, 0, 0];
  }

  lemma SplicedHere(file: seq<byte>, offset: nat, data: seq<byte>)
    requires data != []
    ensures offset + |data| <= |Spliced(file, offset, data)|
    ensures Spliced(file, offset, data)[offset..offset + |data|] == data
  {
  }

  // ---------------------------------------------------------------------------
  //  Runs of writes
  // ---------------------------------------------------------------------------

  /** A write that returned OK or OUT_OF_MEMORY, or one that failed after `m` bytes. */
  datatype WriteOp =
    | Write(k: nat, payload: seq<byte>)
    | FailedWrite(k: nat, payload: seq<byte>, m: nat)

  function Written(file: seq<byte>, slotSize: nat, op: WriteOp): seq<byte> {
    if |op.payload| + 4 > slotSize then file
    else
      var image := SlotImage(slotSize, op.payload);
      match op
      case Write(k, _) => Spliced(file, SlotOffset(k, slotSize), image)
      case FailedWrite(k, _, m) => Spliced(file, SlotOffset(k, slotSize), image[..if m <= slotSize then m else slotSize])
  }

  function WrittenAll(file: seq<byte>, slotSize: nat, ops: seq<WriteOp>): seq<byte>
    decreases |ops|
  {
    if ops == [] then file
    else Written(WrittenAll(file, slotSize, ops[..|ops| - 1]), slotSize, ops[|ops| - 1])
  }

  /** What the slots should hold, and the slots whose last write failed. */
  datatype SlotMap = SlotMap(payloads: map<nat, seq<byte>>, torn: set<nat>) {
    function At(k: nat): Option<seq<byte>> {
      if k in payloads then Some(payloads[k]) else None
    }
  }

  function Tracked(m: SlotMap, slotSize: nat, op: WriteOp): SlotMap {
    if |op.payload| + 4 > slotSize then m
    else
      match op
      case Write(k, p) => SlotMap(if p == [] then m.payloads - {k} else m.payloads[k := p], m.torn - {k})
      case FailedWrite(k, p, _) => SlotMap(m.payloads - {k}, m.torn + {k})
  }

  function TrackedAll(slotSize: nat, ops: seq<WriteOp>): SlotMap
    decreases |ops|
  {
    if ops == [] then SlotMap(map[], {})
    else Tracked(TrackedAll(slotSize, ops[..|ops| - 1]), slotSize, ops[|ops| - 1])
  }

  /** Whatever becomes of a write, the other slots hold what they held. */
  lemma OtherSlotKeeps(file: seq<byte>, slotSize: nat, op: WriteOp, j: nat, v: Option<seq<byte>>)
    requires slotSize >= 4 && j != op.k
    requires Holding(file, slotSize, SlotOffset(j, slotSize), v)
    ensures Holding(Written(file, slotSize, op), slotSize, SlotOffset(j, slotSize), v)
  {
    hide Holding, SlotImage, Spliced, SlotOffset;
    if |op.payload| + 4 <= slotSize {
      var image := SlotImage(slotSize, op.payload);
      var n := if op.Write? then slotSize else if op.m <= slotSize then op.m else slotSize;
      assert image[..slotSize] == image;
      SlotsApart(j, op.k, slotSize);
      SlotsApart(op.k, j, slotSize);
      OtherSlotsKeep(file, slotSize, SlotOffset(j, slotSize), v, SlotOffset(op.k, slotSize), image[..n]);
    }
  }

  lemma WriteTracked(file: seq<byte>, slotSize: nat, m: SlotMap, op: WriteOp, j: nat)
    requires 4 <= slotSize < TWO_32
    requires j !in m.torn ==> Holding(file, slotSize, SlotOffset(j, slotSize), m.At(j))
    ensures j !in Tracked(m, slotSize, op).torn ==>
      Holding(Written(file, slotSize, op), slotSize, SlotOffset(j, slotSize), Tracked(m, slotSize, op).At(j))
  {
    hide Holding, SlotImage, Spliced, SlotOffset;
    if j != op.k {
      if j !in m.torn {
        OtherSlotKeeps(file, slotSize, op, j, m.At(j));
      }
    } else if op.Write? && |op.payload| + 4 <= slotSize {
      WrittenSlotHolds(file, slotSize, SlotOffset(j, slotSize), op.payload);
    }
  }

  /**
   * From the empty file, after any sequence of writes, every slot whose last write did not
   * fail reads as the payload last written to it; never-written and emptied slots, gaps and
   * slots behind the end of the file read as not found.
   */
  lemma SlotFileRefinesMap(slotSize: nat, ops: seq<WriteOp>, k: nat)
    requires slotSize < TWO_32
    requires k !in TrackedAll(slotSize, ops).torn
    ensures var m := TrackedAll(slotSize, ops);
      SlotContents(WrittenAll([], slotSize, ops), k, slotSize)
      == if k in m.payloads then (OK, m.payloads[k]) else (NOT_FOUND, [])
  {
    hide ContentsAt, Holding;
    if slotSize < 4 {
      NothingFits(slotSize, ops);
      NothingRead(WrittenAll([], slotSize, ops), SlotOffset(k, slotSize), slotSize);
    } else {
      AllHolding(slotSize, ops, k);
      ReadHolding(WrittenAll([], slotSize, ops), slotSize, SlotOffset(k, slotSize), TrackedAll(slotSize, ops).At(k));
    }
  }

  lemma {:induction false} NothingFits(slotSize: nat, ops: seq<WriteOp>)
    requires slotSize < 4
    ensures TrackedAll(slotSize, ops).payloads == map[]
    decreases |ops|
  {
    if ops != [] {
      NothingFits(slotSize, ops[..|ops| - 1]);
    }
  }

  lemma NothingRead(file: seq<byte>, at: nat, slotSize: nat)
    requires slotSize < 4
    ensures ContentsAt(file, at, slotSize) == (NOT_FOUND, [])
  {
  }

  lemma {:induction false} AllHolding(slotSize: nat, ops: seq<WriteOp>, k: nat)
    requires 4 <= slotSize < TWO_32
    ensures k !in TrackedAll(slotSize, ops).torn ==>
      Holding(WrittenAll([], slotSize, ops), slotSize, SlotOffset(k, slotSize), TrackedAll(slotSize, ops).At(k))
    decreases |ops|
  {
    if ops == [] {
    } else {
      hide Holding, Written, Tracked, SlotOffset;
      var n := |ops| - 1;
      AllHolding(slotSize, ops[..n], k);
      WriteTracked(WrittenAll([], slotSize, ops[..n]), slotSize, TrackedAll(slotSize, ops[..n]), ops[n], k);
    }
  }
}
