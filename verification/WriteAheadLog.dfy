/** The write-ahead log: recovery on open, durable append, reads, truncation. */
module WriteAheadLog {
  import opened Bytes
  import opened Common
  import opened CrashRuns
  import opened Crc
  import opened Files
  import opened Frames
  import opened LogSteps
  import opened Recovery

  /** An entry as the read operations return it. */
  datatype LogEntry = LogEntry(index: nat, term: nat, payload: seq<byte>)

  method CopyBytes(buf: array<byte>, off: nat, data: seq<byte>)
    requires off + |data| <= buf.Length
    modifies buf
    ensures buf[..off + |data|] == old(buf[..off]) + data
  {
    for i := 0 to |data|
      invariant buf[..off] == old(buf[..off])
      invariant buf[off..off + i] == data[..i]
    {
      buf[off + i] := data[i];
    }
  }

  /** Fills a buffer with the frame of an entry, field by field. */
  method BuildFrame(index: nat, e: Entry) returns (buf: array<byte>)
    requires index < TWO_64 && e.Encodable()
    ensures fresh(buf) && buf[..] == Frame(index, e)
  {
    hide Checksum, LittleEndian, StoreWord;
    var payloadLength := |e.payload|;
    buf := new byte[4 + BodySize(payloadLength)];
    var off := 0;
    CopyBytes(buf, off, LittleEndian(BodySize(payloadLength), 4));
    off := off + 4;
    ghost var front := LittleEndian(BodySize(payloadLength), 4);
    assert buf[..off] == front;
    CopyBytes(buf, off, LittleEndian(index, 8));
    off := off + 8;
    front := front + LittleEndian(index, 8);
    assert buf[..off] == front;
    CopyBytes(buf, off, LittleEndian(e.term, 8));
    off := off + 8;
    front := front + LittleEndian(e.term, 8);
    assert buf[..off] == front;
    CopyBytes(buf, off, LittleEndian(payloadLength, 4));
    off := off + 4;
    front := front + LittleEndian(payloadLength, 4);
    assert buf[..off] == front;
    CopyBytes(buf, off, e.payload);
    off := off + payloadLength;
    assert buf[..off] == Covered(index, e);
    var checksum := Crc32(buf[..off]);
    CopyBytes(buf, off, StoreWord(checksum));
    assert buf[..off + 4] == buf[..];
  }

  class WriteAheadLog {
    const file: File              // what path_ names
    var isOpen: bool              // fd_ >= 0
    var offsetIndex: seq<nat>
    var lastIndex: nat
    var lastTerm: nat
    var writeOffset: nat
    ghost var entries: seq<Entry> // the log this object stands for while it is open

    ghost function State(): LogState
      reads this, file
    {
      LogState(file.bytes, isOpen, offsetIndex, lastIndex, lastTerm, writeOffset)
    }

    ghost predicate Valid()
      reads this, file
    {
      && file.Valid()
      && |offsetIndex| == lastIndex
      && (isOpen ==> Represents(State(), entries))
    }

    constructor (file: File)
      requires file.Valid()
      ensures Valid() && !isOpen && this.file == file
    {
      this.file := file;
      isOpen, offsetIndex, lastIndex, lastTerm, writeOffset := false, [], 0, 0, 0;
    }

    method SysPread(count: nat, offset: nat) returns (n: int, data: seq<byte>)
      ensures n < 0 || (isOpen && n == |data| && data == Slice(file.bytes, offset, offset + count))
      ensures isOpen && file.reliable ==> n >= 0
    {
      if isOpen {
        n, data := file.Pread(count, offset);
      } else {
        n, data := -1, [];
      }
    }

    /**
     * One round of the recovery scan: reads the frame at `pos` and checks it.
     * `OK` with `None` means that the scan stops there.
     */
    method ScanFrame(pos: nat, expected: nat) returns (status: Status, found: Option<Entry>)
      requires pos <= |file.bytes|
      ensures status == OK || status == IO_ERROR
      ensures status == OK ==> found == Decode(file.bytes[pos..], expected)
      ensures isOpen && file.reliable ==> status == OK
    {
      hide Checksum, LoadWord, FromLittleEndian, LittleEndian;
      ghost var rest := file.bytes[pos..];
      if pos + 4 > |file.bytes| {
        return OK, None;
      }
      var n, prefix := SysPread(4, pos);
      if n < 0 {
        return IO_ERROR, None;
      }
      assert prefix == rest[0..4];
      var frameLength := FromLittleEndian(prefix);
      if pos + 4 + frameLength > |file.bytes| {
        return OK, None;
      }
      if frameLength < FIXED_BODY {
        return OK, None;
      }
      var body;
      n, body := SysPread(frameLength, pos + 4);
      if n < 0 {
        return IO_ERROR, None;
      }
      assert body == rest[4..4 + frameLength];
      SliceOfSlice(rest, 4, 4 + frameLength, 16, 20);
      SliceOfSlice(rest, 4, 4 + frameLength, 0, 8);
      SliceOfSlice(rest, 4, 4 + frameLength, 8, 16);
      var payloadLength := FromLittleEndian(body[16..20]);
      if frameLength != BodySize(payloadLength) {
        return OK, None;
      }
      PayloadLengthIsForced(frameLength, payloadLength);
      SliceOfSlice(rest, 4, 4 + frameLength, frameLength - 4, frameLength);
      var storedChecksum := LoadWord(body[frameLength - 4..frameLength]);
      FromLittleEndianRoundTrip(prefix);
      assert LittleEndian(frameLength, 4) + body[..frameLength - 4] == rest[..frameLength];
      var checksum := Crc32(LittleEndian(frameLength, 4) + body[..frameLength - 4]);
      if checksum != storedChecksum {
        return OK, None;
      }
      if FromLittleEndian(body[0..8]) != expected {
        return OK, None;
      }
      SliceOfSlice(rest, 4, 4 + frameLength, 20, 20 + payloadLength);
      return OK, Some(Entry(FromLittleEndian(body[8..16]), body[20..20 + payloadLength]));
    }

    /** Recovers the log from whatever the file holds. */
    method Open() returns (status: Status)
      requires Valid()
      modifies this, file
      ensures Valid()
      ensures status == OK || status == IO_ERROR
      ensures status == OK ==>
        RepresentsExactly(State(), entries) && entries == Recover(old(file.bytes))
      ensures status == IO_ERROR ==> !isOpen && file.bytes == old(file.bytes)
      ensures status == OK ==> Step(old(State()), Opened, State())
      ensures status == IO_ERROR ==> Step(old(State()), OpenFailed, State())
      ensures status == OK ==>
        lastIndex == |entries| && lastTerm == if entries == [] then 0 else entries[|entries| - 1].term
      ensures file.reliable ==> status == OK
    {
      hide Decode, Frame, Encode, Offsets, Recover, ScannedTo, Represents, Step;
      ghost var before := State();
      isOpen := false;
      var fd := file.Open();
      if fd != 0 {
        TookOpenFailed(before, State());
        return IO_ERROR;
      }
      isOpen := true;
      offsetIndex, lastIndex, lastTerm, writeOffset, entries := [], 0, 0, 0, [];
      var totalSize := file.Size();
      if totalSize < 0 {
        isOpen := false;
        TookOpenFailed(before, State());
        return IO_ERROR;
      }
      ghost var bytes := file.bytes;
      var pos := 0;
      ScanStarts(bytes);
      while true
        invariant isOpen && file.bytes == bytes
        invariant pos <= |bytes| && |offsetIndex| == lastIndex == |entries|
        invariant ScannedTo(bytes, pos, offsetIndex, lastTerm, entries)
        decreases |bytes| - pos
      {
        var scanned, found := ScanFrame(pos, |offsetIndex| + 1);
        if scanned != OK {
          isOpen := false;
          TookOpenFailed(before, State());
          return IO_ERROR;
        }
        if found == None {
          break;
        }
        ScanContinues(bytes, pos, offsetIndex, lastTerm, entries, found.value);
        offsetIndex, lastIndex, lastTerm := offsetIndex + [pos], |offsetIndex| + 1, found.value.term;
        entries := entries + [found.value];
        pos := pos + found.value.FrameSize();
      }
      ScanStops(bytes, pos, offsetIndex, lastTerm, entries);
      if pos != totalSize {
        var r := file.Ftruncate(pos);
        if r != 0 {
          isOpen := false;
          TookOpenFailed(before, State());
          return IO_ERROR;
        }
      }
      writeOffset := pos;
      assert State() == LogState(Encode(entries), true, offsetIndex, |entries|, lastTerm, pos);
      RepresentedTail(State(), entries);
      TookOpened(before, State());
      return OK;
    }

    /** Durably appends one entry; a reported failure leaves memory as it was. */
    method Append(term: nat, payload: seq<byte>) returns (status: Status, outIndex: nat)
      requires Valid()
      requires term < TWO_64
      requires |payload| % TWO_32 + FIXED_BODY < TWO_32   // else the frame overruns its buffer
      modifies this, file
      ensures Valid()
      ensures status == OK || status == IO_ERROR
      ensures var e := Entry(term, Stored(payload));
        && (status == OK ==>
          && Step(old(State()), Appended(e), State())
          && entries == old(entries) + [e]
          && outIndex == |entries| == lastIndex && lastTerm == term)
        && (status == IO_ERROR ==>
          && entries == old(entries)
          && exists m :: Step(old(State()), AppendFailed(e, m), State()))
      ensures !old(isOpen) ==> status == IO_ERROR && file.bytes == old(file.bytes)
      ensures old(isOpen) && file.reliable && old(writeOffset) + Entry(term, Stored(payload)).FrameSize() <= MAX_FILE_SIZE
        ==> status == OK
    {
      hide Frame, Represents, Spliced, PartlyAppended, Step;
      var e := Entry(term, Stored(payload));
      ghost var before := State();
      NothingAppended(before, e);
      outIndex := 0;
      if !isOpen {
        TookAppendFailed(before, e, 0, State());
        return IO_ERROR, 0;
      }
      IndexIsBounded(before, entries);
      var newIndex := lastIndex + 1;
      var buf := BuildFrame(newIndex, e);
      ghost var frame := buf[..];
      var written := 0;
      while written < buf.Length
        invariant written <= buf.Length && buf[..] == frame
        invariant file.Valid() && file.bytes == PartlyAppended(before, e, written)
        modifies file
      {
        var n := file.Pwrite(buf[written..], writeOffset + written);
        if n < 0 {
          TookAppendFailed(before, e, written, State());
          PartlyAppendedRepresents(before, entries, e, written);
          return IO_ERROR, 0;
        }
        PartlyAppendedMore(before, e, written, n);
        assert buf[written..][..n] == frame[written..written + n];
        written := written + n;
      }
      var synced := file.Fsync();
      if synced != 0 {
        TookAppendFailed(before, e, written, State());
        PartlyAppendedRepresents(before, entries, e, written);
        return IO_ERROR, 0;
      }
      ExtendedRepresents(before, entries, e);
      offsetIndex := offsetIndex + [writeOffset];
      writeOffset := writeOffset + buf.Length;
      lastIndex, lastTerm := newIndex, term;
      entries := entries + [e];
      TookAppended(before, e, State());
      return OK, newIndex;
    }

    /** Reads the frame at an offset that came from the offset index. */
    method ReadFrameAt(fileOffset: nat, ghost k: nat) returns (status: Status, out: LogEntry)
      requires Valid()
      requires isOpen ==> k < |entries| && fileOffset == offsetIndex[k]
      ensures status == OK || status == IO_ERROR
      ensures status == OK ==>
        isOpen && out.index == k + 1 && out.term == entries[k].term && out.payload == entries[k].payload
      ensures isOpen && file.reliable ==> status == OK
    {
      hide Frame, Represents, FromLittleEndian;
      out := LogEntry(0, 0, []);
      if isOpen {
        ghost var behind := RecordedFrame(State(), entries, k);
        FrameReadsBack(file.bytes, fileOffset, k + 1, entries[k], behind);
      }
      var n, prefix := SysPread(4, fileOffset);
      if n < 4 {
        return IO_ERROR, out;
      }
      var frameLength := FromLittleEndian(prefix);
      var body;
      n, body := SysPread(frameLength, fileOffset + 4);
      if n < frameLength {
        return IO_ERROR, out;
      }
      var payloadLength := FromLittleEndian(body[16..20]);
      out := LogEntry(FromLittleEndian(body[0..8]), FromLittleEndian(body[8..16]), body[20..20 + payloadLength]);
      return OK, out;
    }

    method EntryAt(index: nat) returns (status: Status, out: LogEntry)
      requires Valid()
      ensures status == NOT_FOUND <==> index == 0 || index > lastIndex
      ensures status == OK || status == NOT_FOUND || status == IO_ERROR
      ensures status == OK ==>
        && 1 <= index <= |entries|
        && out.index == index
        && out.term == entries[index - 1].term
        && out.payload == entries[index - 1].payload
      ensures isOpen && file.reliable ==> status != IO_ERROR
    {
      hide Represents;
      if index == 0 || index > lastIndex {
        return NOT_FOUND, LogEntry(0, 0, []);
      }
      RepresentedSizes(State(), entries);
      status, out := ReadFrameAt(offsetIndex[index - 1], index - 1);
    }

    method Range(fromIndex: nat, toIndex: nat) returns (status: Status, out: seq<LogEntry>)
      requires Valid()
      ensures status == NOT_FOUND <==> fromIndex == 0 || fromIndex > toIndex || toIndex > lastIndex
      ensures status == OK || status == NOT_FOUND || status == IO_ERROR
      ensures status != OK ==> out == []
      ensures status == OK ==>
        && 1 <= fromIndex <= toIndex <= |entries|
        && |out| == toIndex - fromIndex + 1
        && forall i :: 0 <= i < |out| ==>
          && out[i].index == fromIndex + i
          && out[i].term == entries[fromIndex + i - 1].term
          && out[i].payload == entries[fromIndex + i - 1].payload
      ensures isOpen && file.reliable ==> status != IO_ERROR
    {
      hide Represents;
      out := [];
      if fromIndex == 0 || fromIndex > toIndex || toIndex > lastIndex {
        return NOT_FOUND, [];
      }
      RepresentedSizes(State(), entries);
      var i := fromIndex;
      while i <= toIndex
        invariant fromIndex <= i <= toIndex + 1
        invariant out != [] ==> isOpen
        invariant |out| == i - fromIndex
        invariant isOpen ==> forall j :: 0 <= j < |out| ==>
          && out[j].index == fromIndex + j
          && out[j].term == entries[fromIndex + j - 1].term
          && out[j].payload == entries[fromIndex + j - 1].payload
      {
        var read, entry := ReadFrameAt(offsetIndex[i - 1], i - 1);
        if read != OK {
          return read, [];
        }
        out := out + [entry];
        i := i + 1;
      }
      return OK, out;
    }

    /** Discards every entry from `index` on; `0` discards them all. */
    method TruncateFrom(index: nat) returns (status: Status)
      requires Valid()
      modifies this, file
      ensures Valid()
      ensures status == OK || status == IO_ERROR
      ensures status == OK ==>
        && isOpen == old(isOpen) == true
        && entries == (if index == 0 then [] else if index > old(|entries|) then old(entries) else old(entries[..index - 1]))
        && entries == Kept(old(entries), index)
        && Step(old(State()), Truncated(index), State())
      ensures status == OK ==>
        lastIndex == |entries| && lastTerm == if entries == [] then 0 else entries[|entries| - 1].term
      ensures status == IO_ERROR ==>
        Step(old(State()), TruncateFailed(index), State()) && entries == old(entries)
      ensures !old(isOpen) ==> status == IO_ERROR
      ensures old(isOpen) && file.reliable ==> status == OK
    {
      hide Frame, Represents, Step, LastTerm;
      ghost var before := State();
      TookTruncateFailed(before, index, before);
      if !isOpen {
        return IO_ERROR;
      }
      ghost var es := entries;
      RepresentedSizes(before, es);
      if index == 0 {
        EmptyFileRepresents();
        var r := file.Ftruncate(0);
        if r != 0 {
          return IO_ERROR;
        }
        offsetIndex, lastIndex, lastTerm, writeOffset, entries := [], 0, 0, 0, [];
        TookTruncated(before, es, index, State());
        return OK;
      }
      if index > lastIndex {
        RepresentedTail(before, es);
        TookTruncated(before, es, index, before);
        return OK;
      }
      CutRepresents(before, es, index);
      var newLastIndex := index - 1;
      var cutOffset := offsetIndex[index - 1];
      var newLastTerm := 0;
      if newLastIndex != 0 {
        var read, tailEntry := ReadFrameAt(offsetIndex[newLastIndex - 1], newLastIndex - 1);
        if read != OK {
          return read;
        }
        newLastTerm := tailEntry.term;
      }
      var r := file.Ftruncate(cutOffset);
      if r != 0 {
        return IO_ERROR;
      }
      var kept := [];
      for i := 0 to newLastIndex
        invariant kept == offsetIndex[..i]
      {
        kept := kept + [offsetIndex[i]];
      }
      offsetIndex, lastIndex, lastTerm, writeOffset := kept, newLastIndex, newLastTerm, cutOffset;
      entries := entries[..newLastIndex];
      RepresentedTail(State(), entries);
      TookTruncated(before, es, index, State());
      return OK;
    }
  }

  /** What memory says of the log's end. */
  lemma RepresentedTail(s: LogState, es: seq<Entry>)
    ensures Represents(s, es) ==> s.lastIndex == |es| && s.lastTerm == if es == [] then 0 else es[|es| - 1].term
  {
  }

  // ---------------------------------------------------------------------------
  //  What a caller sees
  // ---------------------------------------------------------------------------

  /** What an append acknowledged, a read under the index it returned gives back. */
  method AppendThenRead(log: WriteAheadLog, term: nat, payload: seq<byte>)
    returns (appended: Status, outIndex: nat, read: Status, out: LogEntry)
    requires log.Valid() && term < TWO_64 && |payload| % TWO_32 + FIXED_BODY < TWO_32
    modifies log, log.file
    ensures log.Valid()
    ensures appended == OK ==> outIndex == old(log.lastIndex) + 1 && read != NOT_FOUND
    ensures appended == OK && read == OK ==>
      out.index == outIndex && out.term == term && out.payload == payload[..|payload| % TWO_32]
    ensures appended == OK && log.file.reliable ==> read == OK
  {
    hide Represents, Step;
    read, out := NOT_FOUND, LogEntry(0, 0, []);
    ghost var before := log.State();
    appended, outIndex := log.Append(term, payload);
    if appended == OK {
      AppendedIndex(before, Entry(term, Stored(payload)), log.State());
      OpenIsCounted(log.State(), log.entries);
      read, out := log.EntryAt(outIndex);
    }
  }

  /** The same through a new log on the file, after the first was given up in whatever way. */
  method AppendThenReopen(log: WriteAheadLog, term: nat, payload: seq<byte>)
    returns (appended: Status, outIndex: nat, reopened: Status, read: Status, out: LogEntry)
    requires log.Valid() && term < TWO_64 && |payload| % TWO_32 + FIXED_BODY < TWO_32
    modifies log, log.file
    ensures appended == OK && reopened == OK ==> read != NOT_FOUND
    ensures appended == OK && reopened == OK && read == OK ==>
      out.index == outIndex && out.term == term && out.payload == payload[..|payload| % TWO_32]
    ensures appended == OK && log.file.reliable ==> reopened == OK && read == OK
  {
    hide Represents, Step, Recover, Log;
    reopened, read, out := IO_ERROR, NOT_FOUND, LogEntry(0, 0, []);
    ghost var before := log.State();
    appended, outIndex := log.Append(term, payload);
    if appended == OK {
      ghost var es := log.entries;
      AppendedIndex(before, Entry(term, Stored(payload)), log.State());
      OpenIsCounted(log.State(), es);
      LogOfRepresented(log.State(), es);
      var again := new WriteAheadLog(log.file);
      reopened := again.Open();
      if reopened == OK {
        assert es <= again.entries;
        OpenIsCounted(again.State(), again.entries);
        read, out := again.EntryAt(outIndex);
      }
    }
  }

  lemma AppendedIndex(s: LogState, e: Entry, s': LogState)
    requires Step(s, Appended(e), s')
    ensures s.isOpen && s'.isOpen && s'.lastIndex == s.lastIndex + 1
  {
  }

  lemma OpenIsCounted(s: LogState, es: seq<Entry>)
    ensures Represents(s, es) ==> s.isOpen && s.lastIndex == |es|
  {
  }

  lemma NothingAppended(s: LogState, e: Entry)
    ensures PartlyAppended(s, e, 0) == s.file
  {
  }

  lemma PartlyAppendedMore(s: LogState, e: Entry, m: nat, n: nat)
    requires m + n <= e.FrameSize()
    ensures Spliced(PartlyAppended(s, e, m), s.writeOffset + m, Frame(s.lastIndex + 1, e)[m..m + n])
         == PartlyAppended(s, e, m + n)
  {
    hide Frame, Spliced;
    var frame := Frame(s.lastIndex + 1, e);
    SplicedTwice(s.file, s.writeOffset, frame[..m], frame[m..m + n]);
    assert frame[..m] + frame[m..m + n] == frame[..m + n];
  }

  /** The file cannot hold so many entries that the next index overflows 64 bits. */
  lemma IndexIsBounded(s: LogState, es: seq<Entry>)
    requires Represents(s, es) && |s.file| <= MAX_FILE_SIZE
    ensures s.lastIndex == |es| && |es| + 1 < TWO_64
    ensures s.writeOffset <= |s.file|
  {
    EntriesAreBounded(es);
  }

  lemma RepresentedSizes(s: LogState, es: seq<Entry>)
    ensures Represents(s, es) ==> |s.offsets| == s.lastIndex == |es|
  {
  }

  /** At a recorded offset lies the frame of that entry. */
  lemma RecordedFrame(s: LogState, es: seq<Entry>, k: nat) returns (behind: seq<byte>)
    requires Represents(s, es) && k < |es|
    ensures |s.offsets| == |es| && s.offsets[k] + es[k].FrameSize() <= |s.file|
    ensures s.file[s.offsets[k]..] == Frame(k + 1, es[k]) + behind
    ensures k + 1 < TWO_64 && es[k].Encodable()
  {
    hide Frame, EncodeFrom, OffsetsFrom, TotalSize;
    FrameAtOffset(es, k);
    behind := EncodeFrom(k + 1, es[k + 1..]) + s.file[|Encode(es)|..];
    assert s.file == Encode(es[..k]) + (Frame(k + 1, es[k]) + behind);
    assert es[k] in es;
  }

  /** The two reads at a frame's offset give its fields. */
  lemma FrameReadsBack(file: seq<byte>, offset: nat, index: nat, e: Entry, behind: seq<byte>)
    requires offset <= |file| && file[offset..] == Frame(index, e) + behind
    requires index < TWO_64 && e.Encodable()
    ensures offset + e.FrameSize() <= |file|
    ensures FromLittleEndian(file[offset..offset + 4]) == FIXED_BODY + |e.payload|
    ensures var body := file[offset + 4..offset + 4 + FIXED_BODY + |e.payload|];
      && FromLittleEndian(body[0..8]) == index
      && FromLittleEndian(body[8..16]) == e.term
      && FromLittleEndian(body[16..20]) == |e.payload|
      && body[20..20 + |e.payload|] == e.payload
  {
    hide Frame, Checksum, LittleEndian, FromLittleEndian, Covered, StoreWord;
    FieldsOfFrame(index, e, behind);
    var rest, n := file[offset..], FIXED_BODY + |e.payload|;
    assert file[offset..offset + 4] == rest[0..4];
    assert file[offset + 4..offset + 4 + n] == rest[4..4 + n];
    SliceOfSlice(rest, 4, 4 + n, 0, 8);
    SliceOfSlice(rest, 4, 4 + n, 8, 16);
    SliceOfSlice(rest, 4, 4 + n, 16, 20);
    SliceOfSlice(rest, 4, 4 + n, 20, 20 + |e.payload|);
  }

  lemma EmptyFileRepresents()
    ensures Represents(LogState([], true, [], 0, 0, 0), [])
  {
    assert Encode([]) == [];
  }

  /** The state after a truncation at a recorded entry represents the entries before it. */
  lemma CutRepresents(s: LogState, es: seq<Entry>, index: nat)
    requires Represents(s, es) && 0 < index <= |es|
    ensures |s.offsets| == |es| && s.offsets[index - 1] <= |s.file|
    ensures Represents(LogState(s.file[..s.offsets[index - 1]], true, s.offsets[..index - 1], index - 1,
                                LastTerm(es[..index - 1]), s.offsets[index - 1]), es[..index - 1])
    ensures LastTerm(es[..index - 1]) == if index == 1 then 0 else es[index - 2].term
  {
    hide EncodeFrom, OffsetsFrom, TotalSize, Frame;
    CutAtOffset(s, es, index);
    FrameAtOffset(es, index - 1);
  }

  /** The scan has accepted the frames before `pos`, and recorded `es` from them. */
  ghost predicate ScannedTo(bytes: seq<byte>, pos: nat, offsets: seq<nat>, lastTerm: nat, es: seq<Entry>) {
    && Holds(bytes, es)
    && pos == |Encode(es)|
    && offsets == Offsets(es)
    && lastTerm == LastTerm(es)
    && Recover(bytes) == es + Parse(bytes[pos..], |es|)
  }

  lemma ScanStarts(bytes: seq<byte>)
    ensures ScannedTo(bytes, 0, [], 0, [])
  {
    hide Parse;
    assert Encode([]) == [] && Offsets([]) == [];
    assert bytes[0..] == bytes;
    assert Holds(bytes, []);
  }

  /** A frame accepted at the end of the scanned log extends it by one entry. */
  lemma ScanContinues(bytes: seq<byte>, pos: nat, offsets: seq<nat>, lastTerm: nat, es: seq<Entry>, e: Entry)
    requires pos <= |bytes|
    requires ScannedTo(bytes, pos, offsets, lastTerm, es)
    requires Decode(bytes[pos..], |es| + 1) == Some(e)
    ensures pos + e.FrameSize() <= |bytes|
    ensures ScannedTo(bytes, pos + e.FrameSize(), offsets + [pos], e.term, es + [e])
  {
    hide Decode, Frame, EncodeFrom, OffsetsFrom;
    var rest := bytes[pos..];
    var n := e.FrameSize();
    EncodeDecoded(rest, |es| + 1);
    EncodeSnoc(es, e);
    assert rest[n..] == bytes[pos + n..];
    assert bytes == Encode(es) + Frame(|es| + 1, e) + rest[n..];
    assert es + Parse(rest, |es|) == es + [e] + Parse(rest[n..], |es| + 1);
  }

  /** Where no frame is accepted the scanned log is the recovered one. */
  lemma ScanStops(bytes: seq<byte>, pos: nat, offsets: seq<nat>, lastTerm: nat, es: seq<Entry>)
    requires pos <= |bytes|
    requires ScannedTo(bytes, pos, offsets, lastTerm, es)
    requires Decode(bytes[pos..], |es| + 1) == None
    ensures es == Recover(bytes) && bytes[..pos] == Encode(es)
    ensures RepresentsExactly(LogState(Encode(es), true, offsets, |es|, lastTerm, pos), es)
  {
    hide Decode, Frame, EncodeFrom, OffsetsFrom;
  }
}
