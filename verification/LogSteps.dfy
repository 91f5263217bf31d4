/**
 * The state of the log, in memory and on disk, and what each of its operations may do to it.
 * The methods of `WriteAheadLog` are proved to take these steps; `CrashRuns` proves what
 * every run of them keeps.
 */
module LogSteps {
  import opened Bytes
  import opened Files
  import opened Frames
  import opened Recovery

  datatype LogState = LogState(
    file: seq<byte>,
    isOpen: bool,
    offsets: seq<nat>,
    lastIndex: nat,
    lastTerm: nat,
    writeOffset: nat)

  /** Memory and disk agree on the log `es`; the file may hold more bytes behind it. */
  ghost predicate Represents(s: LogState, es: seq<Entry>) {
    && s.isOpen
    && Holds(s.file, es)
    && s.writeOffset == |Encode(es)|
    && s.offsets == Offsets(es)
    && s.lastIndex == |es|
    && s.lastTerm == LastTerm(es)
  }

  /** The file holds the log and nothing else. */
  ghost predicate RepresentsExactly(s: LogState, es: seq<Entry>) {
    Represents(s, es) && s.file == Encode(es)
  }

  /** The payload that is stored: its length is cut to 32 bits first. */
  function Stored(payload: seq<byte>): (p: seq<byte>)
    ensures p <= payload
    ensures p == payload <==> |payload| < TWO_32
  {
    payload[..|payload| % TWO_32]
  }

  /** The file once the first `m` bytes of the next frame have reached it. */
  function PartlyAppended(s: LogState, e: Entry, m: nat): seq<byte>
    requires m <= e.FrameSize()
  {
    Spliced(s.file, s.writeOffset, Frame(s.lastIndex + 1, e)[..m])
  }

  /** The state after a complete append. */
  function Extended(s: LogState, e: Entry): LogState {
    LogState(PartlyAppended(s, e, e.FrameSize()), s.isOpen, s.offsets + [s.writeOffset],
             s.lastIndex + 1, e.term, s.writeOffset + e.FrameSize())
  }

  /** What a truncation leaves of a log. */
  function Kept(es: seq<Entry>, index: nat): seq<Entry> {
    if index == 0 then [] else if index > |es| then es else es[..index - 1]
  }

  /** What a truncation leaves of the file. */
  function Cut(s: LogState, index: nat): seq<byte> {
    if index == 0 then [] else if index > |s.offsets| || s.offsets[index - 1] > |s.file| then s.file
    else s.file[..s.offsets[index - 1]]
  }

  /** A complete append extends the represented log by the entry. */
  lemma ExtendedRepresents(s: LogState, es: seq<Entry>, e: Entry)
    requires Represents(s, es)
    requires |es| + 1 < TWO_64 && e.Encodable()
    ensures Represents(Extended(s, e), es + [e])
    ensures s.file == Encode(es) ==> RepresentsExactly(Extended(s, e), es + [e])
  {
    hide Frame, EncodeFrom, OffsetsFrom;
    EncodeSnoc(es, e);
    var f := Frame(|es| + 1, e);
    assert f[..e.FrameSize()] == f;
    SplicedInside(s.file, s.writeOffset, f);
    assert s.file[..s.writeOffset] == Encode(es);
  }

  /** A partial append leaves the represented log as it was. */
  lemma PartlyAppendedRepresents(s: LogState, es: seq<Entry>, e: Entry, m: nat)
    requires Represents(s, es) && m <= e.FrameSize()
    ensures Represents(s.(file := PartlyAppended(s, e, m)), es)
    ensures s.file == Encode(es) ==>
      PartlyAppended(s, e, m) == Encode(es) + Frame(|es| + 1, e)[..m]
  {
    hide Frame, EncodeFrom, OffsetsFrom;
    SplicedInside(s.file, s.writeOffset, Frame(|es| + 1, e)[..m]);
    assert s.file[..s.writeOffset] == Encode(es);
  }

  lemma CutAtOffset(s: LogState, es: seq<Entry>, index: nat)
    requires Represents(s, es) && 0 < index <= |es|
    ensures Encodable(0, es[..index - 1])
    ensures Cut(s, index) == Encode(es[..index - 1])
    ensures s.offsets[index - 1] == |Encode(es[..index - 1])| <= |s.file|
  {
    hide EncodeFrom, OffsetsFrom, Frame;
    FrameAtOffset(es, index - 1);
    EncodePrefix(es[..index - 1], es);
    PrefixOfPrefix(Encode(es[..index - 1]), Encode(es), s.file);
  }

  lemma PrefixOfPrefix(a: seq<byte>, b: seq<byte>, c: seq<byte>)
    requires a <= b <= c
    ensures a == c[..|a|]
  {
  }

  /** Cutting the file at a recorded offset leaves exactly the entries before it. */
  lemma CutHolds(s: LogState, es: seq<Entry>, index: nat)
    requires Represents(s, es)
    ensures Holds(Cut(s, index), Kept(es, index))
    ensures index <= |es| || s.file == Encode(es) ==> Cut(s, index) == Encode(Kept(es, index))
  {
    if index == 0 {
      assert Encode([]) == [];
    } else if index <= |es| {
      hide EncodeFrom, OffsetsFrom, Frame;
      CutAtOffset(s, es, index);
    }
  }

  // ---------------------------------------------------------------------------
  //  Steps
  // ---------------------------------------------------------------------------

  /** What an operation, or a crash during one, did. */
  datatype Event =
    | Opened
    | Appended(e: Entry)
    | Truncated(index: nat)
      // a failure that the operation reports
    | OpenFailed
    | AppendFailed(e: Entry, m: nat)             // m bytes of the frame reached the file
    | TruncateFailed(index: nat)
      // the process dies; what reached the file stays there
    | Crashed
    | CrashedInOpen(cut: bool)                   // before or after the file was cut
    | CrashedInAppend(e: Entry, m: nat)
    | CrashedInTruncate(index: nat, cut: bool)

  /** The state that opening a file with these bytes reaches. */
  function Reopened(file: seq<byte>): LogState {
    var es := Recover(file);
    LogState(Encode(es), true, Offsets(es), |es|, LastTerm(es), |Encode(es)|)
  }

  ghost predicate Step(s: LogState, ev: Event, s': LogState) {
    && |s'.file| <= MAX_FILE_SIZE
    && match ev
       case Opened => s' == Reopened(s.file)
       case Appended(e) => s.isOpen && e.Encodable() && s' == Extended(s, e)
       case Truncated(index) =>
         s'.file == Cut(s, index) && exists es :: Represents(s, es) && Represents(s', Kept(es, index))
       case OpenFailed => !s'.isOpen && s'.file == s.file
       case AppendFailed(e, m) =>
         && e.Encodable() && m <= e.FrameSize() && (s.isOpen || m == 0)
         && s' == s.(file := PartlyAppended(s, e, m))
       case TruncateFailed(index) => s' == s
       case Crashed => !s'.isOpen && s'.file == s.file
       case CrashedInOpen(cut) => !s'.isOpen && s'.file == if cut then Reopened(s.file).file else s.file
       case CrashedInAppend(e, m) =>
         s.isOpen && e.Encodable() && m <= e.FrameSize() && !s'.isOpen && s'.file == PartlyAppended(s, e, m)
       case CrashedInTruncate(index, cut) =>
         s.isOpen && !s'.isOpen && s'.file == if cut then Cut(s, index) else s.file
  }

  /** An exactly represented log fixes the whole state. */
  lemma ExactStateIsReopened(s: LogState, file: seq<byte>)
    requires RepresentsExactly(s, Recover(file))
    ensures s == Reopened(file)
  {
  }

  // The steps that a method takes, from what it has established.

  lemma TookOpened(s: LogState, s': LogState)
    requires RepresentsExactly(s', Recover(s.file)) && |s'.file| <= MAX_FILE_SIZE
    ensures Step(s, Opened, s')
  {
    hide Represents, Recover, Encode, Offsets;
    ExactStateIsReopened(s', s.file);
  }

  lemma TookOpenFailed(s: LogState, s': LogState)
    requires s'.file == s.file && !s'.isOpen && |s.file| <= MAX_FILE_SIZE
    ensures Step(s, OpenFailed, s')
  {
  }

  lemma TookAppended(s: LogState, e: Entry, s': LogState)
    requires s.isOpen && e.Encodable() && s' == Extended(s, e) && |s'.file| <= MAX_FILE_SIZE
    ensures Step(s, Appended(e), s')
  {
    hide Extended;
  }

  lemma TookAppendFailed(s: LogState, e: Entry, m: nat, s': LogState)
    requires e.Encodable() && m <= e.FrameSize() && (s.isOpen || m == 0)
    requires s' == s.(file := PartlyAppended(s, e, m)) && |s'.file| <= MAX_FILE_SIZE
    ensures Step(s, AppendFailed(e, m), s')
  {
    hide PartlyAppended;
  }

  lemma TookTruncateFailed(s: LogState, index: nat, s': LogState)
    requires s' == s && |s.file| <= MAX_FILE_SIZE
    ensures Step(s, TruncateFailed(index), s')
  {
  }

  lemma TookTruncated(s: LogState, es: seq<Entry>, index: nat, s': LogState)
    requires Represents(s, es) && Represents(s', Kept(es, index))
    requires s'.file == Cut(s, index) && |s'.file| <= MAX_FILE_SIZE
    ensures Step(s, Truncated(index), s')
  {
    hide Represents, Cut, Kept;
  }
}
