/**
 * Runs of the log: any sequence of operations, reported failures and process crashes.
 *
 * A crash keeps the bytes that reached the file and loses everything else, so what a state
 * is worth is the log that the next open will find in it.
 */
module CrashRuns {
  import opened Bytes
  import opened Common
  import opened Files
  import opened Frames
  import opened LogSteps
  import opened Recovery

  /** The log of a state: what memory stands for or, while closed, what the next open finds. */
  function Log(s: LogState): seq<Entry> {
    if s.isOpen && s.writeOffset <= |s.file| then Recover(s.file[..s.writeOffset]) else Recover(s.file)
  }

  /** What every reachable state keeps. */
  ghost predicate Sound(s: LogState) {
    |s.file| <= MAX_FILE_SIZE && (s.isOpen ==> Represents(s, Log(s)))
  }

  /** What every state keeps behind which no failed append has left bytes. */
  ghost predicate Clean(s: LogState) {
    Sound(s) && (s.isOpen ==> s.file == Encode(Log(s)))
  }

  /** The one failure that leaves something behind: an append that had written some bytes. */
  predicate Litters(ev: Event) {
    ev.AppendFailed? && ev.m > 0
  }

  /** The effect of an event on the log, told without files. */
  function Outcome(es: seq<Entry>, ev: Event): seq<Entry> {
    match ev
    case Appended(e) => es + [e]
    case Truncated(index) => Kept(es, index)
    case CrashedInAppend(e, m) => if m < e.FrameSize() then es else es + [e]
    case CrashedInTruncate(index, cut) => if cut then Kept(es, index) else es
    case _ => es
  }

  function Outcomes(es: seq<Entry>, events: seq<Event>): seq<Entry>
    decreases |events|
  {
    if events == [] then es
    else Outcome(Outcomes(es, events[..|events| - 1]), events[|events| - 1])
  }

  ghost predicate Run(states: seq<LogState>, events: seq<Event>) {
    |states| == |events| + 1 && forall i :: 0 <= i < |events| ==> Step(states[i], events[i], states[i + 1])
  }

  // ---------------------------------------------------------------------------
  //  One step
  // ---------------------------------------------------------------------------

  lemma LogOfRepresented(s: LogState, es: seq<Entry>)
    requires Represents(s, es)
    ensures Log(s) == es
    ensures es <= Recover(s.file)
    ensures Recover(s.file) == es <==> Decode(s.file[s.writeOffset..], |es| + 1) == None
  {
    hide EncodeFrom, OffsetsFrom, Parse, Decode;
    var tail := s.file[s.writeOffset..];
    assert s.file[..s.writeOffset] == Encode(es);
    RecoverEncoded(es);
    assert s.file == Encode(es) + tail;
    RecoverWithTail(es, tail);
    ParseEncoded(0, es, tail);
  }

  lemma ReopenedIsExact(file: seq<byte>)
    ensures RepresentsExactly(Reopened(file), Recover(file))
    ensures Log(Reopened(file)) == Recover(file)
    ensures |Reopened(file).file| <= |file|
    ensures Recover(Reopened(file).file) == Recover(file)
  {
    hide EncodeFrom, OffsetsFrom, Parse, Represents;
    ReopenedRepresents(file);
    LogOfRepresented(Reopened(file), Recover(file));
    RecoverEncoded(Recover(file));
  }

  lemma ReopenedRepresents(file: seq<byte>)
    ensures Represents(Reopened(file), Recover(file))
    ensures |Reopened(file).file| <= |file|
    ensures Encodable(0, Recover(file))
  {
    hide EncodeFrom, OffsetsFrom, Parse;
    RecoverIsLongest(file, []);
  }

  /** A process that reopens a cleanly left file has the very state it had before. */
  lemma ReopenRestoresState(s: LogState)
    requires Clean(s) && s.isOpen
    ensures Reopened(s.file) == s
  {
    hide EncodeFrom, OffsetsFrom, Parse;
    RecoverEncoded(Log(s));
  }

  lemma IndexFits(s: LogState, es: seq<Entry>)
    requires Represents(s, es) && |s.file| <= MAX_FILE_SIZE
    ensures |es| + 1 < TWO_64
  {
    EntriesAreBounded(es);
  }

  lemma EncodableSnoc(es: seq<Entry>, e: Entry)
    requires Encodable(0, es) && e.Encodable() && |es| + 1 < TWO_64
    ensures Encodable(0, es + [e])
  {
  }

  /** How an append interrupted after `m` bytes shows in the file. */
  lemma InterruptedAppend(s: LogState, e: Entry, m: nat)
    requires Sound(s) && s.isOpen && e.Encodable() && m <= e.FrameSize()
    ensures Represents(s.(file := PartlyAppended(s, e, m)), Log(s))
    ensures Log(s) <= Recover(PartlyAppended(s, e, m))
    ensures s.file == Encode(Log(s)) ==>
      Recover(PartlyAppended(s, e, m)) == if m < e.FrameSize() then Log(s) else Log(s) + [e]
  {
    hide EncodeFrom, OffsetsFrom, Parse, Frame, Represents;
    var es := Log(s);
    PartlyAppendedRepresents(s, es, e, m);
    LogOfRepresented(s.(file := PartlyAppended(s, e, m)), es);
    if s.file == Encode(es) {
      IndexFits(s, es);
      RepresentedIsEncodable(s, es);
      EncodableSnoc(es, e);
      RecoverInterrupted(es, e, m);
    }
  }

  lemma RepresentedIsEncodable(s: LogState, es: seq<Entry>)
    requires Represents(s, es)
    ensures Encodable(0, es)
  {
  }

  lemma CompletedAppend(s: LogState, e: Entry)
    requires Sound(s) && s.isOpen && e.Encodable()
    ensures Represents(Extended(s, e), Log(s) + [e])
    ensures Log(Extended(s, e)) == Log(s) + [e]
    ensures s.file == Encode(Log(s)) ==> Extended(s, e).file == Encode(Log(s) + [e])
  {
    hide EncodeFrom, OffsetsFrom, Parse, Frame, Represents, Extended;
    IndexFits(s, Log(s));
    ExtendedRepresents(s, Log(s), e);
    LogOfRepresented(Extended(s, e), Log(s) + [e]);
  }

  /** How a truncation shows in the file. */
  lemma CutLog(s: LogState, index: nat)
    requires Sound(s) && s.isOpen
    ensures Kept(Log(s), index) <= Recover(Cut(s, index))
    ensures s.file == Encode(Log(s)) ==>
      Cut(s, index) == Encode(Kept(Log(s), index)) && Recover(Cut(s, index)) == Kept(Log(s), index)
  {
    hide EncodeFrom, OffsetsFrom, Parse, Represents, Cut, Kept;
    var es := Log(s);
    CutHolds(s, es, index);
    RecoverIsLongest(Cut(s, index), Kept(es, index));
    if s.file == Encode(es) {
      RecoverEncoded(Kept(es, index));
    }
  }

  lemma CompletedTruncate(s: LogState, index: nat, s': LogState)
    requires Sound(s) && Step(s, Truncated(index), s')
    ensures s.isOpen && Represents(s', Kept(Log(s), index)) && Log(s') == Kept(Log(s), index)
    ensures s'.file == Cut(s, index)
  {
    hide EncodeFrom, OffsetsFrom, Parse, Cut, Kept;
    var es :| Represents(s, es) && Represents(s', Kept(es, index));
    LogOfRepresented(s, es);
    LogOfRepresented(s', Kept(es, index));
  }

  /** What any event but a truncation leaves in place: everything. */
  lemma StepKeepsLog(s: LogState, ev: Event, s': LogState)
    requires Sound(s) && Step(s, ev, s')
    ensures Sound(s')
    ensures match ev
      case Truncated(index) => Log(s') == Kept(Log(s), index)
      case CrashedInTruncate(index, cut) => (if cut then Kept(Log(s), index) else Log(s)) <= Log(s')
      case Appended(e) => Log(s') == Log(s) + [e]
      case AppendFailed(e, m) => Log(s') == Log(s)
      case TruncateFailed(index) => Log(s') == Log(s)
      case _ => Log(s) <= Log(s')
  {
    hide EncodeFrom, OffsetsFrom, Parse, Represents, Cut, Kept, PartlyAppended, Extended, Encode, Offsets, Recover;
    if s.isOpen {
      LogOfRepresented(s, Log(s));
    }
    match ev {
      case Opened =>
        ReopenedIsExact(s.file);
      case CrashedInOpen(cut) =>
        ReopenedIsExact(s.file);
      case Appended(e) =>
        CompletedAppend(s, e);
      case AppendFailed(e, m) =>
        if s.isOpen {
          InterruptedAppend(s, e, m);
          LogOfRepresented(s', Log(s));
        } else {
          NothingWritten(s, e);
        }
      case CrashedInAppend(e, m) =>
        InterruptedAppend(s, e, m);
      case Truncated(index) =>
        CompletedTruncate(s, index, s');
      case CrashedInTruncate(index, cut) =>
        CutLog(s, index);
      case _ =>
    }
  }

  lemma NothingWritten(s: LogState, e: Entry)
    ensures PartlyAppended(s, e, 0) == s.file
  {
  }

  /** On a clean state the effect of an event that leaves no bytes behind is exactly its outcome. */
  lemma CleanStep(s: LogState, ev: Event, s': LogState)
    requires Clean(s) && Step(s, ev, s') && !Litters(ev)
    ensures Clean(s')
    ensures Log(s') == Outcome(Log(s), ev)
  {
    hide EncodeFrom, OffsetsFrom, Parse, Represents, Cut, Kept, PartlyAppended, Extended, Encode, Offsets, Recover;
    StepKeepsLog(s, ev, s');
    if s.isOpen {
      LogOfRepresented(s, Log(s));
      RepresentedIsEncodable(s, Log(s));
      RecoverEncoded(Log(s));
    }
    match ev {
      case Opened =>
        ReopenedIsExact(s.file);
      case CrashedInOpen(cut) =>
        ReopenedIsExact(s.file);
      case Appended(e) =>
        CompletedAppend(s, e);
      case CrashedInAppend(e, m) =>
        InterruptedAppend(s, e, m);
      case Truncated(index) =>
        CompletedTruncate(s, index, s');
        CutLog(s, index);
      case CrashedInTruncate(index, cut) =>
        CutLog(s, index);
      case AppendFailed(e, m) =>
        NothingWritten(s, e);
      case _ =>
    }
  }

  // ---------------------------------------------------------------------------
  //  Whole runs
  // ---------------------------------------------------------------------------

  lemma RunPrefix(states: seq<LogState>, events: seq<Event>)
    requires Run(states, events) && events != []
    ensures Run(states[..|events|], events[..|events| - 1])
    ensures states[..|events|][|events| - 1] == states[|events| - 1]
  {
    hide Step;
    var n := |events| - 1;
    forall i | 0 <= i < n
      ensures Step(states[..n + 1][i], events[..n][i], states[..n + 1][i + 1])
    {
      assert Step(states[i], events[i], states[i + 1]);
    }
  }

  /**
   * Crash safety.  After any run in which no append failed half-way, with crashes and other
   * failures anywhere, the next open finds exactly what the events say: every committed entry,
   * the one in flight if its whole frame was written, and never anything else.
   */
  lemma {:induction false} CrashSafety(states: seq<LogState>, events: seq<Event>)
    requires Run(states, events) && Clean(states[0])
    requires forall ev <- events :: !Litters(ev)
    ensures Clean(states[|events|])
    ensures Log(states[|events|]) == Outcomes(Log(states[0]), events)
    ensures Recover(states[|events|].file) == Outcomes(Log(states[0]), events)
    decreases |events|
  {
    hide Step, Represents, Recover, Encode, Outcome;
    if events != [] {
      var n := |events| - 1;
      RunPrefix(states, events);
      assert forall ev <- events[..n] :: ev in events;
      CrashSafety(states[..n + 1], events[..n]);
      assert events[n] in events;
      CleanStep(states[n], events[n], states[n + 1]);
    }
    CleanLogIsRecovered(states[|events|]);
  }

  lemma CleanLogIsRecovered(s: LogState)
    requires Clean(s)
    ensures Recover(s.file) == Log(s)
  {
    hide EncodeFrom, OffsetsFrom, Parse, Decode;
    if s.isOpen {
      RecoverEncoded(Log(s));
    }
  }

  /** How many of the first `n` entries no truncation of the run reaches. */
  function Untouched(n: nat, events: seq<Event>): (m: nat)
    ensures m <= n
    decreases |events|
  {
    if events == [] then n
    else
      var m := Untouched(n, events[..|events| - 1]);
      match events[|events| - 1]
      case Truncated(index) => if index == 0 then 0 else if index <= m then index - 1 else m
      case CrashedInTruncate(index, cut) =>
        if !cut then m else if index == 0 then 0 else if index <= m then index - 1 else m
      case _ => m
  }

  /**
   * Durability.  In any run at all, with crashes and reported failures anywhere, the entries
   * that no truncation reaches stay in the log, at their index and unchanged.
   */
  lemma {:induction false} NothingIsLost(states: seq<LogState>, events: seq<Event>, n: nat)
    requires Run(states, events) && Sound(states[0])
    requires n <= |Log(states[0])|
    ensures Sound(states[|events|])
    ensures Log(states[0])[..Untouched(n, events)] <= Log(states[|events|])
    ensures Log(states[0])[..Untouched(n, events)] <= Recover(states[|events|].file)
    decreases |events|
  {
    hide Step, Represents, Recover, Encode, Log;
    if events != [] {
      var last := |events| - 1;
      RunPrefix(states, events);
      NothingIsLost(states[..last + 1], events[..last], n);
      StepKeepsLog(states[last], events[last], states[last + 1]);
    }
    LogIsOnDisk(states[|events|]);
  }

  lemma LogIsOnDisk(s: LogState)
    requires Sound(s)
    ensures Log(s) <= Recover(s.file)
  {
    hide Represents, Recover;
    if s.isOpen {
      LogOfRepresented(s, Log(s));
    }
  }

  // ---------------------------------------------------------------------------
  //  Acknowledged entries
  // ---------------------------------------------------------------------------

  lemma RunSlice(states: seq<LogState>, events: seq<Event>, i: nat)
    requires Run(states, events) && i <= |events|
    ensures Run(states[..i + 1], events[..i])
    ensures Run(states[i..], events[i..])
  {
    hide Step;
    forall j | 0 <= j < i
      ensures Step(states[..i + 1][j], events[..i][j], states[..i + 1][j + 1])
    {
      assert Step(states[j], events[j], states[j + 1]);
    }
    forall j | 0 <= j < |events| - i
      ensures Step(states[i..][j], events[i..][j], states[i..][j + 1])
    {
      assert Step(states[i + j], events[i + j], states[i + j + 1]);
    }
  }

  /**
   * Once append has returned, its entry is found at its index by every later open, whatever
   * failed or crashed in between, until a truncation reaches it.
   */
  lemma AcknowledgedEntryStays(states: seq<LogState>, events: seq<Event>, i: nat, e: Entry)
    requires Run(states, events) && Sound(states[0])
    requires i < |events| && events[i] == Appended(e)
    requires Untouched(|Log(states[i])| + 1, events[i + 1..]) == |Log(states[i])| + 1
    ensures var k, found := |Log(states[i])|, Recover(states[|events|].file);
      k < |found| && found[k] == e
  {
    hide Step, Represents, Recover, Encode, Log;
    RunSlice(states, events, i);
    NothingIsLost(states[..i + 1], events[..i], 0);
    StepKeepsLog(states[i], events[i], states[i + 1]);
    RunSlice(states, events, i + 1);
    var k := |Log(states[i])|;
    NothingIsLost(states[i + 1..], events[i + 1..], k + 1);
    assert Log(states[i + 1])[..k + 1][k] == e;
  }
}
