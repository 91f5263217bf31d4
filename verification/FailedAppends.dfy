/**
 * Appends that report a failure.  Memory is untouched, but bytes may lie behind the log: litter.
 * How much of it there is decides whether the next open finds the log and nothing else.
 */
module FailedAppends {
  import opened Bytes
  import opened Common
  import opened CrashRuns
  import opened Crc
  import opened Files
  import opened Frames
  import opened LogSteps
  import opened Recovery

  const MIN_FRAME := 28   // the size of a frame with an empty payload

  /** The bytes behind the log that memory stands for. */
  function Behind(s: LogState): seq<byte> {
    if s.writeOffset <= |s.file| then s.file[s.writeOffset..] else []
  }

  /**
   * An append that reports a failure leaves memory alone.  It is invisible to the next open
   * exactly when the bytes behind the log do not start with a valid next frame; behind a
   * clean log, exactly when its own frame was not written in full.
   */
  lemma FailedAppendIsInvisibleIff(s: LogState, e: Entry, m: nat, s': LogState)
    requires Sound(s) && s.isOpen && Step(s, AppendFailed(e, m), s')
    ensures Log(s') == Log(s)
    ensures Recover(s'.file) == Log(s) <==> Decode(Behind(s'), |Log(s)| + 1) == None
    ensures Clean(s) ==> (Recover(s'.file) == Log(s) <==> m < e.FrameSize())
  {
    hide EncodeFrom, OffsetsFrom, Parse, Represents, PartlyAppended, Recover, Encode, Decode;
    InterruptedAppend(s, e, m);
    RepresentedFits(s', Log(s));
    LogOfRepresented(s', Log(s));
  }

  /** The log that a reported failure left open is on disk alone exactly when nothing decodes behind it. */
  lemma NextOpenIsExactIff(s: LogState)
    requires Sound(s) && s.isOpen
    ensures Recover(s.file) == Log(s) <==> Decode(Behind(s), |Log(s)| + 1) == None
  {
    hide EncodeFrom, OffsetsFrom, Parse, Represents, Recover, Encode, Decode;
    RepresentedFits(s, Log(s));
    LogOfRepresented(s, Log(s));
  }

  lemma RepresentedFits(s: LogState, es: seq<Entry>)
    requires Represents(s, es)
    ensures s.writeOffset <= |s.file|
  {
  }

  // ---------------------------------------------------------------------------
  //  Litter
  // ---------------------------------------------------------------------------

  /** How many bytes lie behind the log of an open state. */
  function LitterOf(s: LogState): int {
    if s.isOpen then |s.file| - s.writeOffset else 0
  }

  /** The litter after an event, from the litter and the length of the log before it. */
  function LitterAfter(litter: int, n: nat, ev: Event): int {
    match ev
    case Appended(e) => if litter > e.FrameSize() then litter - e.FrameSize() else 0
    case AppendFailed(_, m) => if m > litter then m else litter
    case Truncated(index) => if index <= n then 0 else litter
    case TruncateFailed(_) => litter
    case _ => 0
  }

  /** A state is clean exactly when there is no litter. */
  lemma CleanIffNoLitter(s: LogState)
    requires Sound(s)
    ensures LitterOf(s) >= 0
    ensures Clean(s) <==> LitterOf(s) == 0
  {
    hide Log, Encode, Offsets, Encodable;
    if s.isOpen {
      assert s.file[..s.writeOffset] == Encode(Log(s));
      assert s.file[..|s.file|] == s.file;
    }
  }

  lemma AppendedLitter(s: LogState, es: seq<Entry>, e: Entry, m: nat)
    requires Represents(s, es) && m <= e.FrameSize()
    ensures s.writeOffset <= |s.file|
    ensures |PartlyAppended(s, e, m)| == if s.writeOffset + m > |s.file| then s.writeOffset + m else |s.file|
    ensures PartlyAppended(s, e, m)[..s.writeOffset] == s.file[..s.writeOffset]
    ensures PartlyAppended(s, e, m)[s.writeOffset..s.writeOffset + m] == Frame(s.lastIndex + 1, e)[..m]
  {
    hide Frame, Encode, Offsets, Encodable;
    SplicedInside(s.file, s.writeOffset, Frame(s.lastIndex + 1, e)[..m]);
  }

  lemma CutLitter(s: LogState, es: seq<Entry>, index: nat)
    requires Represents(s, es)
    ensures |Cut(s, index)| - |Encode(Kept(es, index))| == if index <= |es| then 0 else |s.file| - s.writeOffset
  {
    hide EncodeFrom, OffsetsFrom, Frame, Holds;
    CutHolds(s, es, index);
    RepresentedFits(s, es);
    OffsetsCount(s, es);
  }

  lemma OffsetsCount(s: LogState, es: seq<Entry>)
    requires Represents(s, es)
    ensures |s.offsets| == |es|
  {
    hide EncodeFrom;
  }

  /** Every step changes the litter as told. */
  lemma LitterStep(s: LogState, ev: Event, s': LogState)
    requires Sound(s) && Step(s, ev, s')
    ensures LitterOf(s') == LitterAfter(LitterOf(s), |Log(s)|, ev)
  {
    hide Represents, Log, Cut, Kept, PartlyAppended, Encode, Offsets, Recover, Holds;
    match ev {
      case Appended(e) => AppendedLitter(s, Log(s), e, e.FrameSize());
      case AppendFailed(e, m) =>
        if s.isOpen {
          AppendedLitter(s, Log(s), e, m);
        } else {
          NothingWritten(s, e);
        }
      case Truncated(index) =>
        CompletedTruncate(s, index, s');
        CutLitter(s, Log(s), index);
        RepresentedLength(s', Kept(Log(s), index));
      case _ => ReopenedLength(s.file);
    }
  }

  lemma RepresentedLength(s: LogState, es: seq<Entry>)
    requires Represents(s, es)
    ensures s.isOpen && s.writeOffset == |Encode(es)|
  {
  }

  lemma ReopenedLength(file: seq<byte>)
    ensures LitterOf(Reopened(file)) == 0
  {
  }

  // ---------------------------------------------------------------------------
  //  Litter that does no harm
  // ---------------------------------------------------------------------------

  /** The event has its plain outcome in spite of the litter: what it lays bare is too short for a frame. */
  predicate Quiet(litter: int, n: nat, ev: Event) {
    match ev
    case Appended(_) => true
    case AppendFailed(_, _) => true
    case Truncated(_) => true
    case TruncateFailed(_) => true
    case CrashedInAppend(e, m) =>
      if m < e.FrameSize() then litter <= m || litter < MIN_FRAME else litter < e.FrameSize() + MIN_FRAME
    case CrashedInTruncate(index, cut) => (cut && index <= n) || litter < MIN_FRAME
    case _ => litter < MIN_FRAME
  }

  lemma ShortHoldsNoFrame(s: seq<byte>, index: nat)
    requires |s| < MIN_FRAME
    ensures Decode(s, index) == None
  {
  }

  /** Less litter than the shortest frame: the next open finds the log and nothing else. */
  lemma LittleLitter(s: LogState, es: seq<Entry>)
    requires Represents(s, es) && LitterOf(s) < MIN_FRAME
    ensures Recover(s.file) == es
  {
    hide Represents, Recover, Encode, Decode, Offsets;
    RepresentedFits(s, es);
    RepresentedIndex(s, es);
    LogOfRepresented(s, es);
    ShortHoldsNoFrame(s.file[s.writeOffset..], |es| + 1);
  }

  /** A crash during an append: the frame or nothing, if the litter does not reach too far behind it. */
  lemma CrashedAppend(s: LogState, e: Entry, m: nat)
    requires Sound(s) && s.isOpen && e.Encodable() && m <= e.FrameSize()
    requires Quiet(LitterOf(s), |Log(s)|, CrashedInAppend(e, m))
    ensures Recover(PartlyAppended(s, e, m)) == if m < e.FrameSize() then Log(s) else Log(s) + [e]
  {
    hide Represents, Recover, Log, Encode, Decode, Offsets, Frame, PartlyAppended;
    var es := Log(s);
    var now := s.(file := PartlyAppended(s, e, m));
    AppendedLitter(s, es, e, m);
    if m == e.FrameSize() {
      CompletedAppend(s, e);
      LittleLitter(Extended(s, e), es + [e]);
    } else {
      InterruptedAppend(s, e, m);
      if LitterOf(s) <= m {
        LogOfRepresented(now, es);
        RepresentedIndex(s, es);
        IndexFits(s, es);
        assert now.file[s.writeOffset..] == Frame(|es| + 1, e)[..m];
        TornFrameRejected(|es| + 1, e, m, |es| + 1);
      } else {
        LittleLitter(now, es);
      }
    }
  }

  lemma RepresentedIndex(s: LogState, es: seq<Entry>)
    requires Represents(s, es)
    ensures s.isOpen && s.lastIndex == |es|
  {
  }

  /** A quiet event has exactly its outcome, whatever litter there is. */
  lemma QuietStep(s: LogState, ev: Event, s': LogState)
    requires Sound(s) && Step(s, ev, s') && Quiet(LitterOf(s), |Log(s)|, ev)
    ensures Sound(s')
    ensures Log(s') == Outcome(Log(s), ev)
  {
    hide Represents, Cut, Kept, PartlyAppended, Extended, Encode, Offsets, Recover;
    StepKeepsLog(s, ev, s');
    if s.isOpen && LitterOf(s) < MIN_FRAME {
      LittleLitter(s, Log(s));
    }
    match ev {
      case Opened => ReopenedIsExact(s.file);
      case CrashedInOpen(cut) => ReopenedIsExact(s.file);
      case CrashedInAppend(e, m) => CrashedAppend(s, e, m);
      case CrashedInTruncate(index, cut) =>
        if cut {
          CutExactly(s, Log(s), index);
        }
      case _ =>
    }
  }

  lemma CutExactly(s: LogState, es: seq<Entry>, index: nat)
    requires Represents(s, es)
    ensures index <= |es| ==> Recover(Cut(s, index)) == Kept(es, index)
    ensures index > |es| ==> Cut(s, index) == s.file && Kept(es, index) == es
  {
    hide EncodeFrom, Recover, Represents;
    CutHolds(s, es, index);
    OffsetsCount(s, es);
    if index <= |es| {
      RecoverEncoded(Kept(es, index));
    }
  }

  // ---- Runs

  /** The litter after a run, told by its events and the log it started from. */
  function Litter(es: seq<Entry>, events: seq<Event>): (litter: int)
    ensures litter >= 0
    decreases |events|
  {
    if events == [] then 0
    else
      var before := events[..|events| - 1];
      LitterAfter(Litter(es, before), |Outcomes(es, before)|, events[|events| - 1])
  }

  predicate QuietRun(es: seq<Entry>, events: seq<Event>)
    decreases |events|
  {
    if events == [] then true
    else
      var before := events[..|events| - 1];
      QuietRun(es, before) && Quiet(Litter(es, before), |Outcomes(es, before)|, events[|events| - 1])
  }

  /**
   * Crash safety in spite of failed appends.  In any run at all, if no open and no crash meets
   * litter that could hold a frame, every event has exactly its outcome, failed appends none;
   * the litter is what the events say, and while it is short the next open finds exactly the log.
   */
  lemma {:induction false} LitteredCrashSafety(states: seq<LogState>, events: seq<Event>)
    requires Run(states, events) && Clean(states[0])
    requires QuietRun(Log(states[0]), events)
    ensures Sound(states[|events|])
    ensures Log(states[|events|]) == Outcomes(Log(states[0]), events)
    ensures LitterOf(states[|events|]) == Litter(Log(states[0]), events)
    ensures Litter(Log(states[0]), events) == 0 <==> Clean(states[|events|])
    ensures Litter(Log(states[0]), events) < MIN_FRAME ==> Recover(states[|events|].file) == Outcomes(Log(states[0]), events)
    decreases |events|
  {
    hide Step, Represents, Recover, Encode, Outcome, Log, LitterOf, LitterAfter, Quiet, Clean, Sound;
    CleanIsSound(states[0]);
    if events != [] {
      var n := |events| - 1;
      RunPrefix(states, events);
      LitteredCrashSafety(states[..n + 1], events[..n]);
      LitterStep(states[n], events[n], states[n + 1]);
      QuietStep(states[n], events[n], states[n + 1]);
    }
    CleanIffNoLitter(states[|events|]);
    if LitterOf(states[|events|]) < MIN_FRAME {
      LittleLitterRecovered(states[|events|]);
    }
  }

  lemma CleanIsSound(s: LogState)
    requires Clean(s)
    ensures Sound(s)
  {
  }

  lemma LittleLitterRecovered(s: LogState)
    requires Sound(s) && LitterOf(s) < MIN_FRAME
    ensures Recover(s.file) == Log(s)
  {
    hide Represents, Recover;
    if s.isOpen {
      LittleLitter(s, Log(s));
    }
  }

  /** A run that ends with this much litter, told as litter alone. */
  ghost predicate EndsLittered(states: seq<LogState>, events: seq<Event>, litter: nat) {
    && |states| == |events| + 1
    && Run(states, events) && Clean(states[0]) && QuietRun(Log(states[0]), events)
    && Litter(Log(states[0]), events) == litter
  }

  /**
   * That much litter is harmless, whatever was in the failed payloads, exactly when it is
   * shorter than the shortest frame.  (No failed append leaves more than the longest frame.)
   */
  lemma LitterIsHarmlessIff(litter: nat)
    requires litter < TWO_32 + 4
    ensures (forall states: seq<LogState>, events: seq<Event> :: EndsLittered(states, events, litter) ==>
              Recover(states[|events|].file) == Outcomes(Log(states[0]), events))
      <==> litter < MIN_FRAME
  {
    hide Recover, Outcomes, Log, Litter, QuietRun, Run, Clean;
    if litter < MIN_FRAME {
      forall states: seq<LogState>, events: seq<Event> | EndsLittered(states, events, litter)
        ensures Recover(states[|events|].file) == Outcomes(Log(states[0]), events)
      {
        LitteredCrashSafety(states, events);
      }
    } else {
      var states, events := HarmfulLitter(litter);
    }
  }

  /** For every length from the shortest frame on: an append that failed after its last byte. */
  lemma HarmfulLitter(litter: nat) returns (states: seq<LogState>, events: seq<Event>)
    requires MIN_FRAME <= litter < TWO_32 + 4
    ensures EndsLittered(states, events, litter)
    ensures Recover(states[|events|].file) != Outcomes(Log(states[0]), events)
  {
    hide Frame, Encodable, Parse, EncodeFrom, OffsetsFrom, Represents, Decode;
    var e := Entry(0, Zeros(litter - MIN_FRAME));
    var s0, s1 := LogState([], false, [], 0, 0, 0), Reopened([]);
    EmptyFileHoldsNothing();
    var s2 := s1.(file := Frame(1, e));
    states, events := [s0, s1, s2], [Opened, AppendFailed(e, litter)];
    assert Frame(1, e)[..litter] == Frame(1, e);
    assert Step(s0, Opened, s1);
    assert Step(s1, AppendFailed(e, litter), s2);
    assert Run(states, events);
    assert events[..1] == [Opened] && [Opened][..0] == [];
    assert Litter([], []) == 0 && QuietRun([], []) && Outcomes([], []) == [];
    assert Litter([], [Opened]) == 0 && QuietRun([], [Opened]) && Outcomes([], [Opened]) == [];
    OneFrameRecovered(e);
  }

  lemma OneFrameRecovered(e: Entry)
    requires e.Encodable()
    ensures Recover(Frame(1, e)) == [e]
  {
    hide Frame, Decode;
    ParseFrame(0, e, []);
    assert Frame(1, e) + [] == Frame(1, e);
    ShortHoldsNoFrame([], 2);
    NothingParsedIff([], 1);
  }

  // ---------------------------------------------------------------------------
  //  What the caller can know
  // ---------------------------------------------------------------------------

  // A failed append does not report how much of its frame was written.  More never helps, so
  // the whole frame is the worst case, and what holds for the worst case holds.

  /** The same calls with the same statuses; where an append failed, no more was written. */
  predicate NoMoreWritten(a: Event, b: Event) {
    if a.AppendFailed? && b.AppendFailed? then a.e == b.e && a.m <= b.m else a == b
  }

  ghost predicate NoMoreLitter(events: seq<Event>, events': seq<Event>) {
    |events| == |events'| && forall i :: 0 <= i < |events| ==> NoMoreWritten(events[i], events'[i])
  }

  lemma EventMonotone(litter: int, litter': int, n: nat, ev: Event, ev': Event)
    requires litter <= litter' && NoMoreWritten(ev, ev')
    ensures LitterAfter(litter, n, ev) <= LitterAfter(litter', n, ev')
    ensures Quiet(litter', n, ev') ==> Quiet(litter, n, ev)
  {
  }

  /** Writing less leaves less behind, and a run that is quiet stays so. */
  lemma {:induction false} LitterIsMonotone(es: seq<Entry>, events: seq<Event>, events': seq<Event>)
    requires NoMoreLitter(events, events')
    ensures Outcomes(es, events) == Outcomes(es, events')
    ensures Litter(es, events) <= Litter(es, events')
    ensures QuietRun(es, events') ==> QuietRun(es, events)
    decreases |events|
  {
    hide LitterAfter, Quiet;
    if events != [] {
      var n := |events| - 1;
      LitterIsMonotone(es, events[..n], events'[..n]);
      assert NoMoreWritten(events[n], events'[n]);
      EventMonotone(Litter(es, events[..n]), Litter(es, events'[..n]), |Outcomes(es, events[..n])|, events[n], events'[n]);
    }
  }

  /** Whether the log is open after a run. */
  predicate OpenAfter(open: bool, events: seq<Event>)
    decreases |events|
  {
    if events == [] then open
    else
      match events[|events| - 1]
      case Opened => true
      case Appended(_) => OpenAfter(open, events[..|events| - 1])
      case AppendFailed(_, _) => OpenAfter(open, events[..|events| - 1])
      case Truncated(_) => OpenAfter(open, events[..|events| - 1])
      case TruncateFailed(_) => OpenAfter(open, events[..|events| - 1])
      case _ => false
  }

  /** The run with every failed append's frame written in full, if the log was open. */
  function WorstCase(open: bool, events: seq<Event>): (worst: seq<Event>)
    ensures |worst| == |events|
    decreases |events|
  {
    if events == [] then []
    else
      var n := |events| - 1;
      var last := match events[n]
        case AppendFailed(e, _) => AppendFailed(e, if OpenAfter(open, events[..n]) then e.FrameSize() else 0)
        case ev => ev;
      WorstCase(open, events[..n]) + [last]
  }

  lemma StepOpens(s: LogState, ev: Event, s': LogState)
    requires Step(s, ev, s')
    ensures match ev
      case Opened => s'.isOpen
      case Appended(_) => s.isOpen && s'.isOpen
      case AppendFailed(e, m) => s'.isOpen == s.isOpen && m <= if s.isOpen then e.FrameSize() else 0
      case Truncated(_) => s.isOpen && s'.isOpen
      case TruncateFailed(_) => s' == s
      case _ => !s'.isOpen
  {
    hide PartlyAppended, Cut, Kept, Encode, Offsets, Encodable, Recover, Parse, EncodeFrom, OffsetsFrom;
  }

  lemma {:induction false} WorstIsWorst(states: seq<LogState>, events: seq<Event>)
    requires Run(states, events)
    ensures NoMoreLitter(events, WorstCase(states[0].isOpen, events))
    ensures OpenAfter(states[0].isOpen, events) == states[|events|].isOpen
    decreases |events|
  {
    hide Step;
    if events != [] {
      var n := |events| - 1;
      RunPrefix(states, events);
      WorstIsWorst(states[..n + 1], events[..n]);
      StepOpens(states[n], events[n], states[n + 1]);
    }
  }

  /**
   * Crash safety from what callers see.  If the run would be quiet with every failed append's
   * frame written in full, then however much of them was written every event has exactly its
   * outcome, and the next open is exact whenever the worst case leaves less than a frame.
   */
  lemma CrashSafetyInWorstCase(states: seq<LogState>, events: seq<Event>)
    requires Run(states, events) && Clean(states[0])
    requires QuietRun(Log(states[0]), WorstCase(states[0].isOpen, events))
    ensures Log(states[|events|]) == Outcomes(Log(states[0]), events)
    ensures LitterOf(states[|events|]) <= Litter(Log(states[0]), WorstCase(states[0].isOpen, events))
    ensures Litter(Log(states[0]), WorstCase(states[0].isOpen, events)) < MIN_FRAME ==>
      Recover(states[|events|].file) == Outcomes(Log(states[0]), events)
  {
    hide Step, Log, LitterOf, Litter, QuietRun, Recover, Outcomes, Clean, WorstCase, NoMoreLitter;
    WorstIsWorst(states, events);
    LitterIsMonotone(Log(states[0]), events, WorstCase(states[0].isOpen, events));
    LitteredCrashSafety(states, events);
  }

  /** However much the failed appends may have written, the run is quiet: exactly if the worst case is. */
  lemma QuietInWorstCaseIff(es: seq<Entry>, open: bool, events: seq<Event>)
    ensures (forall guess :: NoMoreLitter(guess, WorstCase(open, events)) ==> QuietRun(es, guess))
      <==> QuietRun(es, WorstCase(open, events))
  {
    hide QuietRun, WorstCase;
    var worst := WorstCase(open, events);
    assert NoMoreLitter(worst, worst);
    forall guess | NoMoreLitter(guess, worst) && QuietRun(es, worst)
      ensures QuietRun(es, guess)
    {
      LitterIsMonotone(es, guess, worst);
    }
  }

  function Appends(later: seq<Entry>): (events: seq<Event>)
    ensures |events| == |later|
  {
    seq(|later|, i requires 0 <= i < |later| => Appended(later[i]))
  }

  function FrameBytes(es: seq<Entry>): nat
    decreases |es|
  {
    if es == [] then 0 else FrameBytes(es[..|es| - 1]) + es[|es| - 1].FrameSize()
  }

  lemma OneMoreEvent(es: seq<Entry>, events: seq<Event>, ev: Event)
    ensures var now := events + [ev];
      && Litter(es, now) == LitterAfter(Litter(es, events), |Outcomes(es, events)|, ev)
      && (QuietRun(es, now) <==> QuietRun(es, events) && Quiet(Litter(es, events), |Outcomes(es, events)|, ev))
  {
    hide LitterAfter, Quiet;
    assert (events + [ev])[..|events|] == events;
  }

  /**
   * Appends that succeed later are quiet, and each covers as many bytes as its frame has: an
   * open is exact again once their frames outgrow the litter but for less than one frame.
   */
  lemma {:induction false} LaterFramesCover(es: seq<Entry>, events: seq<Event>, later: seq<Entry>)
    ensures var left, now := Litter(es, events), events + Appends(later);
      && Litter(es, now) == (if left > FrameBytes(later) then left - FrameBytes(later) else 0)
      && (QuietRun(es, now) <==> QuietRun(es, events))
      && (QuietRun(es, now + [Opened]) <==> QuietRun(es, events) && left < FrameBytes(later) + MIN_FRAME)
    decreases |later|
  {
    hide Litter, QuietRun, Outcomes, Entry.FrameSize;
    if later == [] {
      assert events + Appends(later) == events;
    } else {
      var n := |later| - 1;
      var before := events + Appends(later[..n]);
      LaterFramesCover(es, events, later[..n]);
      OneMoreEvent(es, before, Appended(later[n]));
      assert Appends(later) == Appends(later[..n]) + [Appended(later[n])];
      assert events + Appends(later) == before + [Appended(later[n])];
    }
    OneMoreEvent(es, events + Appends(later), Opened);
  }

  lemma WorstOfAppend(open: bool, events: seq<Event>, e: Entry)
    ensures WorstCase(open, events + [Appended(e)]) == WorstCase(open, events) + [Appended(e)]
  {
    assert (events + [Appended(e)])[..|events|] == events;
  }

  /** Successful appends are their own worst case. */
  lemma {:induction false} WorstOfAppends(open: bool, events: seq<Event>, later: seq<Entry>)
    ensures WorstCase(open, events + Appends(later)) == WorstCase(open, events) + Appends(later)
    decreases |later|
  {
    hide WorstCase;
    if later == [] {
      assert events + Appends(later) == events;
    } else {
      var n := |later| - 1;
      WorstOfAppends(open, events, later[..n]);
      WorstOfAppend(open, events + Appends(later[..n]), later[n]);
      assert Appends(later) == Appends(later[..n]) + [Appended(later[n])];
      assert events + Appends(later) == (events + Appends(later[..n])) + [Appended(later[n])];
    }
  }

  // ---------------------------------------------------------------------------
  //  Litter that comes back
  // ---------------------------------------------------------------------------

  // A failed append followed by a shorter successful one: the first frame's rest stays behind
  // the second frame.  If the first payload carries a frame of its own at the right place,
  // the next open takes it for an entry, though no append was ever called for it.

  /** A payload whose tail is a frame with index 2, placed where a shorter first frame would end. */
  function Carrier(e3: Entry): Entry {
    Entry(0, Zeros(4) + Frame(2, e3))
  }

  lemma CarrierFrame(e2: Entry, e3: Entry, m: nat) returns (rest: seq<byte>)
    requires e2.payload == []
    requires Carrier(e3).FrameSize() - 4 <= m <= Carrier(e3).FrameSize()
    ensures |rest| <= 4
    ensures Spliced(Frame(1, Carrier(e3))[..m], 0, Frame(1, e2)) == Frame(1, e2) + (Frame(2, e3) + rest)
  {
    hide Checksum, StoreWord, LittleEndian;
    var f1, f3 := Frame(1, Carrier(e3)), Frame(2, e3);
    var checksum := StoreWord(Checksum(Covered(1, Carrier(e3))));
    assert f1[28..] == f3 + checksum;
    rest := checksum[..m - (Carrier(e3).FrameSize() - 4)];
    assert f1[..m][28..] == f3 + rest;
  }

  /**
   * The failed append need not have been complete, and a later one may have succeeded: its
   * litter outlives the acknowledged entry and comes back behind it.
   */
  lemma StaleTailResurfaces(e2: Entry, e3: Entry, m: nat) returns (states: seq<LogState>)
    requires e2.Encodable() && e3.Encodable() && Carrier(e3).Encodable()
    requires e2.payload == []
    requires Carrier(e3).FrameSize() - 4 <= m <= Carrier(e3).FrameSize()
    ensures var failed := AppendFailed(Carrier(e3), m);
      && Run(states, [Opened, failed, Appended(e2), Crashed, Opened])
      && states[0].file == []
      && Log(states[5]) == [e2, e3]
  {
    hide Frame, Carrier, Encodable, Parse, EncodeFrom, OffsetsFrom, Recover;
    var e1 := Carrier(e3);
    var s0 := LogState([], false, [], 0, 0, 0);
    var s1 := Reopened([]);
    EmptyFileHoldsNothing();
    var s2 := s1.(file := Frame(1, e1)[..m]);
    var s3 := Extended(s2, e2);
    var s4 := s3.(isOpen := false);
    var s5 := Reopened(s3.file);
    states := [s0, s1, s2, s3, s4, s5];
    var rest := CarrierFrame(e2, e3, m);
    assert Frame(1, e2)[..e2.FrameSize()] == Frame(1, e2);
    assert s3.file == Frame(1, e2) + (Frame(2, e3) + rest);
    ResurfacedLog(e2, e3, rest);
    ReopenedIsExact(s3.file);
    assert Step(s0, Opened, s1);
    assert Step(s1, AppendFailed(e1, m), s2);
    assert Step(s2, Appended(e2), s3);
    assert Step(s3, Crashed, s4);
    assert Step(s4, Opened, s5);
  }

  lemma EmptyFileHoldsNothing()
    ensures Recover([]) == []
    ensures Reopened([]) == LogState([], true, [], 0, 0, 0)
  {
    assert Recover([]) == [];
    assert Encode([]) == [];
  }

  lemma ResurfacedLog(e2: Entry, e3: Entry, rest: seq<byte>)
    requires e2.Encodable() && e3.Encodable() && |rest| <= 4
    ensures Recover(Frame(1, e2) + (Frame(2, e3) + rest)) == [e2, e3]
  {
    hide Frame, Decode;
    ParseFrame(0, e2, Frame(2, e3) + rest);
    ParseFrame(1, e3, rest);
    ShortHoldsNoFrame(rest, 3);
    assert Parse(rest, 2) == [];
  }
}
