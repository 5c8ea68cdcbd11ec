/** The bitcoind output tab: the handler that reads each line bitcoind prints,
    picks the status shown in the system tray, raises the "synced" event or
    a critical alert, and tracks block-download progress to estimate the
    time left. */
module OutputTab {
  import opened Wrappers
  import opened Text
  import opened FixedPoint
  import opened Window

  // ---------------------------------------------------------------------
  // What a line does to the outside world

  /** The branch of the if/elif chain a line takes. */
  datatype Branch = CoreVersion | LeavingIbd | ShutdownDone | UpdateTip | AlreadyRunning | Unmatched

  /** The texts the tray's status entry is set to. `Percent` and `Eta` carry
      progress in ten-thousandths; `Eta` also carries the window's sum and
      length, whose quotient is the average time left in seconds. */
  datatype Status =
    | Starting
    | Synced
    | CheckOutput
    | AlreadyRunningText
    | Percent(progress: int)
    | Eta(windowSum: int, windowLength: nat, progress: int)

  datatype Effect =
    | SetStatus(status: Status)
    | EmitSynced
    | ShowCritical(title: string, message: string)

  /** The exception that escapes the handler: the `ValueError` of `float(...)`
      on the progress text or of `strptime` on the line's first segment, or the
      `OverflowError` of a time-left estimate too long for a `timedelta`. */
  datatype Failure = BadProgress(text: string) | BadTimestamp(text: string) | DurationOverflow

  datatype Outcome = Outcome(branch: Branch, effects: seq<Effect>, failure: Option<Failure>)

  /** The status entry's text. The phrase `humanize.naturaltime` produces for
      the average time left is not modelled and is given as `humanized`. */
  function StatusText(s: Status, humanized: string): string
  {
    match s
    case Starting => "Bitcoin starting"
    case Synced => "Bitcoin synced"
    case CheckOutput => "Error: please check Bitcoin Output"
    case AlreadyRunningText => "Error: Bitcoin Core is already running"
    case Percent(p) => FormatPercent(p) + "%"
    case Eta(_, _, p) => "ETA: " + humanized + ", " + FormatPercent(p) + "% done"
  }

  // ---------------------------------------------------------------------
  // The classifier

  const CoreVersionMarker := "Bitcoin Core version"
  const LeavingIbdMarker := "Leaving InitialBlockDownload"
  const ShutdownMarker := "Shutdown: done"
  const UpdateTipMarker := "UpdateTip"
  const AlreadyRunningMarker := "Bitcoin Core is probably already running"
  const ProgressMarker := "progress"

  /** The markers in the order the chain tests them, with their branches. */
  const Markers: seq<string> :=
    [CoreVersionMarker, LeavingIbdMarker, ShutdownMarker, UpdateTipMarker, AlreadyRunningMarker]
  const Branches: seq<Branch> := [CoreVersion, LeavingIbd, ShutdownDone, UpdateTip, AlreadyRunning]

  /** The if/elif chain of `process_output_line`. A line falls through every
      branch exactly when it contains none of the markers. */
  function Classify(line: string): (b: Branch)
    ensures b == Unmatched <==> forall k :: 0 <= k < |Markers| ==> !Contains(line, Markers[k])
  {
    assert Markers[0] == CoreVersionMarker && Markers[1] == LeavingIbdMarker && Markers[2] == ShutdownMarker;
    assert Markers[3] == UpdateTipMarker && Markers[4] == AlreadyRunningMarker;
    if Contains(line, CoreVersionMarker) then CoreVersion
    else if Contains(line, LeavingIbdMarker) then LeavingIbd
    else if Contains(line, ShutdownMarker) then ShutdownDone
    else if Contains(line, UpdateTipMarker) then UpdateTip
    else if Contains(line, AlreadyRunningMarker) then AlreadyRunning
    else Unmatched
  }

  /** Reference definition: the branch of the first marker, from index `from`
      on, that occurs in the line. */
  function FirstMatch(line: string, from: nat): Branch
    requires from <= |Markers|
    decreases |Markers| - from
  {
    if from == |Markers| then Unmatched
    else if Contains(line, Markers[from]) then Branches[from]
    else FirstMatch(line, from + 1)
  }

  // ---------------------------------------------------------------------
  // The progress tracker, on values

  /** `old_progress`, `old_timestamp` and `timestamp_changes`. */
  datatype TabState = TabState(oldProgress: Option<int>, oldTimestamp: Option<int>, window: seq<int>)

  const Initial := TabState(None, None, [])

  /** What holds of the three fields between calls: the two "old" fields are
      set together, and the window is bounded with entries in [0, 86400). */
  predicate Inv(st: TabState)
  {
    st.oldProgress.Some? == st.oldTimestamp.Some? &&
    |st.window| <= Capacity && InDayRange(st.window)
  }

  /** The state, effects so far and escaping exception after some segments. */
  datatype Run = Run(state: TabState, effects: seq<Effect>, failure: Option<Failure>)

  /** One iteration of the loop over the line's segments. `stamp` is the
      line's first segment and `parseStamp` stands for `strptime` with the
      format '%Y-%m-%dT%H:%M:%SZ' (seconds since an epoch, or None on
      `ValueError`). A segment sets the status text at most once and never
      signals or alerts; a segment that raises leaves the state as it was. */
  function SegmentStep(st: TabState, segment: string, stamp: string, parseStamp: string -> Option<int>): (r: Run)
    requires st.oldProgress.Some? ==> st.oldTimestamp.Some?
    ensures |r.effects| <= 1 && forall e :: e in r.effects ==> e.SetStatus?
    ensures r.failure.Some? ==> r.state == st && r.effects == []
  {
    if !Contains(segment, ProgressMarker) then Run(st, [], None)
    else
      var text := LastField(segment, '=');
      match ParseProgress(text)
      case None => Run(st, [], Some(BadProgress(text)))
      case Some(newProgress) =>
        match parseStamp(stamp)
        case None => Run(st, [], Some(BadTimestamp(stamp)))
        case Some(newTimestamp) => Sample(st, newProgress, newTimestamp)
  }

  /** A progress sample that parsed: a repeat of the current value is
      ignored, the first sample is shown as a percentage unless it rounds to
      100%, and any later one adds a time-left estimate to the window. It
      raises only when a later sample's estimate does not fit a `timedelta`,
      and then changes nothing; otherwise it sets the status text (once)
      exactly when it records the sample. */
  function Sample(st: TabState, newProgress: int, newTimestamp: int): (r: Run)
    requires st.oldProgress.Some? ==> st.oldTimestamp.Some?
    ensures |r.effects| <= 1 && forall e :: e in r.effects ==> e.SetStatus?
    ensures r.failure.Some? <==>
      st.oldProgress.Some? && st.oldProgress != Some(newProgress) &&
      !FitsTimedelta(DurationLeft(newProgress, st.oldProgress.value, newTimestamp - st.oldTimestamp.value))
    ensures r.failure.Some? ==> r.failure == Some(DurationOverflow) && r.state == st && r.effects == []
    ensures r.failure.None? ==> (r.effects == [] <==> r.state == st)
    ensures r.state != st ==> r.state.oldProgress == Some(newProgress) && r.state.oldTimestamp == Some(newTimestamp)
  {
    if st.oldProgress == Some(newProgress) then Run(st, [], None)
    else if st.oldProgress.Some? then
      var dt := newTimestamp - st.oldTimestamp.value;
      if !FitsTimedelta(DurationLeft(newProgress, st.oldProgress.value, dt)) then Run(st, [], Some(DurationOverflow))
      else
        var timeLeft := TimeLeft(newProgress, st.oldProgress.value, dt);
        var w := Push(st.window, timeLeft);
        Run(TabState(Some(newProgress), Some(newTimestamp), w), [SetStatus(Eta(Sum(w), |w|, newProgress))], None)
    else if RoundedPercent(newProgress) == 100 then Run(st, [], None)
    else Run(TabState(Some(newProgress), Some(newTimestamp), st.window), [SetStatus(Percent(newProgress))], None)
  }

  /** The loop over the segments, left to right; an exception ends it. */
  function RunSegments(st: TabState, segments: seq<string>, stamp: string, parseStamp: string -> Option<int>): (r: Run)
    requires Inv(st)
    ensures Inv(r.state)
    decreases |segments|
  {
    if |segments| == 0 then Run(st, [], None)
    else
      var before := RunSegments(st, segments[..|segments| - 1], stamp, parseStamp);
      if before.failure.Some? then before
      else
        var step := SegmentStep(before.state, segments[|segments| - 1], stamp, parseStamp);
        StepInvariant(before.state, segments[|segments| - 1], stamp, parseStamp);
        Run(step.state, before.effects + step.effects, step.failure)
  }

  /** One segment keeps the invariant. */
  lemma StepInvariant(st: TabState, segment: string, stamp: string, parseStamp: string -> Option<int>)
    requires Inv(st)
    ensures Inv(SegmentStep(st, segment, stamp, parseStamp).state)
  {
    var text := LastField(segment, '=');
    if Contains(segment, ProgressMarker) && ParseProgress(text).Some? && parseStamp(stamp).Some? {
      SampleInvariant(st, ParseProgress(text).value, parseStamp(stamp).value);
    }
  }

  lemma SampleInvariant(st: TabState, v: int, t: int)
    requires Inv(st)
    ensures Inv(Sample(st, v, t).state)
  {
    if st.oldProgress.Some? && st.oldProgress != Some(v) &&
      FitsTimedelta(DurationLeft(v, st.oldProgress.value, t - st.oldTimestamp.value)) {
      PushInvariant(st.window, TimeLeft(v, st.oldProgress.value, t - st.oldTimestamp.value));
    }
  }

  datatype LineResult = LineResult(state: TabState, outcome: Outcome)

  /** The UpdateTip branch: the loop over the line's space-separated
      segments, with the first segment as the timestamp. */
  function TrackProgress(st: TabState, line: string, parseStamp: string -> Option<int>): (r: LineResult)
    requires Inv(st)
    ensures Inv(r.state)
  {
    var segments := Split(line, ' ');
    var run := RunSegments(st, segments, segments[0], parseStamp);
    LineResult(run.state, Outcome(UpdateTip, run.effects, run.failure))
  }

  /** `process_output_line` on values. */
  function ProcessLine(st: TabState, line: string, parseStamp: string -> Option<int>): (r: LineResult)
    requires Inv(st)
    ensures Inv(r.state)
  {
    match Classify(line)
    case CoreVersion => LineResult(st, Outcome(CoreVersion, [SetStatus(Starting)], None))
    case LeavingIbd => LineResult(st, Outcome(LeavingIbd, [SetStatus(Synced), EmitSynced], None))
    case ShutdownDone =>
      LineResult(st, Outcome(ShutdownDone,
        [SetStatus(CheckOutput), ShowCritical("Bitcoin Error", "Please check Bitcoin Output")], None))
    case UpdateTip => TrackProgress(st, line, parseStamp)
    case AlreadyRunning =>
      LineResult(st, Outcome(AlreadyRunning,
        [SetStatus(AlreadyRunningText), ShowCritical("Bitcoin Error", "Bitcoin Core is already running")], None))
    case Unmatched => LineResult(st, Outcome(Unmatched, [], None))
  }

  // ---------------------------------------------------------------------
  // The tab object

  class BitcoindOutputTab {
    var oldProgress: Option<int>
    var oldTimestamp: Option<int>
    var timestampChanges: seq<int>

    function State(): TabState
      reads this
    {
      TabState(oldProgress, oldTimestamp, timestampChanges)
    }

    ghost predicate Valid()
      reads this
    {
      Inv(State())
    }

    /** The progress fields of `__init__`: no sample yet, an empty window. */
    constructor ()
      ensures Valid() && State() == Initial
    {
      oldProgress := None;
      oldTimestamp := None;
      timestampChanges := [];
    }

    /** Handles one line of bitcoind's output. */
    method ProcessOutputLine(line: string, parseStamp: string -> Option<int>) returns (outcome: Outcome)
      requires Valid()
      modifies this
      ensures Valid()
      ensures LineResult(State(), outcome) == ProcessLine(old(State()), line, parseStamp)
    {
      if Contains(line, CoreVersionMarker) {
        outcome := Outcome(CoreVersion, [SetStatus(Starting)], None);
      } else if Contains(line, LeavingIbdMarker) {
        outcome := Outcome(LeavingIbd, [SetStatus(Synced), EmitSynced], None);
      } else if Contains(line, ShutdownMarker) {
        outcome := Outcome(ShutdownDone,
          [SetStatus(CheckOutput), ShowCritical("Bitcoin Error", "Please check Bitcoin Output")], None);
      } else if Contains(line, UpdateTipMarker) {
        outcome := ProcessUpdateTip(line, parseStamp);
      } else if Contains(line, AlreadyRunningMarker) {
        outcome := Outcome(AlreadyRunning,
          [SetStatus(AlreadyRunningText), ShowCritical("Bitcoin Error", "Bitcoin Core is already running")], None);
      } else {
        outcome := Outcome(Unmatched, [], None);
      }
    }

    /** The UpdateTip branch of the handler. */
    method ProcessUpdateTip(line: string, parseStamp: string -> Option<int>) returns (outcome: Outcome)
      requires Valid()
      modifies this
      ensures Valid()
      ensures LineResult(State(), outcome) == TrackProgress(old(State()), line, parseStamp)
    {
      var segments := Split(line, ' ');
      var timestamp := segments[0];
      var effects: seq<Effect> := [];
      ghost var start := State();
      for i := 0 to |segments|
        invariant Valid()
        invariant RunSegments(start, segments[..i], timestamp, parseStamp) == Run(State(), effects, None)
      {
        var segment := segments[i];
        ghost var before := State();
        ghost var effectsBefore := effects;
        ghost var step := SegmentStep(before, segment, timestamp, parseStamp);
        RunSegmentsStep(start, segments, i, timestamp, parseStamp);
        if Contains(segment, ProgressMarker) {
          var text := LastField(segment, '=');
          var parsed := ParseProgress(text);
          if parsed.None? {
            outcome := Outcome(UpdateTip, effects, Some(BadProgress(text)));
            assert step == Run(before, [], Some(BadProgress(text)));
            assert effects + [] == effects;
            RunStopsAtFailure(start, segments, i + 1, timestamp, parseStamp);
            return;
          }
          var newProgress := parsed.value;
          var parsedStamp := parseStamp(timestamp);
          if parsedStamp.None? {
            outcome := Outcome(UpdateTip, effects, Some(BadTimestamp(timestamp)));
            assert step == Run(before, [], Some(BadTimestamp(timestamp)));
            assert effects + [] == effects;
            RunStopsAtFailure(start, segments, i + 1, timestamp, parseStamp);
            return;
          }
          var newTimestamp := parsedStamp.value;
          var sampleEffects, failure := RecordSample(newProgress, newTimestamp);
          effects := effects + sampleEffects;
          if failure.Some? {
            outcome := Outcome(UpdateTip, effects, failure);
            RunStopsAtFailure(start, segments, i + 1, timestamp, parseStamp);
            return;
          }
        } else {
          assert step == Run(before, [], None);
          assert effects + [] == effects;
        }
      }
      assert segments[..|segments|] == segments;
      outcome := Outcome(UpdateTip, effects, None);
    }

    /** The body of the loop once a sample has been parsed: a repeat changes
        nothing, a first sample at 100% is skipped (the `continue`), an
        estimate too long for a `timedelta` raises, anything else updates the
        window and the two "old" fields. */
    method RecordSample(newProgress: int, newTimestamp: int) returns (effects: seq<Effect>, failure: Option<Failure>)
      requires Valid()
      modifies this
      ensures Valid()
      ensures Run(State(), effects, failure) == Sample(old(State()), newProgress, newTimestamp)
    {
      effects := [];
      failure := None;
      if Some(newProgress) != oldProgress {
        if oldProgress.Some? {
          var dt := newTimestamp - oldTimestamp.value;
          if !FitsTimedelta(DurationLeft(newProgress, oldProgress.value, dt)) {
            failure := Some(DurationOverflow);
            return;
          }
          var timeLeft := TimeLeft(newProgress, oldProgress.value, dt);
          timestampChanges := timestampChanges + [timeLeft];
          if |timestampChanges| > Capacity {
            timestampChanges := timestampChanges[1..];
          }
          assert timestampChanges == Push(old(timestampChanges), timeLeft);
          effects := [SetStatus(Eta(Sum(timestampChanges), |timestampChanges|, newProgress))];
        } else {
          if RoundedPercent(newProgress) == 100 {
            return;
          }
          effects := [SetStatus(Percent(newProgress))];
        }
        oldProgress := Some(newProgress);
        oldTimestamp := Some(newTimestamp);
      }
      SampleInvariant(old(State()), newProgress, newTimestamp);
    }
  }

  /** Running one more segment after a prefix that raised nothing. */
  lemma RunSegmentsStep(st: TabState, segments: seq<string>, i: nat, stamp: string, parseStamp: string -> Option<int>)
    requires Inv(st)
    requires i < |segments|
    requires RunSegments(st, segments[..i], stamp, parseStamp).failure.None?
    ensures var before := RunSegments(st, segments[..i], stamp, parseStamp);
      var step := SegmentStep(before.state, segments[i], stamp, parseStamp);
      RunSegments(st, segments[..i + 1], stamp, parseStamp) == Run(step.state, before.effects + step.effects, step.failure)
  {
    assert segments[..i + 1][..i] == segments[..i];
  }

  /** Once a prefix of the segments has raised, the rest is never looked at. */
  lemma {:induction false} RunStopsAtFailure(st: TabState, segments: seq<string>, n: nat, stamp: string, parseStamp: string -> Option<int>)
    requires Inv(st)
    requires n <= |segments|
    requires RunSegments(st, segments[..n], stamp, parseStamp).failure.Some?
    ensures RunSegments(st, segments, stamp, parseStamp) == RunSegments(st, segments[..n], stamp, parseStamp)
    decreases |segments| - n
  {
    if n < |segments| {
      var longer := segments[..n + 1];
      assert longer[..n] == segments[..n];
      assert RunSegments(st, longer, stamp, parseStamp) == RunSegments(st, segments[..n], stamp, parseStamp);
      RunStopsAtFailure(st, segments, n + 1, stamp, parseStamp);
    } else {
      assert segments[..n] == segments;
    }
  }
}
