/** What the output tab's handler guarantees, stated over the value-level
    model in `OutputTab` (the class's methods are proved equal to it). */
module TabProperties {
  import opened Wrappers
  import opened Text
  import opened FixedPoint
  import opened Window
  import opened OutputTab

  // ---------------------------------------------------------------------
  // The classifier

  /** The chain tests the markers in their fixed order and takes the first
      one that occurs: it agrees with the reference scan over `Markers`. */
  lemma ClassifyIsFirstMatch(line: string)
    ensures Classify(line) == FirstMatch(line, 0)
  {
    assert FirstMatch(line, 5) == Unmatched;
  }

  /** A line takes the branch of marker k exactly when it contains marker k
      and none of the markers tested before it. */
  lemma ClassifyBranch(line: string, k: nat)
    requires k < |Markers|
    ensures Classify(line) == Branches[k] <==>
      Contains(line, Markers[k]) && forall j :: 0 <= j < k ==> !Contains(line, Markers[j])
  {
    ClassifyIsFirstMatch(line);
    FirstMatchBranch(line, 0, k);
  }

  lemma {:induction false} FirstMatchBranch(line: string, from: nat, k: nat)
    requires from <= k < |Markers|
    ensures FirstMatch(line, from) == Branches[k] <==>
      Contains(line, Markers[k]) && forall j :: from <= j < k ==> !Contains(line, Markers[j])
    decreases k - from
  {
    assert Rank(Branches[k]) == k;
    if from < k {
      assert Rank(Branches[from]) == from;
      FirstMatchBranch(line, from + 1, k);
    } else {
      FirstMatchRank(line, from + 1);
    }
  }

  /** The position of a branch in the chain. */
  function Rank(b: Branch): nat
  {
    match b
    case CoreVersion => 0
    case LeavingIbd => 1
    case ShutdownDone => 2
    case UpdateTip => 3
    case AlreadyRunning => 4
    case Unmatched => 5
  }

  /** The scan from index `from` never picks an earlier marker. */
  lemma {:induction false} FirstMatchRank(line: string, from: nat)
    requires from <= |Markers|
    ensures Rank(FirstMatch(line, from)) >= from
    decreases |Markers| - from
  {
    if from < |Markers| {
      assert Rank(Branches[from]) == from;
      FirstMatchRank(line, from + 1);
    }
  }

  /** A line that names both UpdateTip and "already running" (and none of the
      first three markers) is handled as UpdateTip. */
  lemma UpdateTipBeforeAlreadyRunning(st: TabState, line: string, parseStamp: string -> Option<int>)
    requires Inv(st)
    requires Contains(line, UpdateTipMarker) && Contains(line, AlreadyRunningMarker)
    requires !Contains(line, CoreVersionMarker) && !Contains(line, LeavingIbdMarker) && !Contains(line, ShutdownMarker)
    ensures ProcessLine(st, line, parseStamp).outcome.branch == UpdateTip
  {
  }

  /** Every branch other than UpdateTip leaves the three progress fields as
      they were and raises nothing. */
  lemma OtherBranchesKeepState(st: TabState, line: string, parseStamp: string -> Option<int>)
    requires Inv(st)
    requires Classify(line) != UpdateTip
    ensures ProcessLine(st, line, parseStamp).state == st
    ensures ProcessLine(st, line, parseStamp).outcome.failure.None?
    ensures ProcessLine(st, line, parseStamp).outcome.branch == Classify(line)
  {
  }

  /** The four fixed branches: each sets its own status text and then,
      for the leaving-initial-download line, emits the synced signal, or, for
      the shutdown and already-running lines, shows its critical alert. */
  lemma FixedBranchEffects(st: TabState, line: string, parseStamp: string -> Option<int>)
    requires Inv(st)
    ensures var effects := ProcessLine(st, line, parseStamp).outcome.effects;
      (Classify(line) == CoreVersion ==>
        effects == [SetStatus(Starting)] && StatusText(Starting, "") == "Bitcoin starting") &&
      (Classify(line) == LeavingIbd ==>
        effects == [SetStatus(Synced), EmitSynced] && StatusText(Synced, "") == "Bitcoin synced") &&
      (Classify(line) == ShutdownDone ==>
        effects == [SetStatus(CheckOutput), ShowCritical("Bitcoin Error", "Please check Bitcoin Output")] &&
        StatusText(CheckOutput, "") == "Error: please check Bitcoin Output") &&
      (Classify(line) == AlreadyRunning ==>
        effects == [SetStatus(AlreadyRunningText), ShowCritical("Bitcoin Error", "Bitcoin Core is already running")] &&
        StatusText(AlreadyRunningText, "") == "Error: Bitcoin Core is already running") &&
      (Classify(line) == Unmatched ==> effects == [])
  {
  }

  /** Only the leaving-initial-download line emits the synced signal, and
      only the shutdown and already-running lines show a critical alert. */
  lemma SignalsAndAlerts(st: TabState, line: string, parseStamp: string -> Option<int>)
    requires Inv(st)
    ensures var effects := ProcessLine(st, line, parseStamp).outcome.effects;
      (EmitSynced in effects <==> Classify(line) == LeavingIbd) &&
      ((exists k :: 0 <= k < |effects| && effects[k].ShowCritical?) <==>
        Classify(line) == ShutdownDone || Classify(line) == AlreadyRunning)
  {
    var effects := ProcessLine(st, line, parseStamp).outcome.effects;
    if Classify(line) == UpdateTip {
      var segments := Split(line, ' ');
      NoSignalFromProgress(st, segments, segments[0], parseStamp);
      assert forall k :: 0 <= k < |effects| ==> effects[k] in effects;
    } else if Classify(line) == ShutdownDone || Classify(line) == AlreadyRunning {
      assert effects[1].ShowCritical?;
    }
  }

  /** The progress loop only ever sets the status text. */
  lemma {:induction false} NoSignalFromProgress(st: TabState, segments: seq<string>, stamp: string, parseStamp: string -> Option<int>)
    requires Inv(st)
    ensures forall e :: e in RunSegments(st, segments, stamp, parseStamp).effects ==> e.SetStatus?
    decreases |segments|
  {
    if |segments| != 0 {
      NoSignalFromProgress(st, segments[..|segments| - 1], stamp, parseStamp);
    }
  }

  // ---------------------------------------------------------------------
  // One progress segment

  /** A segment without "progress" is skipped. */
  lemma NonProgressSegmentSkipped(st: TabState, segment: string, stamp: string, parseStamp: string -> Option<int>)
    requires Inv(st)
    requires !Contains(segment, ProgressMarker)
    ensures SegmentStep(st, segment, stamp, parseStamp) == Run(st, [], None)
  {
  }

  /** A progress value equal to the current one changes nothing and sets no
      text. */
  lemma RepeatIgnored(st: TabState, segment: string, stamp: string, parseStamp: string -> Option<int>)
    requires Inv(st)
    requires Contains(segment, ProgressMarker)
    requires parseStamp(stamp).Some?
    requires st.oldProgress.Some? && ParseProgress(LastField(segment, '=')) == st.oldProgress
    ensures SegmentStep(st, segment, stamp, parseStamp) == Run(st, [], None)
  {
  }

  /** A progress text that is not a number, a malformed timestamp, or an
      estimate too long for a `timedelta` raises before the segment changes
      anything. */
  lemma FailureChangesNothing(st: TabState, segment: string, stamp: string, parseStamp: string -> Option<int>)
    requires Inv(st)
    ensures var r := SegmentStep(st, segment, stamp, parseStamp);
      var v := ParseProgress(LastField(segment, '='));
      r.failure.Some? <==>
        Contains(segment, ProgressMarker) &&
        (v.None? || parseStamp(stamp).None? || Sample(st, v.value, parseStamp(stamp).value).failure.Some?)
    ensures var r := SegmentStep(st, segment, stamp, parseStamp);
      r.failure.Some? ==> r.state == st && r.effects == []
    ensures var r := SegmentStep(st, segment, stamp, parseStamp);
      r.failure == Some(BadProgress(LastField(segment, '='))) <==>
        Contains(segment, ProgressMarker) && ParseProgress(LastField(segment, '=')).None?
  {
  }

  /** After a segment that changed the state, the "old" fields hold the new
      rounded progress and the parsed timestamp of the line. */
  lemma AcceptedSegmentRecords(st: TabState, segment: string, stamp: string, parseStamp: string -> Option<int>)
    requires Inv(st)
    requires SegmentStep(st, segment, stamp, parseStamp).state != st
    ensures var r := SegmentStep(st, segment, stamp, parseStamp);
      Contains(segment, ProgressMarker) &&
      r.state.oldProgress == ParseProgress(LastField(segment, '=')) && r.state.oldProgress != st.oldProgress &&
      r.state.oldTimestamp == parseStamp(stamp) && r.state.oldTimestamp.Some? &&
      r.failure.None? && |r.effects| == 1
  {
  }

  /** The first sample: suppressed when its percentage rounds to 100 (progress
      in [0.995, 1.005]); otherwise shown as a percentage and recorded, with
      nothing added to the window. */
  lemma FirstSample(st: TabState, v: int, t: int)
    requires Inv(st) && st.oldProgress.None?
    ensures 9950 <= v <= 10050 ==> Sample(st, v, t) == Run(st, [], None)
    ensures !(9950 <= v <= 10050) ==>
      Sample(st, v, t) == Run(TabState(Some(v), Some(t), st.window), [SetStatus(Percent(v))], None)
  {
    RoundsToHundred(v);
  }

  /** A later sample with a new value appends exactly one time-left estimate.
      The window keeps the most recent `Capacity` estimates: when it was full
      only the oldest one is evicted. The estimate shown is the mean over the
      whole new window, which is non-empty and within [0, 86400). */
  lemma LaterSample(st: TabState, v: int, t: int)
    requires Inv(st) && st.oldProgress.Some? && st.oldProgress != Some(v)
    requires FitsTimedelta(DurationLeft(v, st.oldProgress.value, t - st.oldTimestamp.value))
    ensures var e := TimeLeft(v, st.oldProgress.value, t - st.oldTimestamp.value);
      var r := Sample(st, v, t);
      var w := r.state.window;
      r.state.oldProgress == Some(v) && r.state.oldTimestamp == Some(t) &&
      w == Recent(st.window + [e]) &&
      (|st.window| < Capacity ==> w == st.window + [e]) &&
      (|st.window| == Capacity ==> w == st.window[1..] + [e]) &&
      r.effects == [SetStatus(Eta(Sum(w), |w|, v))] &&
      1 <= |w| <= Capacity && 0 <= Sum(w) < SecondsPerDay * |w|
  {
    var e := TimeLeft(v, st.oldProgress.value, t - st.oldTimestamp.value);
    var w := Push(st.window, e);
    assert Sample(st, v, t) == Run(TabState(Some(v), Some(t), w), [SetStatus(Eta(Sum(w), |w|, v))], None);
    PushRecent(st.window, e);
    PushInvariant(st.window, e);
    SumInDayRange(w);
  }

  /** Every average the tab shows is over a non-empty window of at most
      `Capacity` entries, so the division is defined, and lies in [0, 86400). */
  lemma {:induction false} EtaAverageDefined(st: TabState, segments: seq<string>, stamp: string, parseStamp: string -> Option<int>)
    requires Inv(st)
    ensures AveragesDefined(RunSegments(st, segments, stamp, parseStamp).effects)
    decreases |segments|
  {
    if |segments| != 0 {
      var before := RunSegments(st, segments[..|segments| - 1], stamp, parseStamp);
      EtaAverageDefined(st, segments[..|segments| - 1], stamp, parseStamp);
      if before.failure.None? {
        var step := SegmentStep(before.state, segments[|segments| - 1], stamp, parseStamp);
        StepAverageDefined(before.state, segments[|segments| - 1], stamp, parseStamp);
        assert RunSegments(st, segments, stamp, parseStamp).effects == before.effects + step.effects;
      }
    }
  }

  /** Every ETA in `effects` averages over 1 to `Capacity` entries of [0, 86400). */
  predicate AveragesDefined(effects: seq<Effect>)
  {
    forall k :: 0 <= k < |effects| && effects[k].SetStatus? && effects[k].status.Eta? ==>
      1 <= effects[k].status.windowLength <= Capacity &&
      0 <= effects[k].status.windowSum < SecondsPerDay * effects[k].status.windowLength
  }

  lemma StepAverageDefined(st: TabState, segment: string, stamp: string, parseStamp: string -> Option<int>)
    requires Inv(st)
    ensures AveragesDefined(SegmentStep(st, segment, stamp, parseStamp).effects)
  {
    var text := LastField(segment, '=');
    if Contains(segment, ProgressMarker) && ParseProgress(text).Some? && parseStamp(stamp).Some? {
      var v := ParseProgress(text).value;
      var t := parseStamp(stamp).value;
      assert SegmentStep(st, segment, stamp, parseStamp) == Sample(st, v, t);
      SampleAverageDefined(st, v, t);
    } else {
      assert SegmentStep(st, segment, stamp, parseStamp).effects == [];
    }
  }

  lemma SampleAverageDefined(st: TabState, v: int, t: int)
    requires Inv(st)
    ensures AveragesDefined(Sample(st, v, t).effects)
  {
    if st.oldProgress.Some? && st.oldProgress != Some(v) &&
      FitsTimedelta(DurationLeft(v, st.oldProgress.value, t - st.oldTimestamp.value)) {
      LaterSample(st, v, t);
    }
  }

  // ---------------------------------------------------------------------
  // A whole line

  /** Segments none of which contains "progress" leave the state as it was
      and set no text: an UpdateTip line without a progress field does
      nothing. */
  lemma {:induction false} NoProgressNoChange(st: TabState, segments: seq<string>, stamp: string, parseStamp: string -> Option<int>)
    requires Inv(st)
    requires forall k :: 0 <= k < |segments| ==> !Contains(segments[k], ProgressMarker)
    ensures RunSegments(st, segments, stamp, parseStamp) == Run(st, [], None)
    decreases |segments|
  {
    if |segments| != 0 {
      NoProgressNoChange(st, segments[..|segments| - 1], stamp, parseStamp);
    }
  }

  /** An exception raised at some segment keeps whatever the earlier segments
      recorded: the state is that of the prefix before the failing segment. */
  lemma {:induction false} FailureKeepsPrefix(st: TabState, segments: seq<string>, stamp: string, parseStamp: string -> Option<int>)
    requires Inv(st)
    requires RunSegments(st, segments, stamp, parseStamp).failure.Some?
    ensures exists n :: (0 <= n < |segments| &&
      RunSegments(st, segments[..n], stamp, parseStamp).failure.None? &&
      RunSegments(st, segments, stamp, parseStamp).state == RunSegments(st, segments[..n], stamp, parseStamp).state)
    decreases |segments|
  {
    var init := segments[..|segments| - 1];
    var before := RunSegments(st, init, stamp, parseStamp);
    if before.failure.Some? {
      FailureKeepsPrefix(st, init, stamp, parseStamp);
      var n :| 0 <= n < |init| &&
        RunSegments(st, init[..n], stamp, parseStamp).failure.None? &&
        before.state == RunSegments(st, init[..n], stamp, parseStamp).state;
      assert init[..n] == segments[..n];
    } else {
      FailureChangesNothing(before.state, segments[|segments| - 1], stamp, parseStamp);
    }
  }

  // ---------------------------------------------------------------------
  // Status texts

  /** The first-sample text is the progress as a percentage with two
      decimals: read back as a decimal literal (without the '%') it is
      exactly progress / 100. */
  lemma PercentTextRoundTrip(p: int)
    ensures var text := StatusText(Percent(p), "");
      |text| >= 1 && text[|text| - 1] == '%' &&
      ParseDecimal(text[..|text| - 1]) == Some(Decimal(p < 0, Abs(p), 2))
  {
    var text := StatusText(Percent(p), "");
    assert text[..|text| - 1] == FormatPercent(p);
    FormatPercentRoundTrip(p);
  }

  // ---------------------------------------------------------------------
  // Worked examples

  /** The text "0.5000" parses to 5000 ten-thousandths. */
  lemma ParseProgressExample()
    ensures ParseProgress("0.5000") == Some(5000)
  {
    ParseDecimalExample();
    RoundHalfEvenUnique(5000 * Unit, Pow10(4), 5000);
  }

  /** Texts on which `float` raises: the empty text, a bare sign or point,
      two points, and a trailing letter. */
  lemma RejectedProgressTexts()
    ensures ParseProgress("").None? && ParseProgress("-").None? && ParseProgress(".").None?
    ensures ParseProgress("1.2.3").None? && ParseProgress("0.5x").None?
  {
  }

  lemma ParseDecimalExample()
    ensures ParseDecimal("0.5000") == Some(Decimal(false, 5000, 4))
  {
    var s := "0.5000";
    assert s[0] != '-' && s[0] != '+';
    assert Split(s, '.') == ["0", "5000"] by {
      SplitJoin(["0", "5000"], '.');
      assert Join(["0", "5000"], '.') == s;
    }
    assert "0" + "5000" == "05000";
    DigitsExample();
  }

  lemma DigitsExample()
    ensures AllDigits("05000") && DigitsValue("05000") == 5000
  {
    NatDigitsExample();
    var d := NatDigits(5000);
    DigitsValueAppend("0", d);
    assert "0" + d == "05000";
    assert DigitsValue("0") == 0;
  }

  lemma NatDigitsExample()
    ensures NatDigits(5000) == "5000"
  {
    assert NatDigits(5) == "5";
    assert NatDigits(50) == "50";
    assert NatDigits(500) == "500";
  }

  /** The first sample at 50% shows "50.00%". */
  lemma FirstSampleExample(t0: int)
    ensures Sample(Initial, 5000, t0) == Run(TabState(Some(5000), Some(t0), []), [SetStatus(Percent(5000))], None)
    ensures StatusText(Percent(5000), "") == "50.00%"
  {
    FirstSample(Initial, 5000, t0);
    assert NatDigits(50) == "50";
    assert NatDigits(0) == "0";
  }

  /** 0.10 then 0.20 a hundred seconds later: 0.8 left at 0.1 per hundred
      seconds is 800 seconds. */
  lemma TimeLeftExample()
    ensures TimeLeft(2000, 1000, 100) == 800
  {
    RoundHalfEvenUnique(8000 * 100 * MicrosPerSecond, 1000, 800 * MicrosPerSecond);
    assert DurationLeft(2000, 1000, 100) == 800 * MicrosPerSecond;
  }

  /** ... and the window becomes [800], shown with progress 20%. */
  lemma SecondSampleExample(t0: int)
    ensures Sample(TabState(Some(1000), Some(t0), []), 2000, t0 + 100) ==
      Run(TabState(Some(2000), Some(t0 + 100), [800]), [SetStatus(Eta(800, 1, 2000))], None)
  {
    TimeLeftExample();
    assert Push([], 800) == [800];
    assert Sum([800]) == 800;
  }

  /** 0.0001 then 0.0002 after 9e9 seconds extrapolates to about 1.04e9
      days, more than a `timedelta` holds: the sample raises and changes
      nothing. */
  lemma LongGapOverflows()
    ensures Sample(TabState(Some(1), Some(0), []), 2, 9000000000) ==
      Run(TabState(Some(1), Some(0), []), [], Some(DurationOverflow))
  {
    RoundHalfEvenUnique(9998 * 9000000000 * MicrosPerSecond, 1, 9998 * 9000000000 * MicrosPerSecond);
    assert DurationLeft(2, 1, 9000000000) == 9998 * 9000000000 * MicrosPerSecond;
    assert !FitsTimedelta(9998 * 9000000000 * MicrosPerSecond);
  }

  /** The `.seconds` component drops whole days: 0.1000 then 0.1001 a minute
      later extrapolates to 539940 seconds (6 days and 21540 seconds), of which
      the window records only the 21540 seconds beyond the whole days. */
  lemma TimeLeftDropsDays()
    ensures DurationLeft(1001, 1000, 60) == 539940 * MicrosPerSecond
    ensures TimeLeft(1001, 1000, 60) == 21540
  {
    RoundHalfEvenUnique(8999 * 60 * MicrosPerSecond, 1, 539940 * MicrosPerSecond);
  }

  /** A regression of progress gives a negative duration, whose `.seconds`
      component is counted back from the next whole day. */
  lemma TimeLeftOnRegression()
    ensures DurationLeft(1000, 2000, 100) == -900 * MicrosPerSecond
    ensures TimeLeft(1000, 2000, 100) == 85500
  {
    RoundHalfEvenUnique(9000 * 100 * MicrosPerSecond, -1000, -900 * MicrosPerSecond);
  }
}
