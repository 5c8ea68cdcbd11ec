# Bitcoind output tab: line handler and sync-progress estimator

This project models the line handler of node-launcher's bitcoind output tab
(`BitcoindOutputTab.process_output_line`) and proves properties of it in Dafny.
Each line that bitcoind prints goes through this handler:

- **Classifier.** An if/elif chain tests five marker substrings in a fixed order:
  `Bitcoin Core version`, `Leaving InitialBlockDownload`, `Shutdown: done`,
  `UpdateTip`, `Bitcoin Core is probably already running`. The first marker that
  matches decides what the handler does. It sets a fixed tray status text. It may
  also emit the "synced" signal or show a critical alert.
- **Progress tracker.** An `UpdateTip` line is split on single spaces. Its first
  segment is the timestamp. Each segment containing `progress` is handled in turn:
  the text after its last `=` is parsed and rounded to four decimals; a value equal
  to the current one is ignored; the first sample is shown as a percentage unless
  it rounds to 100%; every later sample adds a time-left estimate to the window and
  shows an ETA. Accepted samples update `old_progress` and `old_timestamp`.
- **Window.** `timestamp_changes` keeps at most 100 estimates, oldest first.
  Appending to a full window evicts the oldest entry. The ETA is the average of
  the window.

How values are represented:

- Progress is an integer number of ten-thousandths, which is what `round(x, 4)` keeps.
- Timestamps are integer seconds.
- A time-left estimate is the `.seconds` component of the Python `timedelta`.
  The duration is computed exactly on rationals and rounded to microseconds
  half-to-even, as `timedelta` arithmetic does.

Modules:

- `Text` (`text.dfy`): substring test, `split`, last field.
- `FixedPoint` (`fixed_point.dfy`): decimal parsing, rounding, percentage text, time left.
- `Window` (`window.dfy`): the bounded list.
- `OutputTab` (`output_tab.dfy`): the classifier, the value-level specification and
  the `BitcoindOutputTab` class.
- `TabProperties` (`properties.dfy`): the lemmas.
- `Wrappers` (`wrappers.dfy`): `Option`.

How the class relates to the specification. `BitcoindOutputTab` holds the
source's three fields: `oldProgress`, `oldTimestamp` and `timestampChanges`.
Every method keeps `Valid()` and is proved to change them exactly as the
value-level function `ProcessLine` says. The work is split over three methods:

- `ProcessOutputLine` holds the if/elif chain.
- `ProcessUpdateTip` holds the loop over the segments.
- `RecordSample` holds the loop body after parsing (source lines 64-87). The
  source's `continue` becomes an early `return` here.

Behaviour of the handler that the model keeps:

- The handler has no exception handling. A `ValueError` from `float` or
  `strptime` (lines 59-63) escapes it, and so does the `OverflowError` of a
  time-left estimate beyond the 999999999 days a `timedelta` holds (line 70,
  `LongGapOverflows`). Whatever earlier segments of the same line recorded
  stays recorded. The model returns the failure in
  `Outcome.failure`, together with that state (`FailureKeepsPrefix`).
- The window stores `timedelta.seconds` (line 70), which always lies in
  [0, 86400):
  - An estimate of a day or more loses its whole days (`TimeLeftDropsDays`:
    6 days and 21540 seconds are recorded as 21540 seconds).
  - A negative estimate, after progress regresses, is counted back from the next
    day (`TimeLeftOnRegression`).
- The timestamp is parsed only at a segment that contains `progress`, after that
  segment's value has been parsed. So a line without such a segment never fails,
  and a bad value is reported before a bad timestamp.

## Model

| member | source | states |
|---|---|---|
| Text.ContainsOccurs | node_launcher/gui/menu/manage_bitcoind/bitcoind_output_tab.py:35 | Python's `p in s` is true exactly when `p` occurs at some index of `s` |
| Text.Split | node_launcher/gui/menu/manage_bitcoind/bitcoind_output_tab.py:55 | `line.split(' ')` yields at least one piece and no piece contains the separator |
| Text.JoinSplit | node_launcher/gui/menu/manage_bitcoind/bitcoind_output_tab.py:55 | joining the pieces of a split with the separator gives back the line |
| Text.SplitJoin | node_launcher/gui/menu/manage_bitcoind/bitcoind_output_tab.py:55 | splitting a join of separator-free pieces gives back the pieces |
| Text.LastField | node_launcher/gui/menu/manage_bitcoind/bitcoind_output_tab.py:59 | `split('=')[-1]` is the longest `=`-free suffix of the segment |
| Text.LastFieldIsLastPiece | node_launcher/gui/menu/manage_bitcoind/bitcoind_output_tab.py:59 | that suffix is the last piece the split produces |
| FixedPoint.RoundHalfEven | node_launcher/gui/menu/manage_bitcoind/bitcoind_output_tab.py:59 | the result is within half of n/d, and even on a tie |
| FixedPoint.RoundHalfEvenUnique | node_launcher/gui/menu/manage_bitcoind/bitcoind_output_tab.py:59 | those two properties determine the rounded value uniquely |
| FixedPoint.ParseDecimal | node_launcher/gui/menu/manage_bitcoind/bitcoind_output_tab.py:59 | `float` on the progress text: a value exactly for the strings of `IsDecimalLiteral` (optional sign, digits with at most one point, at least one digit), with the sign, the digits without the point and the number of digits after it; `None`, the `ValueError`, for every other string |
| FixedPoint.ParseProgress | node_launcher/gui/menu/manage_bitcoind/bitcoind_output_tab.py:59 | `round(float(text), 4)`: defined exactly on decimal literals (`IsDecimalLiteral`); the result is the nearest ten-thousandth to the literal's value, and the even one on a tie |
| FixedPoint.RoundedPercent | node_launcher/gui/menu/manage_bitcoind/bitcoind_output_tab.py:80 | `round(p * 100)`: the integer nearest to the percentage, ties to even |
| FixedPoint.RoundsToHundred | node_launcher/gui/menu/manage_bitcoind/bitcoind_output_tab.py:80 | `round(p*100) == 100` exactly for progress in [0.9950, 1.0050] |
| FixedPoint.NatDigits | node_launcher/gui/menu/manage_bitcoind/bitcoind_output_tab.py:83 | the whole part of a percentage as `:.2f` prints it: non-empty digits that denote the number, with no leading zero |
| FixedPoint.FormatPercent | node_launcher/gui/menu/manage_bitcoind/bitcoind_output_tab.py:83 | `f'{p*100:.2f}'`: a '-' exactly for negative progress, then the whole part without a leading zero, a point and exactly two decimals |
| FixedPoint.FormatPercentRoundTrip | node_launcher/gui/menu/manage_bitcoind/bitcoind_output_tab.py:83 | `f'{p*100:.2f}'`, read back as a decimal literal, is exactly p/100 with two decimals |
| FixedPoint.DurationLeft | node_launcher/gui/menu/manage_bitcoind/bitcoind_output_tab.py:66-70 | the extrapolated time left, `(1-new)/(new-old) * dt`, to within half a microsecond |
| FixedPoint.TimeLeft | node_launcher/gui/menu/manage_bitcoind/bitcoind_output_tab.py:70 | `.seconds` lies in [0, 86400) and equals the duration's whole seconds modulo one day |
| Window.Recent | node_launcher/gui/menu/manage_bitcoind/bitcoind_output_tab.py:71-73 | the most recent 100 entries of a history, in arrival order |
| Window.Push | node_launcher/gui/menu/manage_bitcoind/bitcoind_output_tab.py:71-73 | `append` then `pop(0)` past 100: the new entry is last; below capacity nothing is removed, at capacity only the oldest is |
| Window.PushRecent | node_launcher/gui/menu/manage_bitcoind/bitcoind_output_tab.py:71-73 | pushing onto the recent window gives the recent window of the extended history |
| Window.PushAllRecent | node_launcher/gui/menu/manage_bitcoind/bitcoind_output_tab.py:71-73 | any sequence of pushes from the empty list leaves exactly the last 100 estimates, oldest first |
| Window.PushInvariant | node_launcher/gui/menu/manage_bitcoind/bitcoind_output_tab.py:68-73 | a push keeps the length at most 100 and every entry in [0, 86400) |
| Window.SumInDayRange | node_launcher/gui/menu/manage_bitcoind/bitcoind_output_tab.py:74 | the sum of a window of `.seconds` values lies in [0, 86400 * len) |
| OutputTab.Classify | node_launcher/gui/menu/manage_bitcoind/bitcoind_output_tab.py:35-96 | a line falls through every branch exactly when it contains none of the five markers |
| OutputTab.SegmentStep | node_launcher/gui/menu/manage_bitcoind/bitcoind_output_tab.py:58-87 | one segment sets the status text at most once and never signals or alerts; a segment that raises leaves the state as it was |
| OutputTab.Sample | node_launcher/gui/menu/manage_bitcoind/bitcoind_output_tab.py:64-87 | a parsed sample raises exactly when it is a later new value whose estimate does not fit a `timedelta`, and then changes nothing; otherwise it sets the text exactly when it is recorded, and a recorded sample becomes `old_progress` and `old_timestamp` |
| OutputTab.RunSegments | node_launcher/gui/menu/manage_bitcoind/bitcoind_output_tab.py:57-87 | the segment loop keeps the invariant: old fields set together, window bounded and in range |
| OutputTab.StepInvariant | node_launcher/gui/menu/manage_bitcoind/bitcoind_output_tab.py:57-87 | one segment keeps that invariant |
| OutputTab.SampleInvariant | node_launcher/gui/menu/manage_bitcoind/bitcoind_output_tab.py:64-87 | one parsed sample keeps that invariant |
| OutputTab.TrackProgress | node_launcher/gui/menu/manage_bitcoind/bitcoind_output_tab.py:54-87 | the UpdateTip branch keeps the invariant |
| OutputTab.ProcessLine | node_launcher/gui/menu/manage_bitcoind/bitcoind_output_tab.py:34-96 | every line keeps the invariant |
| OutputTab.RunStopsAtFailure | node_launcher/gui/menu/manage_bitcoind/bitcoind_output_tab.py:59-63 | once a segment raises, no later segment is looked at |
| OutputTab.BitcoindOutputTab.constructor | node_launcher/gui/menu/manage_bitcoind/bitcoind_output_tab.py:29-32 | both old fields start as None and the window empty |
| OutputTab.BitcoindOutputTab.ProcessOutputLine | node_launcher/gui/menu/manage_bitcoind/bitcoind_output_tab.py:34-96 | the new fields and the outcome are those `ProcessLine` gives for the old fields; the invariant is kept |
| OutputTab.BitcoindOutputTab.ProcessUpdateTip | node_launcher/gui/menu/manage_bitcoind/bitcoind_output_tab.py:54-87 | the loop updates the fields segment by segment exactly as `TrackProgress` says, stopping at the first exception |
| OutputTab.BitcoindOutputTab.RecordSample | node_launcher/gui/menu/manage_bitcoind/bitcoind_output_tab.py:64-87 | one parsed sample updates window and old fields exactly as `Sample` says |
| TabProperties.ClassifyIsFirstMatch | node_launcher/gui/menu/manage_bitcoind/bitcoind_output_tab.py:35-96 | the chain equals a scan of the markers in their fixed order that takes the first match |
| TabProperties.ClassifyBranch | node_launcher/gui/menu/manage_bitcoind/bitcoind_output_tab.py:35-96 | a line takes marker k's branch if and only if it contains marker k and none of the earlier markers |
| TabProperties.UpdateTipBeforeAlreadyRunning | node_launcher/gui/menu/manage_bitcoind/bitcoind_output_tab.py:54-88 | from any state and for any timestamp parser, a line with both UpdateTip and "already running" (and none of the first three markers) is handled as UpdateTip |
| TabProperties.OtherBranchesKeepState | node_launcher/gui/menu/manage_bitcoind/bitcoind_output_tab.py:35-96 | every branch other than UpdateTip leaves all three fields unchanged and raises nothing |
| TabProperties.FixedBranchEffects | node_launcher/gui/menu/manage_bitcoind/bitcoind_output_tab.py:35-53 | each fixed branch gives exactly its effects in call order: "Bitcoin starting"; "Bitcoin synced" then the synced signal; each error text then its critical alert; an unmatched line does nothing |
| TabProperties.SignalsAndAlerts | node_launcher/gui/menu/manage_bitcoind/bitcoind_output_tab.py:35-96 | the synced signal is emitted exactly for the leaving-download line, and a critical alert is shown exactly for the shutdown and already-running lines |
| TabProperties.NoSignalFromProgress | node_launcher/gui/menu/manage_bitcoind/bitcoind_output_tab.py:54-87 | the progress loop only sets the status text |
| TabProperties.NonProgressSegmentSkipped | node_launcher/gui/menu/manage_bitcoind/bitcoind_output_tab.py:58 | a segment without `progress` changes nothing |
| TabProperties.RepeatIgnored | node_launcher/gui/menu/manage_bitcoind/bitcoind_output_tab.py:64 | a value equal to `old_progress` changes no state and sets no text |
| TabProperties.FailureChangesNothing | node_launcher/gui/menu/manage_bitcoind/bitcoind_output_tab.py:55-63 | a segment raises if and only if it is a progress segment whose value or timestamp does not parse or whose estimate overflows a `timedelta`, and then it changes nothing; a bad value is reported first |
| TabProperties.AcceptedSegmentRecords | node_launcher/gui/menu/manage_bitcoind/bitcoind_output_tab.py:86-87 | after a segment that changes the state, `old_progress` is the new rounded value and `old_timestamp` the parsed first segment |
| TabProperties.FirstSample | node_launcher/gui/menu/manage_bitcoind/bitcoind_output_tab.py:79-87 | a first sample that rounds to 100% is skipped with no text; otherwise it shows the percentage and is recorded, with nothing appended |
| TabProperties.LaterSample | node_launcher/gui/menu/manage_bitcoind/bitcoind_output_tab.py:65-78 | a later new value whose estimate fits a `timedelta` appends exactly one estimate; the window is the most recent 100; when full only the oldest is evicted; the ETA averages the whole new non-empty window |
| TabProperties.EtaAverageDefined | node_launcher/gui/menu/manage_bitcoind/bitcoind_output_tab.py:71-74 | every average shown is over 1 to 100 entries and lies in [0, 86400) |
| TabProperties.NoProgressNoChange | node_launcher/gui/menu/manage_bitcoind/bitcoind_output_tab.py:57-58 | an UpdateTip line without a progress segment changes nothing and sets no text |
| TabProperties.FailureKeepsPrefix | node_launcher/gui/menu/manage_bitcoind/bitcoind_output_tab.py:57-63 | after an exception the state is that of a prefix of the segments that raised nothing |
| TabProperties.PercentTextRoundTrip | node_launcher/gui/menu/manage_bitcoind/bitcoind_output_tab.py:82-84 | the first-sample text is the percentage with two decimals followed by '%' |
| TabProperties.ParseProgressExample | node_launcher/gui/menu/manage_bitcoind/bitcoind_output_tab.py:59 | "0.5000" parses to 5000 ten-thousandths |
| TabProperties.RejectedProgressTexts | node_launcher/gui/menu/manage_bitcoind/bitcoind_output_tab.py:59 | "", "-", ".", "1.2.3" and "0.5x", on which `float` raises, are refused |
| TabProperties.FirstSampleExample | node_launcher/gui/menu/manage_bitcoind/bitcoind_output_tab.py:79-84 | a first sample of 0.5 shows "50.00%" and is recorded |
| TabProperties.TimeLeftExample | node_launcher/gui/menu/manage_bitcoind/bitcoind_output_tab.py:66-70 | 0.10 then 0.20 after 100 s gives 800 s left |
| TabProperties.SecondSampleExample | node_launcher/gui/menu/manage_bitcoind/bitcoind_output_tab.py:65-78 | that second sample makes the window [800] and shows the ETA at 20% |
| TabProperties.LongGapOverflows | node_launcher/gui/menu/manage_bitcoind/bitcoind_output_tab.py:70 | 0.0001 then 0.0002 after 9e9 s, about 1.04e9 days left, raises `OverflowError` and changes nothing |
| TabProperties.TimeLeftDropsDays | node_launcher/gui/menu/manage_bitcoind/bitcoind_output_tab.py:70 | 539940 s left (over six days) is recorded as 21540 s |
| TabProperties.TimeLeftOnRegression | node_launcher/gui/menu/manage_bitcoind/bitcoind_output_tab.py:66-70 | a progress regression's -900 s is recorded as 85500 s |

## Left out

- Qt plumbing is not modelled. The handler's tray `setText` calls, the `bitcoind_synced` emission and `show_message` become `Effect` values, in call order, in the outcome.
- The rest of `__init__` is not part of this model: the `OutputWidget` base constructor, the stored tray and process, the `readyReadStandardOutput` connection, the window title and `QThreadPool`. Only its three progress fields are.
- `OutputWidget` and `handle_output` are not part of this model. They read the process stream.
- `humanize.naturaltime` is a foreign library whose wording is not visible. `StatusText` takes the phrase it produces as a parameter, and the ETA status carries the window's sum and length instead of the float average.
- `datetime.strptime` is calendar code from the standard library. It is the parameter `parseStamp`, which returns seconds or `None` for a `ValueError`.
- ParseDecimal: accepts only literals of the form sign, digits, optional point and digits. Python's `float` also accepts exponents, `inf`, `nan`, underscores, surrounding whitespace and non-ASCII decimal digits (`float('٥') == 5.0`); here those are errors. bitcoind prints progress in the accepted form.
- ParseProgress: inherits that restriction from `ParseDecimal`.
- ParseProgress: rounds the exact decimal value, while Python rounds the nearest binary double. The two can differ on a tie, and from about 2^39 (5.5e11) on, where doubles no longer hold every ten-thousandth, two literals the model keeps apart can round to the same double and compare equal at line 64.
- ParseProgress: treats every value as an ordinary number. In Python a literal above the largest double (about 1.8e308) becomes `inf`: on a first sample `round(inf * 100)` raises `OverflowError` at line 80, and on a later sample `(1 - inf) / (inf - old)` is NaN, so the product with the `timedelta` raises `ValueError` at line 70. A finite value whose hundredfold overflows (from about 1.8e306 on) raises `OverflowError` at line 80 on a first sample, and on a later sample it shows `inf% done` where the model prints digits.
- DurationLeft: takes `(1 - new) / (new - old)` exactly. The source computes it in floating point before multiplying by the `timedelta`.
- FormatPercent: has no negative zero. Python prints `-0.00` for a progress that rounds to -0.0.
- The test `if change:` at line 67 always holds in exact arithmetic, because the new value differs from the old one. The model has no branch for it.
