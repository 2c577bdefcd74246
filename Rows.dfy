/** The rows of the comparison table, as abstract payloads in place of the
    markup `createRowAfterTargetArea` and `createRowBeforeTargetArea` build. */
module Rows {
  import opened Wrappers
  import opened DateText
  import opened JsDate
  import opened Data
  import opened Comparison
  import opened Correlation

  /** An observed row shows both windows, their durations, the offset and the
      duration class; a predicted row shows the base window with its duration,
      the projected start date followed by `?`, and the projected offset. */
  datatype Row =
    | Observed(index: nat, externalLink: Option<string>, baseRegion: Region, targetRegion: Region,
               diffs: Diffs, decoration: Option<string>)
    | Predicted(index: nat, externalLink: Option<string>, baseRegion: Region, durationBase: int,
                predictedStart: string, prediction: int)

  /** `createRowAfterTargetArea(event)`, with its two guards. */
  function ObservedRow(e: Event): (r: Result<Row>)
    ensures e.targetRegion.None? ==> r == Failure("Target region data is required")
    ensures e.targetRegion.Some? && e.diffs.None? ==> r == Failure("Diff data is required")
    ensures r.Success? <==> e.targetRegion.Some? && e.diffs.Some?
    ensures r.Success? ==>
      (r.value.Observed? && r.value.index == e.index && r.value.externalLink == e.externalLink &&
       r.value.baseRegion == e.baseRegion && r.value.targetRegion == e.targetRegion.value &&
       r.value.diffs == e.diffs.value && r.value.decoration == DecorateByDuration(e.diffs.value))
  {
    if e.targetRegion.None? then Failure("Target region data is required")
    else if e.diffs.None? then Failure("Diff data is required")
    else Success(Observed(e.index, e.externalLink, e.baseRegion, e.targetRegion.value, e.diffs.value,
                          DecorateByDuration(e.diffs.value)))
  }

  /** Neither guard of `createRowAfterTargetArea` can fire on an event the
      generator yields with a target window, and the row's duration class
      compares the two windows' inclusive lengths. */
  lemma ObservedRowOfStream(e: Event)
    requires EventWellFormed(e) && e.targetRegion.Some?
    requires e.diffs == Some(GetDiffs(e.baseRegion, e.targetRegion.value))
    ensures ObservedRow(e).Success?
    ensures var d := ObservedRow(e).value.diffs;
      d == GetDiffs(e.baseRegion, e.targetRegion.value) &&
      (ObservedRow(e).value.decoration == Some("excess") <==>
        DayNumber(e.baseRegion.end) - DayNumber(e.baseRegion.start) <
        DayNumber(e.targetRegion.value.end) - DayNumber(e.targetRegion.value.start))
  {
  }

  /** `createRowBeforeTargetArea(event, diff)`: the shown duration counts both
      ends, and the shown date is the base start moved by the offset. */
  function PredictedRow(e: Event, diff: int): (r: Row)
    requires RegionWellFormed(e.baseRegion)
    requires Supported(DayNumber(e.baseRegion.start) + diff)
    ensures r.Predicted? && r.index == e.index && r.prediction == diff
    ensures r.externalLink == e.externalLink && r.baseRegion == e.baseRegion
    ensures r.durationBase == DayNumber(e.baseRegion.end) - DayNumber(e.baseRegion.start) + 1
    ensures |r.predictedStart| == 11 && r.predictedStart[10] == '?'
    ensures WellFormed(r.predictedStart[..10])
    ensures DayNumber(r.predictedStart[..10]) == DayNumber(e.baseRegion.start) + diff
  {
    AddDateRoundTrip(e.baseRegion.start, diff);
    var durationJp := DiffDate(e.baseRegion.start, e.baseRegion.end) + 1;
    var shown := AddDate(e.baseRegion.start, diff).value;
    assert (shown + "?")[..10] == shown;
    Predicted(e.index, e.externalLink, e.baseRegion, durationJp, shown + "?", diff)
  }

  /** The shown date is any well-formed date on the projected day. */
  lemma PredictedRowShows(e: Event, diff: int, date: string)
    requires RegionWellFormed(e.baseRegion) && Supported(DayNumber(e.baseRegion.start) + diff)
    requires WellFormed(date) && DayNumber(date) == DayNumber(e.baseRegion.start) + diff
    ensures PredictedRow(e, diff).predictedStart == date + "?"
  {
    var row := PredictedRow(e, diff);
    var shown := row.predictedStart[..10];
    SameDaySameString(shown, date);
    assert row.predictedStart == shown + "?";
  }
}
