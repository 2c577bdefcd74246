/** The second pass (`createRowsBeforeTargetArea`, or the second loop of the
    root page). Every yielded event after the first that has no target window
    gets a synthetic one: it keeps the base window's length and the gap since
    the previous base window, and it is laid after the last target window. The
    synthetic window then becomes the last target window, so later predictions
    build on earlier ones. */
module Projection {
  import opened Wrappers
  import opened DateText
  import opened JsDate
  import opened Data
  import opened Comparison
  import opened Links
  import opened Correlation
  import opened Rows

  /** The second pass writes position `j`: no target window, and a previous
      event (`data[index - 1]`) whose base window exists. */
  predicate Projects(events: seq<Event>, j: nat)
    requires j < |events|
  {
    events[j].targetRegion.None? && j >= 1
  }

  /** At a yielded position `Projects` is the data-level test of the second pass:
      the entry has no target window and the entry before it has a base window.
      The third conjunct of that test, a last target window, always holds there,
      since the second pass starts from the seed the first pass found. */
  lemma ProjectsCondition(data: seq<Schema>, base: Area, target: Area, page: Page, j: nat)
    requires DataWellFormed(data, base, target) && j < |Events(data, base, target, page).events|
    ensures Projects(Events(data, base, target, page).events, j) <==>
      RegionOf(data[j], target).None? && j >= 1 && RegionOf(data[j - 1], base).Some?
  {
    EventAtContents(data, base, target, page, j);
    if j >= 1 {
      EventAtContents(data, base, target, page, j - 1);
    }
  }

  /** The day arithmetic of one projection: the `blank` days between the previous
      base window's end and this one's start, and the base window's `duration`
      (its `diffDate`, without the extra day). */
  datatype Gap = Gap(blank: int, duration: int)

  /** The gap at position `j` if the second pass writes there. */
  function GapOf(events: seq<Event>, j: nat): Option<Gap>
    requires StreamWellFormed(events) && j < |events|
  {
    if Projects(events, j) then
      assert EventWellFormed(events[j]) && EventWellFormed(events[j - 1]);
      var b := events[j].baseRegion;
      var previousBase := events[j - 1].baseRegion;
      Some(Gap(DayNumber(b.start) - DayNumber(previousBase.end), DayNumber(b.end) - DayNumber(b.start)))
    else None
  }

  /** The gap of every position the second pass writes, `None` elsewhere. */
  function Gaps(events: seq<Event>): (gaps: seq<Option<Gap>>)
    requires StreamWellFormed(events)
  {
    seq(|events|, j => if 0 <= j < |events| then GapOf(events, j) else None)
  }

  /** The day number of `lastTargetItem.end` after the first `n` positions, from `end0`. */
  function EndDay(gaps: seq<Option<Gap>>, end0: int, n: nat): int
    requires n <= |gaps|
  {
    if n == 0 then end0
    else
      var prev := EndDay(gaps, end0, n - 1);
      match gaps[n - 1]
      case None => prev
      case Some(g) => prev + g.blank + g.duration
  }

  /** Every synthetic window the pass builds from `end0` lies in years 1000 to 9999,
      where the dates `addDate` prints are read back by `parseDate`. */
  predicate InRange(gaps: seq<Option<Gap>>, end0: int)
  {
    forall n {:trigger InRangeAt(gaps, end0, n)} :: 0 <= n < |gaps| ==> InRangeAt(gaps, end0, n)
  }

  /** The synthetic window built at position `n`, if any, lies in the modelled years. */
  predicate InRangeAt(gaps: seq<Option<Gap>>, end0: int, n: nat)
    requires n < |gaps|
  {
    gaps[n].Some? ==>
      Supported(EndDay(gaps, end0, n) + gaps[n].value.blank) &&
      Supported(EndDay(gaps, end0, n) + gaps[n].value.blank + gaps[n].value.duration)
  }

  /** The second pass can run from `seed` over `events` within the modelled years. */
  predicate Projectable(events: seq<Event>, seed: Region)
  {
    StreamWellFormed(events) && RegionWellFormed(seed) && InRange(Gaps(events), DayNumber(seed.end))
  }

  /** `newTargetItem`: the base title, and a window `blank` days after the last
      target window's end, as long as the base window. */
  function NewTarget(last: Region, baseRegion: Region, previousBase: Region): (r: Region)
    requires RegionWellFormed(last) && RegionWellFormed(baseRegion) && RegionWellFormed(previousBase)
    requires Supported(DayNumber(last.end) + DayNumber(baseRegion.start) - DayNumber(previousBase.end))
    requires Supported(DayNumber(last.end) + DayNumber(baseRegion.start) - DayNumber(previousBase.end)
                       + DayNumber(baseRegion.end) - DayNumber(baseRegion.start))
    ensures RegionWellFormed(r) && r.title == baseRegion.title && r.noticeId.None?
    ensures DayNumber(r.start) - DayNumber(last.end) == DayNumber(baseRegion.start) - DayNumber(previousBase.end)
    ensures DayNumber(r.end) - DayNumber(r.start) == DayNumber(baseRegion.end) - DayNumber(baseRegion.start)
  {
    var blank := DiffDate(previousBase.end, baseRegion.start);
    var duration := DiffDate(baseRegion.start, baseRegion.end);
    Region(baseRegion.title, None, ShiftDate(last.end, blank), ShiftDate(last.end, blank + duration))
  }

  /** `prediction = diff + durationTarget - durationBase`: how many days the
      target window ends after the base window. */
  function Prediction(baseRegion: Region, newTarget: Region): (p: int)
    requires RegionWellFormed(baseRegion) && RegionWellFormed(newTarget)
    ensures p == DayNumber(newTarget.end) - DayNumber(baseRegion.end)
  {
    var lastDiff := GetDiffs(baseRegion, newTarget);
    lastDiff.diff + lastDiff.durationTarget - lastDiff.durationBase
  }

  /** A synthetic window as long as its base window: both durations agree, so
      the prediction is the plain offset of the starts. */
  lemma PredictionIsDiff(last: Region, baseRegion: Region, previousBase: Region)
    requires RegionWellFormed(last) && RegionWellFormed(baseRegion) && RegionWellFormed(previousBase)
    requires Supported(DayNumber(last.end) + DayNumber(baseRegion.start) - DayNumber(previousBase.end))
    requires Supported(DayNumber(last.end) + DayNumber(baseRegion.start) - DayNumber(previousBase.end)
                       + DayNumber(baseRegion.end) - DayNumber(baseRegion.start))
    ensures var t := NewTarget(last, baseRegion, previousBase);
      GetDiffs(baseRegion, t).durationTarget == GetDiffs(baseRegion, t).durationBase &&
      Prediction(baseRegion, t) == GetDiffs(baseRegion, t).diff
  {
    EqualLengths(baseRegion, NewTarget(last, baseRegion, previousBase));
  }

  /** Two windows of equal length: the comparison's durations agree and the
      prediction is the offset of the starts. */
  lemma EqualLengths(baseRegion: Region, t: Region)
    requires RegionWellFormed(baseRegion) && RegionWellFormed(t)
    requires DayNumber(t.end) - DayNumber(t.start) == DayNumber(baseRegion.end) - DayNumber(baseRegion.start)
    ensures GetDiffs(baseRegion, t).durationTarget == GetDiffs(baseRegion, t).durationBase
    ensures Prediction(baseRegion, t) == GetDiffs(baseRegion, t).diff
  {
  }

  /** `lastTargetItem` after the second pass has seen the first `n` positions,
      starting from `seed`. */
  function LastAfter(events: seq<Event>, seed: Region, n: nat): (r: Region)
    requires Projectable(events, seed) && n <= |events|
    ensures RegionWellFormed(r)
    ensures DayNumber(r.end) == EndDay(Gaps(events), DayNumber(seed.end), n)
  {
    if n == 0 then seed
    else
      var last := LastAfter(events, seed, n - 1);
      if Projects(events, n - 1) then
        GapAt(events, seed, n - 1);
        NewTarget(last, events[n - 1].baseRegion, events[n - 2].baseRegion)
      else last
  }

  /** The gap at a position the pass writes. */
  lemma GapOfAt(events: seq<Event>, j: nat)
    requires StreamWellFormed(events) && j < |events| && Projects(events, j)
    ensures RegionWellFormed(events[j].baseRegion) && RegionWellFormed(events[j - 1].baseRegion)
    ensures var b := events[j].baseRegion;
      GapOf(events, j) == Some(Gap(DayNumber(b.start) - DayNumber(events[j - 1].baseRegion.end),
                                   DayNumber(b.end) - DayNumber(b.start)))
  {
    assert EventWellFormed(events[j]) && EventWellFormed(events[j - 1]);
  }

  /** The gap at a position the pass writes, and where the window built there lies. */
  lemma GapAt(events: seq<Event>, seed: Region, j: nat)
    requires Projectable(events, seed) && j < |events| && Projects(events, j)
    ensures RegionWellFormed(events[j].baseRegion) && RegionWellFormed(events[j - 1].baseRegion)
    ensures var b := events[j].baseRegion;
      var g := Gap(DayNumber(b.start) - DayNumber(events[j - 1].baseRegion.end), DayNumber(b.end) - DayNumber(b.start));
      var e := EndDay(Gaps(events), DayNumber(seed.end), j);
      Gaps(events)[j] == Some(g) &&
      Supported(e + g.blank) && Supported(e + g.blank + g.duration) &&
      EndDay(Gaps(events), DayNumber(seed.end), j + 1) == e + g.blank + g.duration
  {
    GapOfAt(events, j);
    assert Gaps(events)[j] == GapOf(events, j);
    assert InRangeAt(Gaps(events), DayNumber(seed.end), j);
  }

  /** The synthetic window built at position `j`. */
  function NewTargetAt(events: seq<Event>, seed: Region, j: nat): (r: Region)
    requires Projectable(events, seed) && j < |events| && Projects(events, j)
    ensures RegionWellFormed(r) && DayNumber(r.end) == LastEnd(events, seed, j + 1)
  {
    GapAt(events, seed, j);
    NewTarget(LastAfter(events, seed, j), events[j].baseRegion, events[j - 1].baseRegion)
  }

  /** The day arithmetic of one projection from `last` over `baseRegion`, after
      `previousBase`, stays in the modelled years. */
  predicate CanProject(last: Region, baseRegion: Region, previousBase: Region)
  {
    RegionWellFormed(last) && RegionWellFormed(baseRegion) && RegionWellFormed(previousBase) &&
    Supported(DayNumber(last.end) + DayNumber(baseRegion.start) - DayNumber(previousBase.end)) &&
    Supported(DayNumber(last.end) + DayNumber(baseRegion.start) - DayNumber(previousBase.end)
              + DayNumber(baseRegion.end) - DayNumber(baseRegion.start))
  }

  /** The number of days the synthetic window built at position `j` ends after
      the base window there. */
  function ProjectedOffset(events: seq<Event>, seed: Region, j: nat): int
    requires Projectable(events, seed) && j < |events| && Projects(events, j)
  {
    GapAt(events, seed, j);
    EndDay(Gaps(events), DayNumber(seed.end), j + 1) - DayNumber(events[j].baseRegion.end)
  }

  /** The row the second pass writes at position `j`: `createRowBeforeTargetArea`
      with the projected offset. */
  function ProjectedRow(events: seq<Event>, seed: Region, j: nat): (row: Row)
    requires Projectable(events, seed) && j < |events| && Projects(events, j)
  {
    GapAt(events, seed, j);
    PredictedRow(events[j], ProjectedOffset(events, seed, j))
  }

  /** Slot `j` after the second pass has seen the first `n` positions, over `previous`. */
  function BeforeRow(events: seq<Event>, seed: Region, n: nat, j: nat, previous: Option<Row>): Option<Row>
    requires Projectable(events, seed) && n <= |events|
  {
    if n == 0 then previous
    else if j == n - 1 && Projects(events, n - 1) then Some(ProjectedRow(events, seed, n - 1))
    else BeforeRow(events, seed, n - 1, j, previous)
  }

  /** After `n` positions, slot `j` holds the projected row exactly when the pass
      has reached it and writes there; every other slot keeps what it held. */
  lemma {:induction false} BeforeRowIs(events: seq<Event>, seed: Region, n: nat, j: nat, previous: Option<Row>)
    requires Projectable(events, seed) && n <= |events|
    ensures BeforeRow(events, seed, n, j, previous) ==
      if j < n && Projects(events, j) then Some(ProjectedRow(events, seed, j)) else previous
  {
    if n > 0 && !(j == n - 1 && Projects(events, n - 1)) {
      BeforeRowIs(events, seed, n - 1, j, previous);
    }
  }

  /** One step of the second pass on the rows: only slot `i` can change. */
  lemma BeforeRowStep(events: seq<Event>, seed: Region, i: nat, j: nat, previous: Option<Row>)
    requires Projectable(events, seed) && i < |events|
    ensures BeforeRow(events, seed, i + 1, j, previous) ==
      if j == i && Projects(events, i) then Some(ProjectedRow(events, seed, i)) else BeforeRow(events, seed, i, j, previous)
  {
  }

  /** The projected offset at position `j`, and how the last end moves there. */
  lemma OffsetAt(events: seq<Event>, seed: Region, j: nat)
    requires Projectable(events, seed) && j < |events| && Projects(events, j)
    ensures RegionWellFormed(events[j].baseRegion) && RegionWellFormed(events[j - 1].baseRegion)
    ensures LastEnd(events, seed, j + 1) ==
      LastEnd(events, seed, j) + DayNumber(events[j].baseRegion.end) - DayNumber(events[j - 1].baseRegion.end)
    ensures ProjectedOffset(events, seed, j) == LastEnd(events, seed, j + 1) - DayNumber(events[j].baseRegion.end)
  {
    GapAt(events, seed, j);
  }

  /** The projected row is `createRowBeforeTargetArea(event, prediction)` for the
      `prediction` the source computes from `lastTargetItem` at that point: the
      formula over `getDiffs(baseRegion, newTargetItem)`, which is the plain
      offset of the starts since both windows are equally long. */
  lemma ProjectedRowOffset(events: seq<Event>, seed: Region, j: nat)
    requires Projectable(events, seed) && j < |events| && Projects(events, j)
    ensures RegionWellFormed(events[j].baseRegion)
    ensures ProjectedRow(events, seed, j).prediction == Prediction(events[j].baseRegion, NewTargetAt(events, seed, j))
    ensures ProjectedRow(events, seed, j).prediction == GetDiffs(events[j].baseRegion, NewTargetAt(events, seed, j)).diff
  {
    OffsetAt(events, seed, j);
    GapAt(events, seed, j);
    PredictionIsDiff(LastAfter(events, seed, j), events[j].baseRegion, events[j - 1].baseRegion);
  }

  /** The projected offset is how many days the last target window ended after
      the previous base window. */
  lemma ProjectedRowLag(events: seq<Event>, seed: Region, j: nat)
    requires Projectable(events, seed) && j < |events| && Projects(events, j)
    ensures RegionWellFormed(events[j - 1].baseRegion)
    ensures ProjectedRow(events, seed, j).prediction ==
      DayNumber(LastAfter(events, seed, j).end) - DayNumber(events[j - 1].baseRegion.end)
  {
    OffsetAt(events, seed, j);
  }

  /** The projected row shows the synthetic window's start: `addDate(baseRegion.start,
      prediction)` lands on `newTargetItem.start`. */
  lemma ProjectedRowDate(events: seq<Event>, seed: Region, j: nat)
    requires Projectable(events, seed) && j < |events| && Projects(events, j)
    ensures ProjectedRow(events, seed, j).predictedStart == NewTargetAt(events, seed, j).start + "?"
  {
    GapAt(events, seed, j);
    var t := NewTargetAt(events, seed, j);
    PredictedRowShows(events[j], ProjectedOffset(events, seed, j), t.start);
  }

  /** Along a run of events without target windows every prediction is the same:
      each synthetic window keeps the base gap and length, so the offset found at
      the last observed pair is carried forward unchanged. */
  lemma PredictionHolds(events: seq<Event>, seed: Region, j: nat)
    requires Projectable(events, seed) && j + 1 < |events| && Projects(events, j) && Projects(events, j + 1)
    ensures ProjectedRow(events, seed, j + 1).prediction == ProjectedRow(events, seed, j).prediction
  {
    OffsetHolds(events, seed, j);
  }

  /** The projected offsets of two consecutive written positions agree. */
  lemma OffsetHolds(events: seq<Event>, seed: Region, j: nat)
    requires Projectable(events, seed) && j + 1 < |events| && Projects(events, j) && Projects(events, j + 1)
    ensures ProjectedOffset(events, seed, j + 1) == ProjectedOffset(events, seed, j)
  {
    OffsetAt(events, seed, j + 1);
  }

  /** The days of the worked example, counted from 1970-01-01. */
  lemma ExampleDaysLast()
    ensures WellFormed("2024-01-10") && WellFormed("2024-01-20") && DayNumber("2024-01-20") == 19742
  {
  }

  lemma ExampleDaysPrevious()
    ensures WellFormed("2024-01-22") && WellFormed("2024-02-01") && DayNumber("2024-02-01") == 19754
  {
  }

  lemma ExampleDaysBaseStart()
    ensures WellFormed("2024-02-05") && DayNumber("2024-02-05") == 19758
  {
  }

  lemma ExampleDaysBaseEnd()
    ensures WellFormed("2024-02-15") && DayNumber("2024-02-15") == 19768
  {
  }

  lemma ExampleDaysExpectedStart()
    ensures WellFormed("2024-01-24") && DayNumber("2024-01-24") == 19746
  {
  }

  lemma ExampleDaysExpectedEnd()
    ensures WellFormed("2024-02-03") && DayNumber("2024-02-03") == 19756
  {
  }

  /** One projection worked through: the last target window ends on 20 January,
      the previous base window on 1 February, and the base window runs from 5 to
      15 February. The synthetic window starts 4 days after 20 January and runs
      10 days, so it ends 12 days before the base window does. */
  lemma ProjectionExample(last: Region, previousBase: Region, baseRegion: Region)
    requires last == Region("A", None, "2024-01-10", "2024-01-20")
    requires previousBase == Region("X", None, "2024-01-22", "2024-02-01")
    requires baseRegion == Region("B", None, "2024-02-05", "2024-02-15")
    ensures CanProject(last, baseRegion, previousBase)
    ensures NewTarget(last, baseRegion, previousBase) == Region("B", None, "2024-01-24", "2024-02-03")
    ensures Prediction(baseRegion, NewTarget(last, baseRegion, previousBase)) == -12
  {
    ExampleDaysLast();
    ExampleDaysPrevious();
    ExampleDaysBaseStart();
    ExampleDaysBaseEnd();
    ExampleDaysExpectedStart();
    ExampleDaysExpectedEnd();
    var t := NewTarget(last, baseRegion, previousBase);
    SameDaySameString(t.start, "2024-01-24");
    SameDaySameString(t.end, "2024-02-03");
  }

  /** `createRowsBeforeTargetArea`: a second walk over the event stream fills
      the positions without a target window, starting from the last target
      window of the first pass. It leaves every other slot alone, and stops with
      the stream's error if the stream stops early. */
  method CreateRowsBeforeTargetArea(data: seq<Schema>, base: Area, target: Area, page: Page,
                                    lastTargetItem: Region, rows: array<Option<Row>>)
    returns (error: Option<string>)
    requires DataWellFormed(data, base, target)
    requires Projectable(Events(data, base, target, page).events, lastTargetItem)
    requires |Events(data, base, target, page).events| <= rows.Length
    modifies rows
    ensures error == Events(data, base, target, page).error
    ensures var events := Events(data, base, target, page).events;
      forall j :: 0 <= j < rows.Length ==>
        rows[j] == BeforeRow(events, lastTargetItem, |events|, j, old(rows[j]))
  {
    var s := YieldEventData(data, base, target, page);
    forall j | 0 <= j < |s.events|
      ensures RegionOf(data[j], base) == Some(s.events[j].baseRegion)
    {
      EventAtContents(data, base, target, page, j);
    }
    ProjectMissing(data, base, s.events, lastTargetItem, rows);
    error := s.error;
  }

  /** The loop of the second pass. `previousBaseItem` is read from `data`, and
      `lastTargetItem` is always a region, so it never stops the projection.
      The loop keeps `lastTargetItem` ending on the day `LastAfter` ends on. */
  method ProjectMissing(data: seq<Schema>, base: Area, events: seq<Event>, seed: Region,
                        rows: array<Option<Row>>)
    requires Projectable(events, seed) && |events| <= |data| && |events| <= rows.Length
    requires forall j :: 0 <= j < |events| ==> RegionOf(data[j], base) == Some(events[j].baseRegion)
    modifies rows
    ensures forall j :: 0 <= j < rows.Length ==> rows[j] == BeforeRow(events, seed, |events|, j, old(rows[j]))
  {
    ghost var before := rows[..];
    var lastTargetItem := seed;
    var i := 0;
    while i < |events|
      invariant i <= |events|
      invariant RegionWellFormed(lastTargetItem)
      invariant DayNumber(lastTargetItem.end) == LastEnd(events, seed, i)
      invariant forall j :: 0 <= j < rows.Length ==> rows[j] == BeforeRow(events, seed, i, j, before[j])
    {
      lastTargetItem := ProjectStep(data, base, events, seed, i, lastTargetItem, rows, before);
      i := i + 1;
    }
  }

  /** The body of the second pass's loop at position `i`: the row goes to
      `rows[event.index]` if there is one, and `lastTargetItem` moves on. */
  method ProjectStep(data: seq<Schema>, base: Area, events: seq<Event>, seed: Region, i: nat,
                     lastTargetItem: Region, rows: array<Option<Row>>, ghost before: seq<Option<Row>>)
    returns (next: Region)
    requires Projectable(events, seed) && i < |events| <= |data| && |events| <= rows.Length
    requires forall j :: 0 <= j < |events| ==> RegionOf(data[j], base) == Some(events[j].baseRegion)
    requires RegionWellFormed(lastTargetItem) && DayNumber(lastTargetItem.end) == LastEnd(events, seed, i)
    requires |before| == rows.Length
    requires forall j :: 0 <= j < rows.Length ==> rows[j] == BeforeRow(events, seed, i, j, before[j])
    modifies rows
    ensures RegionWellFormed(next) && DayNumber(next.end) == LastEnd(events, seed, i + 1)
    ensures forall j :: 0 <= j < rows.Length ==> rows[j] == BeforeRow(events, seed, i + 1, j, before[j])
  {
    var event := events[i];
    assert event.index == i;
    var previousBaseItem := PreviousBaseItem(data, base, events, event.index);
    var row;
    next, row := ProjectAt(events, seed, i, lastTargetItem, previousBaseItem);
    ghost var current := rows[..];
    if row.Some? {
      rows[event.index] := row;
    }
    SlotsStep(events, seed, i, before, current, rows[..], row);
  }

  /** One step of the second pass on the whole array: writing `row` at `i`, if
      there is one, takes every slot from its state after `i` positions to its
      state after `i + 1`. */
  lemma SlotsStep(events: seq<Event>, seed: Region, i: nat, before: seq<Option<Row>>,
                  current: seq<Option<Row>>, written: seq<Option<Row>>, row: Option<Row>)
    requires Projectable(events, seed) && i < |events| && i < |current|
    requires |before| == |current| == |written|
    requires row == if Projects(events, i) then Some(ProjectedRow(events, seed, i)) else None
    requires written == if row.Some? then current[i := row] else current
    requires forall j :: 0 <= j < |current| ==> current[j] == BeforeRow(events, seed, i, j, before[j])
    ensures forall j :: 0 <= j < |written| ==> written[j] == BeforeRow(events, seed, i + 1, j, before[j])
  {
    forall j | 0 <= j < |written|
      ensures written[j] == BeforeRow(events, seed, i + 1, j, before[j])
    {
      BeforeRowStep(events, seed, i, j, before[j]);
    }
  }

  /** `data[index - 1] && data[index - 1].region[baseArea]`: the base window of
      the previous entry, which the stream has already yielded. */
  method PreviousBaseItem(data: seq<Schema>, base: Area, events: seq<Event>, index: nat)
    returns (previousBaseItem: Option<Region>)
    requires index < |events| <= |data|
    requires forall j :: 0 <= j < |events| ==> RegionOf(data[j], base) == Some(events[j].baseRegion)
    ensures previousBaseItem == if index >= 1 then Some(events[index - 1].baseRegion) else None
  {
    previousBaseItem := if index >= 1 then RegionOf(data[index - 1], base) else None;
  }

  /** The day `lastTargetItem.end` names once the second pass has seen the
      first `n` positions. */
  function LastEnd(events: seq<Event>, seed: Region, n: nat): int
    requires Projectable(events, seed) && n <= |events|
  {
    EndDay(Gaps(events), DayNumber(seed.end), n)
  }

  /** One iteration of the second pass, at position `i`, given `previousBaseItem`
      (the base window of `data[i - 1]`, if any): the row to write there, if
      any, and the last target window afterwards. */
  method ProjectAt(events: seq<Event>, seed: Region, i: nat, lastTargetItem: Region, previousBaseItem: Option<Region>)
    returns (next: Region, row: Option<Row>)
    requires Projectable(events, seed) && i < |events|
    requires previousBaseItem == if i >= 1 then Some(events[i - 1].baseRegion) else None
    requires RegionWellFormed(lastTargetItem)
    requires DayNumber(lastTargetItem.end) == LastEnd(events, seed, i)
    ensures RegionWellFormed(next) && DayNumber(next.end) == LastEnd(events, seed, i + 1)
    ensures row == if Projects(events, i) then Some(ProjectedRow(events, seed, i)) else None
  {
    var event := events[i];
    if event.targetRegion.None? && previousBaseItem.Some? {
      ProjectionFits(events, seed, i, lastTargetItem, previousBaseItem.value);
      var r;
      next, r := ProjectOne(event, lastTargetItem, previousBaseItem.value);
      assert Prediction(event.baseRegion, next) == ProjectedOffset(events, seed, i);
      row := Some(r);
    } else {
      GapSkipped(events, seed, i);
      next := lastTargetItem;
      row := None;
    }
  }

  /** A projection at position `i` from the regions the loop holds (`last` is
      `lastTargetItem`, `previousBase` is `previousBaseItem`) stays in the
      modelled years, and moves the last end by the base windows' offset. */
  lemma ProjectionFits(events: seq<Event>, seed: Region, i: nat, last: Region, previousBase: Region)
    requires Projectable(events, seed) && i < |events| && Projects(events, i)
    requires RegionWellFormed(last) && DayNumber(last.end) == LastEnd(events, seed, i)
    requires previousBase == events[i - 1].baseRegion
    ensures CanProject(last, events[i].baseRegion, previousBase)
    ensures LastEnd(events, seed, i + 1) ==
      DayNumber(last.end) + DayNumber(events[i].baseRegion.end) - DayNumber(previousBase.end)
    ensures ProjectedOffset(events, seed, i) == LastEnd(events, seed, i + 1) - DayNumber(events[i].baseRegion.end)
  {
    GapAt(events, seed, i);
    OffsetAt(events, seed, i);
  }

  /** Where the pass writes nothing, the last target window stays. */
  lemma GapSkipped(events: seq<Event>, seed: Region, i: nat)
    requires Projectable(events, seed) && i < |events| && !Projects(events, i)
    ensures LastEnd(events, seed, i + 1) == LastEnd(events, seed, i)
  {
    assert Gaps(events)[i] == GapOf(events, i);
  }

  /** The body of the projecting branch: build `newTargetItem`, and the row
      with `prediction`, the days the new window ends after the base window. */
  method ProjectOne(event: Event, lastTargetItem: Region, previousBaseItem: Region)
    returns (newTargetItem: Region, row: Row)
    requires CanProject(lastTargetItem, event.baseRegion, previousBaseItem)
    ensures newTargetItem == NewTarget(lastTargetItem, event.baseRegion, previousBaseItem)
    ensures DayNumber(newTargetItem.end) ==
      DayNumber(lastTargetItem.end) + DayNumber(event.baseRegion.end) - DayNumber(previousBaseItem.end)
    ensures row == PredictedRow(event, Prediction(event.baseRegion, newTargetItem))
  {
    var baseRegion := event.baseRegion;
    newTargetItem := NewTarget(lastTargetItem, baseRegion, previousBaseItem);
    var prediction := Prediction(baseRegion, newTargetItem);
    ProjectionDays(lastTargetItem, baseRegion, previousBaseItem);
    row := PredictedRow(event, prediction);
  }

  /** The days of one projection: the new window ends as many days after
      `last` as the base window ends after the previous one, and the row's
      offset is how far it ends after the base window. */
  lemma ProjectionDays(last: Region, baseRegion: Region, previousBase: Region)
    requires CanProject(last, baseRegion, previousBase)
    ensures var t := NewTarget(last, baseRegion, previousBase);
      DayNumber(t.end) == DayNumber(last.end) + DayNumber(baseRegion.end) - DayNumber(previousBase.end) &&
      Prediction(baseRegion, t) == DayNumber(t.end) - DayNumber(baseRegion.end) &&
      Supported(DayNumber(baseRegion.start) + Prediction(baseRegion, t))
  {
  }
}
