/** The first pass (`createRowsAfterTargetArea`, or the first loop of the root
    page): a row for every event that already has a target window, and the
    target window that starts last, the earliest one seen on a tie. */
module Seed {
  import opened Wrappers
  import opened JsDate
  import opened Data
  import opened Links
  import opened Correlation
  import opened Rows

  /** The start day of event `j`'s target window, `None` where there is none. */
  function StartOf(events: seq<Event>, j: nat): (start: Option<int>)
    requires StreamWellFormed(events) && j < |events|
    ensures start.Some? <==> events[j].targetRegion.Some?
  {
    assert EventWellFormed(events[j]);
    if events[j].targetRegion.Some? then Some(DayNumber(events[j].targetRegion.value.start)) else None
  }

  /** The start day of each event's target window. */
  function TargetStarts(events: seq<Event>): (starts: seq<Option<int>>)
    requires StreamWellFormed(events)
    ensures |starts| == |events|
    ensures forall j :: 0 <= j < |events| ==> (starts[j].Some? <==> events[j].targetRegion.Some?)
  {
    seq(|events|, j => if 0 <= j < |events| then StartOf(events, j) else None)
  }

  /** The position of `lastTargetItem` after the first `n` start days. A window
      replaces the current one only when it starts strictly later. */
  function SeedIndex(starts: seq<Option<int>>, n: nat): (r: Option<nat>)
    requires n <= |starts|
    ensures r.Some? ==> r.value < n && starts[r.value].Some?
  {
    if n == 0 then None
    else
      var prev := SeedIndex(starts, n - 1);
      var t := starts[n - 1];
      if t.None? then prev
      else if prev.None? || t.value - starts[prev.value].value > 0 then Some(n - 1)
      else prev
  }

  /** `lastTargetItem` after the first `n` events. */
  function LastTarget(events: seq<Event>, n: nat): Option<Region>
    requires n <= |events| && StreamWellFormed(events)
  {
    var i := SeedIndex(TargetStarts(events), n);
    if i.None? then None else events[i.value].targetRegion
  }

  /** Position `i` holds the latest start among the first `n`, and every earlier
      start is strictly before it. */
  predicate FirstLatest(starts: seq<Option<int>>, n: nat, i: nat)
    requires n <= |starts|
  {
    i < n && starts[i].Some? &&
    (forall j :: 0 <= j < n && starts[j].Some? ==> starts[j].value <= starts[i].value) &&
    (forall j :: 0 <= j < i && starts[j].Some? ==> starts[j].value < starts[i].value)
  }

  /** There is no seed exactly when none of the first `n` events has a target window. */
  lemma {:induction false} SeedNone(starts: seq<Option<int>>, n: nat)
    requires n <= |starts|
    ensures SeedIndex(starts, n).None? <==> forall j :: 0 <= j < n ==> starts[j].None?
  {
    if n > 0 {
      SeedNone(starts, n - 1);
    }
  }

  /** The first pass ends without a `lastTargetItem` exactly when no event has a target window. */
  lemma NoLastTarget(events: seq<Event>)
    requires StreamWellFormed(events)
    ensures LastTarget(events, |events|).None? <==> forall j :: 0 <= j < |events| ==> events[j].targetRegion.None?
  {
    SeedNone(TargetStarts(events), |events|);
  }

  /** The seed is the first target window with the latest start. */
  lemma {:induction false} SeedIsFirstLatest(starts: seq<Option<int>>, n: nat)
    requires n <= |starts|
    ensures SeedIndex(starts, n).Some? ==> FirstLatest(starts, n, SeedIndex(starts, n).value)
  {
    if n > 0 {
      SeedIsFirstLatest(starts, n - 1);
      SeedNone(starts, n - 1);
    }
  }

  /** There is only one first latest window, so it characterizes the seed. */
  lemma SeedUnique(starts: seq<Option<int>>, n: nat, i: nat)
    requires n <= |starts|
    requires FirstLatest(starts, n, i)
    ensures SeedIndex(starts, n) == Some(i)
  {
    SeedNone(starts, n);
    SeedIsFirstLatest(starts, n);
  }

  /** The observed row of event `j`, which has a target window. */
  function ObservedAt(events: seq<Event>, j: nat): Row
    requires StreamWellFormed(events) && j < |events| && events[j].targetRegion.Some?
  {
    assert EventWellFormed(events[j]);
    ObservedRow(events[j]).value
  }

  /** Slot `j` of the rows after the first pass over the first `n` events. */
  function AfterRow(events: seq<Event>, n: nat, j: nat): (row: Option<Row>)
    requires n <= |events| && StreamWellFormed(events)
  {
    if j < n && events[j].targetRegion.Some? then Some(ObservedAt(events, j)) else None
  }

  /** The rows after the first pass over the first `n` events, in an array of `len` slots. */
  function AfterRows(events: seq<Event>, n: nat, len: nat): (rows: seq<Option<Row>>)
    requires n <= |events| && StreamWellFormed(events)
  {
    seq(len, j requires 0 <= j < len => AfterRow(events, n, j))
  }

  /** One step of the first pass: what the loop body does to `lastTargetItem`
      and to the rows, stated on the specification. */
  lemma AfterStep(events: seq<Event>, i: nat)
    requires StreamWellFormed(events) && i < |events|
    ensures events[i].targetRegion.None? ==> LastTarget(events, i + 1) == LastTarget(events, i)
    ensures events[i].targetRegion.Some? ==>
      var last := LastTarget(events, i);
      var t := events[i].targetRegion.value;
      RegionWellFormed(t) && (last.Some? ==> RegionWellFormed(last.value)) &&
      LastTarget(events, i + 1) ==
        if last.None? || DiffDate(last.value.start, t.start) > 0 then Some(t) else last
  {
    assert EventWellFormed(events[i]);
    var k := SeedIndex(TargetStarts(events), i);
    if k.Some? {
      assert EventWellFormed(events[k.value]);
    }
  }

  /** One step of the first pass on the rows: only slot `i` can change. */
  lemma AfterRowStep(events: seq<Event>, i: nat, j: nat)
    requires StreamWellFormed(events) && i < |events|
    ensures AfterRow(events, i + 1, j) ==
      if j == i && events[i].targetRegion.Some? then Some(ObservedAt(events, i)) else AfterRow(events, i, j)
  {
  }

  /** `createRowsAfterTargetArea`: the first pass over what the generator
      yields. A throwing link ends the pass after the rows of the events before it. */
  method CreateRowsAfterTargetArea(data: seq<Schema>, base: Area, target: Area, page: Page)
    returns (error: Option<string>, lastTargetItem: Option<Region>, rows: array<Option<Row>>)
    requires DataWellFormed(data, base, target)
    ensures var s := Events(data, base, target, page);
      StreamWellFormed(s.events) &&
      error == s.error &&
      lastTargetItem == LastTarget(s.events, |s.events|) &&
      rows[..] == AfterRows(s.events, |s.events|, |data|)
    ensures fresh(rows)
  {
    var s := YieldEventData(data, base, target, page);
    EventsWellFormed(data, base, target, page);
    lastTargetItem, rows := ObserveTargets(s.events, |data|);
    error := s.error;
  }

  /** The loop of the first pass: each event with a target window gets its row
      at its own index and may replace `lastTargetItem`. */
  method ObserveTargets(events: seq<Event>, len: nat)
    returns (lastTargetItem: Option<Region>, rows: array<Option<Row>>)
    requires StreamWellFormed(events) && |events| <= len
    ensures lastTargetItem == LastTarget(events, |events|)
    ensures rows[..] == AfterRows(events, |events|, len)
    ensures fresh(rows)
  {
    rows := new Option<Row>[len](_ => None);
    lastTargetItem := None;
    var i := 0;
    while i < |events|
      invariant i <= |events| <= rows.Length == len
      invariant lastTargetItem == LastTarget(events, i)
      invariant forall j :: 0 <= j < rows.Length ==> rows[j] == AfterRow(events, i, j)
    {
      var event := events[i];
      assert event.index == i && EventWellFormed(event);
      AfterStep(events, i);
      if event.targetRegion.Some? {
        if lastTargetItem.None? || DiffDate(lastTargetItem.value.start, event.targetRegion.value.start) > 0 {
          lastTargetItem := event.targetRegion;
        }
        var row := ObservedRow(event);
        rows[event.index] := Some(row.value);
      }
      forall j | 0 <= j < rows.Length
        ensures AfterRow(events, i + 1, j) ==
          if j == i && event.targetRegion.Some? then Some(ObservedAt(events, i)) else AfterRow(events, i, j)
      {
        AfterRowStep(events, i, j);
      }
      i := i + 1;
    }
    assert rows[..] == AfterRows(events, |events|, len);
  }
}
