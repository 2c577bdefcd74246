/** `yieldEventData`: the generator both passes iterate. It walks the event list
    in order, stops for good at the first event the base region has no window
    for, and computes the external link before it yields, so a link that throws
    ends the iteration with an error in the middle of the list. */
module Correlation {
  import opened Wrappers
  import opened Data
  import opened Comparison
  import opened Links

  /** What the generator yields for one event (display languages, `meta` and `type` left out). */
  datatype Event = Event(
    index: nat,
    externalLink: Option<string>,
    baseRegion: Region,
    targetRegion: Option<Region>,
    diffs: Option<Diffs>)

  /** The yielded events, and the error that ended the iteration if one did. */
  datatype Stream = Stream(events: seq<Event>, error: Option<string>)

  /** The first index at or after `i` whose event has no base window, or `|data|`. */
  function BreakFrom(data: seq<Schema>, base: Area, i: nat): (k: nat)
    requires i <= |data|
    ensures i <= k <= |data|
    ensures forall j :: i <= j < k ==> RegionOf(data[j], base).Some?
    ensures k < |data| ==> RegionOf(data[k], base).None?
    decreases |data| - i
  {
    if i == |data| || RegionOf(data[i], base).None? then i else BreakFrom(data, base, i + 1)
  }

  /** Where the `break` of the generator fires. */
  function BreakIndex(data: seq<Schema>, base: Area): nat
    ensures BreakIndex(data, base) <= |data|
  {
    BreakFrom(data, base, 0)
  }

  /** The first index at or after `i`, before the break, whose link throws, or the break index. */
  function StopFrom(data: seq<Schema>, base: Area, target: Area, page: Page, i: nat): (k: nat)
    requires i <= BreakIndex(data, base)
    ensures i <= k <= BreakIndex(data, base)
    ensures forall j :: i <= j < k ==> ExternalLink(page, data[j], base, target).Success?
    ensures k < BreakIndex(data, base) ==> ExternalLink(page, data[k], base, target).Failure?
    decreases |data| - i
  {
    if i == BreakIndex(data, base) || ExternalLink(page, data[i], base, target).Failure? then i
    else StopFrom(data, base, target, page, i + 1)
  }

  /** How many events the generator yields. */
  function StopIndex(data: seq<Schema>, base: Area, target: Area, page: Page): nat
    ensures StopIndex(data, base, target, page) <= BreakIndex(data, base)
  {
    StopFrom(data, base, target, page, 0)
  }

  /** Every window the generator reads can be parsed: the base window of every
      event before the break, and the target window where there is one. */
  predicate DataWellFormed(data: seq<Schema>, base: Area, target: Area)
  {
    forall j :: 0 <= j < BreakIndex(data, base) ==>
      RegionWellFormed(RegionOf(data[j], base).value) &&
      (RegionOf(data[j], target).Some? ==> RegionWellFormed(RegionOf(data[j], target).value))
  }

  /** The event yielded at position `j`. */
  function EventAt(data: seq<Schema>, base: Area, target: Area, page: Page, j: nat): Event
    requires DataWellFormed(data, base, target)
    requires j < StopIndex(data, base, target, page)
  {
    var b := RegionOf(data[j], base).value;
    var t := RegionOf(data[j], target);
    var diffs := if t.Some? then Some(GetDiffs(b, t.value)) else None;
    Event(j, ExternalLink(page, data[j], base, target).value, b, t, diffs)
  }

  /** Every event the generator can yield: parseable windows, and diffs
      exactly when there is a target window. */
  predicate EventWellFormed(e: Event)
  {
    RegionWellFormed(e.baseRegion) &&
    (e.targetRegion.Some? <==> e.diffs.Some?) &&
    (e.targetRegion.Some? ==> RegionWellFormed(e.targetRegion.value))
  }

  /** A yielded sequence as the passes rely on it: every event well formed and
      carrying its own position as its index. */
  predicate StreamWellFormed(events: seq<Event>)
  {
    (forall j :: 0 <= j < |events| ==> events[j].index == j) &&
    (forall j {:trigger EventWellFormed(events[j])} :: 0 <= j < |events| ==> EventWellFormed(events[j]))
  }

  /** The whole run of the generator. */
  function Events(data: seq<Schema>, base: Area, target: Area, page: Page): (s: Stream)
    requires DataWellFormed(data, base, target)
    ensures |s.events| == StopIndex(data, base, target, page)
    ensures forall j :: 0 <= j < |s.events| ==> s.events[j] == EventAt(data, base, target, page, j)
    ensures s.error.None? <==> |s.events| == BreakIndex(data, base)
    ensures s.error.Some? ==> s.error.value == ExternalLink(page, data[|s.events|], base, target).error
  {
    var k := StopIndex(data, base, target, page);
    var events := seq(k, j requires 0 <= j < k => EventAt(data, base, target, page, j));
    var error := if k < BreakIndex(data, base) then Some(ExternalLink(page, data[k], base, target).error) else None;
    Stream(events, error)
  }

  /** The event yielded at position `j` carries `j` as its index, the link the
      page's rule gives the entry, the entry's base and target windows, and the
      diffs of the two exactly when there is a target window. */
  lemma EventAtContents(data: seq<Schema>, base: Area, target: Area, page: Page, j: nat)
    requires DataWellFormed(data, base, target)
    requires j < StopIndex(data, base, target, page)
    ensures var e := EventAt(data, base, target, page, j);
      e.index == j && EventWellFormed(e) &&
      ExternalLink(page, data[j], base, target) == Success(e.externalLink) &&
      RegionOf(data[j], base) == Some(e.baseRegion) &&
      RegionOf(data[j], target) == e.targetRegion &&
      (e.diffs.Some? ==> e.diffs.value == GetDiffs(e.baseRegion, e.targetRegion.value))
  {
    assert RegionWellFormed(RegionOf(data[j], base).value);
  }

  /** Every yielded event is well formed and carries its own position. */
  lemma EventsWellFormed(data: seq<Schema>, base: Area, target: Area, page: Page)
    requires DataWellFormed(data, base, target)
    ensures StreamWellFormed(Events(data, base, target, page).events)
  {
    var s := Events(data, base, target, page);
    forall j | 0 <= j < |s.events|
      ensures s.events[j].index == j && EventWellFormed(s.events[j])
    {
      EventAtContents(data, base, target, page, j);
    }
  }

  /** The generator yields positions 0, 1, ... in order and stops exactly at the
      first event without a base window, or at a link that throws before it. */
  lemma EventsPrefix(data: seq<Schema>, base: Area, target: Area, page: Page)
    requires DataWellFormed(data, base, target)
    ensures var s := Events(data, base, target, page);
      (forall j :: 0 <= j < |s.events| ==> RegionOf(data[j], base).Some?) &&
      (s.error.None? && |s.events| < |data| ==> RegionOf(data[|s.events|], base).None?) &&
      (s.error.Some? ==> RegionOf(data[|s.events|], base).Some?)
  {
  }

  /** The root page never throws while iterating: it yields everything before the break. */
  lemma RootEventsComplete(data: seq<Schema>, base: Area, target: Area)
    requires DataWellFormed(data, base, target)
    ensures Events(data, base, target, RootPage).error.None?
    ensures |Events(data, base, target, RootPage).events| == BreakIndex(data, base)
  {
    RootStopFrom(data, base, target, 0);
  }

  lemma {:induction false} RootStopFrom(data: seq<Schema>, base: Area, target: Area, i: nat)
    requires i <= BreakIndex(data, base)
    ensures StopFrom(data, base, target, RootPage, i) == BreakIndex(data, base)
    decreases |data| - i
  {
    if i < BreakIndex(data, base) {
      RootStopFrom(data, base, target, i + 1);
    }
  }

  /** An event with a base window at or before the break lies before it, so its windows parse. */
  lemma BeforeBreak(data: seq<Schema>, base: Area, target: Area, i: nat)
    requires DataWellFormed(data, base, target)
    requires i <= BreakIndex(data, base) && i < |data| && RegionOf(data[i], base).Some?
    ensures i < BreakIndex(data, base)
    ensures RegionWellFormed(RegionOf(data[i], base).value)
    ensures RegionOf(data[i], target).Some? ==> RegionWellFormed(RegionOf(data[i], target).value)
  {
  }

  /** Where the generator stops: at the end of the list, at an event without a
      base window (the break), or at a link that throws. */
  lemma Stopped(data: seq<Schema>, base: Area, target: Area, page: Page, i: nat)
    requires i <= StopIndex(data, base, target, page)
    requires i == |data| || RegionOf(data[i], base).None? || ExternalLink(page, data[i], base, target).Failure?
    ensures i == StopIndex(data, base, target, page)
    ensures i == BreakIndex(data, base) <==> i == |data| || RegionOf(data[i], base).None?
  {
  }

  /** The generator goes on past position `i` when the event there has a base
      window and a link that does not throw, and it yields the event it built. */
  lemma Continues(data: seq<Schema>, base: Area, target: Area, page: Page, i: nat, event: Event)
    requires DataWellFormed(data, base, target) && i <= StopIndex(data, base, target, page) && i < |data|
    requires RegionOf(data[i], base).Some? && ExternalLink(page, data[i], base, target).Success?
    requires var b := RegionOf(data[i], base).value;
      var t := RegionOf(data[i], target);
      event == Event(i, ExternalLink(page, data[i], base, target).value, b, t,
                     if t.Some? then Some(GetDiffs(b, t.value)) else None)
    ensures i < StopIndex(data, base, target, page)
    ensures event == EventAt(data, base, target, page, i)
  {
  }

  /** Runs the generator to completion, collecting what it yields. */
  method YieldEventData(data: seq<Schema>, base: Area, target: Area, page: Page) returns (s: Stream)
    requires DataWellFormed(data, base, target)
    ensures s.events == Events(data, base, target, page).events
    ensures s.error == Events(data, base, target, page).error
  {
    var events: seq<Event> := [];
    var error: Option<string> := None;
    var i := 0;
    while i < |data|
      invariant i <= StopIndex(data, base, target, page)
      invariant |events| == i
      invariant forall j :: 0 <= j < i ==> events[j] == EventAt(data, base, target, page, j)
    {
      var baseRegion := RegionOf(data[i], base);
      var targetRegion := RegionOf(data[i], target);
      if baseRegion.None? {
        break;
      }
      BeforeBreak(data, base, target, i);
      var diffs := if targetRegion.Some? then Some(GetDiffs(baseRegion.value, targetRegion.value)) else None;
      var externalLink := ExternalLink(page, data[i], base, target);
      if externalLink.Failure? {
        error := Some(externalLink.error);
        break;
      }
      var event := Event(i, externalLink.value, baseRegion.value, targetRegion, diffs);
      Continues(data, base, target, page, i, event);
      events := events + [event];
      i := i + 1;
    }
    Stopped(data, base, target, page, i);
    s := Stream(events, error);
    assert events == Events(data, base, target, page).events;
  }
}
