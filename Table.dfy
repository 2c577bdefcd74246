/** The page handlers: the first pass, the check for a last target window, the
    second pass, and the rows appended to the table body. The static page
    appends them in reverse order, the root page in data order. */
module Table {
  import opened Wrappers
  import opened Data
  import opened Links
  import opened Correlation
  import opened Rows
  import opened Seed
  import opened Projection

  /** The second pass from the seed the first pass finds stays in the modelled years. */
  predicate SeedInRange(data: seq<Schema>, base: Area, target: Area, page: Page)
    requires DataWellFormed(data, base, target)
  {
    EventsWellFormed(data, base, target, page);
    var events := Events(data, base, target, page).events;
    var seed := LastTarget(events, |events|);
    seed.Some? ==> Projectable(events, seed.value)
  }

  /** Slot `j` of `rows` after both passes, the second one starting from `seed`. */
  function Slot(events: seq<Event>, seed: Region, j: nat): Option<Row>
    requires Projectable(events, seed)
  {
    BeforeRow(events, seed, |events|, j, AfterRow(events, |events|, j))
  }

  /** The two passes write disjoint slots: an event with a target window keeps
      the row of the first pass, every later event without one gets its
      projected row, and a slot holds nothing only when it is past the stream
      or belongs to a first event without a target window. */
  lemma SlotIs(events: seq<Event>, seed: Region, j: nat)
    requires Projectable(events, seed)
    ensures Slot(events, seed, j) ==
      if j >= |events| then None
      else if events[j].targetRegion.Some? then Some(ObservedAt(events, j))
      else if j >= 1 then Some(ProjectedRow(events, seed, j))
      else None
  {
    BeforeRowIs(events, seed, |events|, j, AfterRow(events, |events|, j));
  }

  /** `s` read from its end. */
  function Reverse<T>(s: seq<T>): (r: seq<T>)
    ensures |r| == |s|
    ensures forall k :: 0 <= k < |s| ==> r[k] == s[|s| - 1 - k]
  {
    if s == [] then [] else Reverse(s[1..]) + [s[0]]
  }

  /** The slots of the yielded events, in data order. */
  function Slots(events: seq<Event>, seed: Region): seq<Option<Row>>
    requires Projectable(events, seed)
  {
    seq(|events|, j => if 0 <= j then Slot(events, seed, j) else None)
  }

  /** The slots of the yielded events, in the order the page appends them. */
  function PageOrder(events: seq<Event>, seed: Region, page: Page): seq<Option<Row>>
    requires Projectable(events, seed)
  {
    if page == StaticPage then Reverse(Slots(events, seed)) else Slots(events, seed)
  }

  /** The table holds one slot per yielded event; the static page shows the
      last event first, the root page the first event first. */
  lemma TableAt(events: seq<Event>, seed: Region, page: Page, k: nat)
    requires Projectable(events, seed) && k < |events|
    ensures |PageOrder(events, seed, page)| == |events|
    ensures PageOrder(events, seed, page)[k] ==
      Slot(events, seed, if page == StaticPage then |events| - 1 - k else k)
  {
  }

  /** With a seed there is at least one event, and the only slot without a row
      is that of a first event without a target window. The last event's slot
      always holds a row, so no slot past the stream is part of the table. */
  lemma TableHoles(events: seq<Event>, seed: Region)
    requires Projectable(events, seed) && LastTarget(events, |events|) == Some(seed)
    ensures |events| >= 1
    ensures forall j :: 0 <= j < |events| ==>
      (Slot(events, seed, j).None? <==> j == 0 && events[0].targetRegion.None?)
    ensures Slot(events, seed, |events| - 1).Some?
  {
    var starts := TargetStarts(events);
    SeedNone(starts, |events|);
    SeedIsFirstLatest(starts, |events|);
    forall j | 0 <= j < |events|
      ensures Slot(events, seed, j).None? <==> j == 0 && events[0].targetRegion.None?
    {
      SlotIs(events, seed, j);
    }
  }

  /** What the handler appends, or the error it throws: the stream's error, then
      "No last event" when no yielded event has a target window. */
  function TableRows(data: seq<Schema>, base: Area, target: Area, page: Page): Result<seq<Option<Row>>>
    requires DataWellFormed(data, base, target) && SeedInRange(data, base, target, page)
  {
    EventsWellFormed(data, base, target, page);
    var s := Events(data, base, target, page);
    if s.error.Some? then Failure(s.error.value)
    else match LastTarget(s.events, |s.events|)
      case None => Failure("No last event")
      case Some(seed) => Success(PageOrder(s.events, seed, page))
  }

  /** The handler throws the stream's error if the stream stops at a link that throws. */
  lemma TableStreamError(data: seq<Schema>, base: Area, target: Area, page: Page)
    requires DataWellFormed(data, base, target) && SeedInRange(data, base, target, page)
    requires Events(data, base, target, page).error.Some?
    ensures TableRows(data, base, target, page) == Failure(Events(data, base, target, page).error.value)
  {
  }

  /** With the whole stream yielded, the handler throws exactly when no yielded
      event has a target window, and then with "No last event". */
  lemma TableNoLastEvent(data: seq<Schema>, base: Area, target: Area, page: Page)
    requires DataWellFormed(data, base, target) && SeedInRange(data, base, target, page)
    requires Events(data, base, target, page).error.None?
    ensures var events := Events(data, base, target, page).events;
      TableRows(data, base, target, page).Failure? <==>
        forall j :: 0 <= j < |events| ==> events[j].targetRegion.None?
    ensures TableRows(data, base, target, page).Failure? ==>
      TableRows(data, base, target, page).error == "No last event"
  {
    EventsWellFormed(data, base, target, page);
    NoLastTarget(Events(data, base, target, page).events);
  }

  /** On success the handler shows one slot per yielded event, at least one. */
  lemma TableLength(data: seq<Schema>, base: Area, target: Area, page: Page)
    requires DataWellFormed(data, base, target) && SeedInRange(data, base, target, page)
    requires TableRows(data, base, target, page).Success?
    ensures |TableRows(data, base, target, page).value| == |Events(data, base, target, page).events| >= 1
  {
    EventsWellFormed(data, base, target, page);
    var events := Events(data, base, target, page).events;
    TableHoles(events, LastTarget(events, |events|).value);
  }

  /** The root page never throws from the stream: it fails only for want of a
      target window. */
  lemma RootTableOutcome(data: seq<Schema>, base: Area, target: Area)
    requires DataWellFormed(data, base, target) && SeedInRange(data, base, target, RootPage)
    ensures TableRows(data, base, target, RootPage).Failure? ==>
      TableRows(data, base, target, RootPage).error == "No last event"
  {
    RootEventsComplete(data, base, target);
  }

  /** The length of a JavaScript array written only at the slots holding `Some`:
      one past the last written slot. */
  method WrittenLength<T>(rows: array<Option<T>>) returns (n: nat)
    ensures n <= rows.Length
    ensures n == 0 || rows[n - 1].Some?
    ensures forall j :: n <= j < rows.Length ==> rows[j].None?
  {
    n := rows.Length;
    while n > 0 && rows[n - 1].None?
      invariant n <= rows.Length
      invariant forall j :: n <= j < rows.Length ==> rows[j].None?
    {
      n := n - 1;
    }
  }

  /** The page handler: `createRowsAfterTargetArea`, the "No last event" check,
      `createRowsBeforeTargetArea`, then `rows.slice().reverse()` on the static
      page and `rows` itself on the root page. */
  method Render(data: seq<Schema>, base: Area, target: Area, page: Page)
    returns (r: Result<seq<Option<Row>>>)
    requires DataWellFormed(data, base, target) && SeedInRange(data, base, target, page)
    ensures r == TableRows(data, base, target, page)
  {
    var error, lastTargetItem, rows := CreateRowsAfterTargetArea(data, base, target, page);
    if error.Some? {
      return Failure(error.value);
    }
    if lastTargetItem.None? {
      return Failure("No last event");
    }
    ghost var events := Events(data, base, target, page).events;
    var shown := BothPasses(data, base, target, page, events, lastTargetItem.value, rows);
    r := Success(if page == StaticPage then Reverse(shown) else shown);
  }

  /** The second pass over the rows the first pass left, and the array as the
      page sees it: as long as the stream, every slot as both passes leave it. */
  method BothPasses(data: seq<Schema>, base: Area, target: Area, page: Page,
                    ghost events: seq<Event>, lastTargetItem: Region, rows: array<Option<Row>>)
    returns (shown: seq<Option<Row>>)
    requires DataWellFormed(data, base, target) && events == Events(data, base, target, page).events
    requires Projectable(events, lastTargetItem) && LastTarget(events, |events|) == Some(lastTargetItem)
    requires rows[..] == AfterRows(events, |events|, |data|)
    modifies rows
    ensures shown == Slots(events, lastTargetItem)
  {
    ghost var after := rows[..];
    var _ := CreateRowsBeforeTargetArea(data, base, target, page, lastTargetItem, rows);
    SlotsWritten(events, lastTargetItem, after, rows);
    var n := WrittenLength(rows);
    WrittenAreEvents(events, lastTargetItem, rows, n);
    shown := rows[..n];
  }

  /** After both passes every slot of `rows` is its `Slot`. */
  lemma SlotsWritten(events: seq<Event>, seed: Region, after: seq<Option<Row>>, rows: array<Option<Row>>)
    requires Projectable(events, seed)
    requires after == AfterRows(events, |events|, |after|)
    requires |after| == rows.Length
    requires forall j :: 0 <= j < rows.Length ==> rows[j] == BeforeRow(events, seed, |events|, j, after[j])
    ensures forall j :: 0 <= j < rows.Length ==> rows[j] == Slot(events, seed, j)
  {
  }

  /** The array written by both passes is exactly as long as the stream. */
  lemma WrittenAreEvents(events: seq<Event>, seed: Region, rows: array<Option<Row>>, n: nat)
    requires Projectable(events, seed) && LastTarget(events, |events|) == Some(seed)
    requires |events| <= rows.Length
    requires forall j :: 0 <= j < rows.Length ==> rows[j] == Slot(events, seed, j)
    requires n <= rows.Length && (n == 0 || rows[n - 1].Some?)
    requires forall j :: n <= j < rows.Length ==> rows[j].None?
    ensures n == |events| && rows[..n] == Slots(events, seed)
  {
    TableHoles(events, seed);
    if n > |events| {
      SlotIs(events, seed, n - 1);
    }
    assert rows[..n] == Slots(events, seed);
  }
}
