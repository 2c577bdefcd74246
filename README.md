# garupa-events: the release-date comparison table

This project models how garupa-events builds its comparison table. The table
lines up the events of the game "BanG Dream! Girls Band Party" in a base
region, Japan by default, against their release in a target region. For
events the target region has not released yet, it predicts when they will
come out there.

Two pages share one algorithm, and one model serves both. They differ only in
the external link of a row and in the final row order. The model is in Dafny;
dates are day numbers on the proleptic Gregorian calendar.

- **Calendar**: converts between civil dates and day numbers, counted from
  1970-01-01. It stands in for `Date.parse` and the `getUTC*` getters.
- **DateText**: the `YYYY-MM-DD` text. It covers `Number.prototype.toString`,
  `padZero` and the `${yyyy}-${mm}-${dd}` template, with well-formedness and
  parsing.
- **JsDate**: `parseDate`, `diffDate` and `addDate` on strings anchored at
  midnight UTC+09:00. It includes the `Date` range limit, beyond which
  `padZero` throws.
- **Data, Comparison, Links**: the `data.json` records, and `getDiffs` with
  `decorateByDuration`. Links holds `getNoticeUrl` and the two link rules: the
  static page falls back to the notice URLs, the root page uses only `linkId`.
- **Correlation**: `yieldEventData`, a generator loop.
  - It stops for good at the first event with no base window.
  - On the static page it also stops, with an error, at a link that throws.
- **Rows**: the two row builders, as payloads in place of the markup.
  - The observed row keeps its two guards.
  - The predicted row shows `addDate(baseRegion.start, diff) + "?"`.
- **Seed**: the first pass. It writes a row at the index of every event with a
  target window. It also keeps `lastTargetItem`: the target window with the
  latest start, the first one on a tie.
- **Projection**: the second pass. Every later event without a target window
  gets a synthetic window.
  - The synthetic window is laid `blank` days after `lastTargetItem.end`,
    where `blank` is the gap since the previous base window.
  - It is as long as the base window, and it becomes the new
    `lastTargetItem`.
  - The prediction is the number of days the synthetic window ends after the
    base window.
- **Table**: the page handler.
  - It runs the first pass, throws "No last event" when there is no seed, then
    runs the second pass.
  - It appends the rows reversed on the static page and in order on the root
    page.
  - It models the length of the JavaScript array filled by index.

The passes are imperative methods with loop invariants, and each is proved
against a specification function: `Events`, `LastTarget` and `AfterRows` for
the first pass, `BeforeRow` for the second, and `TableRows` for the handler.
The lemmas then prove what the code promises about those functions.

## Model

| member | source | states |
|---|---|---|
| `Calendar.DaysInMonth` | static/index.js:337-338 | A month has 28 to 31 days, and 29 exactly in February of a leap year. |
| `Calendar.CivilFromDays` | static/index.js:335-338 | The UTC getters read off a valid calendar date whose day number is the given one. |
| `Calendar.CivilRoundTrip` | static/index.js:335-338 | Taking a valid date to its day number and back gives the same date. |
| `Calendar.DaysFromCivilInjective` | static/index.js:356-358 | Two valid dates with the same day number are the same date. |
| `Calendar.YearRange` | static/index.js:336 | A date's year lies between two years exactly when its day number lies between their January firsts. |
| `DateText.NatToStringDigits` | static/index.js:348 | `toString()` of a non-negative integer is a string of decimal digits denoting it, with no leading zero unless the number is zero. |
| `DateText.IntToStringDigits` | static/index.js:348 | `toString()` of an integer starts with a minus sign exactly when it is negative; the rest is decimal digits denoting its absolute value. The year in `${yyyy}` at line 339 is written the same way. |
| `DateText.ZerosAreZeros` | static/index.js:349 | `"0".repeat(n)` is `n` characters, all of them `0`. |
| `DateText.PadZero` | static/index.js:347-350 | `padZero` succeeds exactly when the number's text fits in `length`, and then returns exactly `length` characters. Otherwise `repeat` gets a negative count and throws. |
| `DateText.PadZeroContents` | static/index.js:347-350 | A successful `padZero` ends with the number's text and holds only `0` before it. |
| `DateText.ParseCivilDigits` | static/index.js:357 | The date `Date.parse` reads from `YYYY-MM-DD` is the decimal values of the three digit groups: a year of 0 to 9999, a month and a day of 0 to 99. |
| `DateText.PadZeroTwo` | static/index.js:347-350 | `padZero(n, 2)` of a number below 100 is its two decimal digits. |
| `DateText.FourDigits` | static/index.js:336-339 | `${yyyy}` of a four-digit year is its four decimal digits. |
| `DateText.FormatCivil` | static/index.js:336-339 | The date template succeeds for every valid date. |
| `DateText.FormatDigits` | static/index.js:336-339 | For a four-digit year, the template writes the eight decimal digits of year, month and day in place around two `-`. |
| `DateText.FormatWellFormed` | static/index.js:336-339 | For a four-digit year, the template writes a well-formed `YYYY-MM-DD` string that names that date. |
| `DateText.FormatParse` | static/index.js:334-358 | For a year of four digits, 1000 to 9999, formatting the date a well-formed string names gives the same string back. |
| `DateText.UnpaddedYear` | static/index.js:339 | `${yyyy}` of the year 999 writes three digits: the template gives `"999-01-01"`, which is not of the `YYYY-MM-DD` shape. |
| `DateText.ParseInjective` | static/index.js:356-358 | Two well-formed strings naming the same date are the same string. |
| `JsDate.ParseDate` | static/index.js:356-358 | `parseDate` is midnight at UTC+09:00: nine hours later it is a whole number of days since the epoch, namely the string's day number. |
| `JsDate.ParseDateMidnight` | static/index.js:356-358 | The UTC date of that midnight plus nine hours is the date the string names. |
| `JsDate.DayNumberDate` | static/index.js:357 | The day number `Date.parse` gives a well-formed string counts back to exactly the date the string names. |
| `JsDate.DiffDate` | static/index.js:363-366 | `diffDate` divides exactly: its result is the difference of the day numbers. |
| `JsDate.FormatUtc` | static/index.js:335-339 | Formatting a time value succeeds exactly within the 8.64e15 ms range of `Date`. |
| `JsDate.AddDate` | static/index.js:334-340 | `addDate` succeeds exactly when the target day is within the range of `Date`. |
| `JsDate.AddDateTime` | static/index.js:335 | The time value `addDate` builds is midnight UTC of the day `diff` days after the date. |
| `JsDate.SupportedYear` | static/index.js:336 | A day is in the supported range exactly when its year has four digits. |
| `JsDate.FormatDay` | static/index.js:336-339 | A day of a four-digit year is written as a well-formed string on that day. |
| `JsDate.FormatUtcDay` | static/index.js:335-339 | A time value on a supported day is written as a well-formed string on that day. |
| `JsDate.AddDateRoundTrip` | static/index.js:334-340 | For a target day in a year of four digits, 1000 to 9999, `addDate` lands on the day `diff` days later and writes it zero-padded and well-formed. |
| `JsDate.ShiftDate` | static/index.js:334-340 | `addDate` where its result is read back: a well-formed string on the shifted day. |
| `JsDate.SameDaySameString` | static/index.js:339 | Two well-formed strings on the same day are the same string. |
| `JsDate.AddDateZero` | static/index.js:334-340 | For a year of four digits, 1000 to 9999, `addDate(d, 0)` is `d`. |
| `JsDate.DiffAddDate` | static/index.js:334-366 | For a target day in a year of four digits, 1000 to 9999, `diffDate({start: d, end: addDate(d, n)})` is `n`. |
| `JsDate.AddDateSameDay` | static/index.js:334-340 | `addDate` depends only on the day it lands on, the error cases included. |
| `Comparison.GetDiffs` | static/index.js:171-176 | The durations count both ends of each window, and `diff` is the signed offset between the two starts. |
| `Comparison.DurationsPositive` | static/index.js:172-173 | A duration is at least 1 exactly when the window does not end before it starts, and it is 1 for a one-day window. |
| `Comparison.GetDiffsSwap` | static/index.js:171-176 | Swapping the windows swaps the durations and negates the offset. |
| `Comparison.DecorateByDuration` | static/index.js:244-252 | No class when the durations are equal, "excess" exactly when the target runs longer, "under" exactly when it runs shorter. |
| `Comparison.DecorateSwap` | static/index.js:244-252 | Seen from the other region, "excess" becomes "under". |
| `Links.NoticeUrl` | static/index.js:285-295 | No URL without a truthy notice id. With one, Japan gets the official notice URL and any other region throws "noticeId not supported for <region>". |
| `Links.StaticLink` | static/index.js:311-313 | The wiki URL when `linkId` is truthy. Otherwise the target's notice URL, falling back to the base's; the link throws exactly when the notice URL consulted throws. |
| `Links.RootLink` | index.js:228 | `linkId && baseLinkUrl + linkId`: truthy exactly when `linkId` is, and otherwise `linkId` itself. |
| `Links.ExternalLink` | static/index.js:311-313 | The link of a generator step on either page: never throws on the root page (index.js:228), and succeeds with the wiki URL whenever `linkId` is truthy. On the static page it is the static rule, on the root page the root rule. |
| `Correlation.BreakFrom` | static/index.js:303-308 | The generator's break after position `i` is the first position without a base window. |
| `Correlation.StopFrom` | static/index.js:303-315 | The generator stops after position `i` at its break or at the first link that throws, whichever comes first. |
| `Correlation.Events` | static/index.js:302-327 | The yielded events are exactly positions 0 to k-1, each yielded as `EventAt`. The stream ends with no error exactly when k is the break, and otherwise with the error of the link at k. |
| `Correlation.EventAtContents` | static/index.js:309-324 | The event at position `j` carries index `j`, the link the page's rule gives the entry, and both windows; `diffs` is `getDiffs` of the two windows whenever present. |
| `Correlation.EventsWellFormed` | static/index.js:302-327 | Every yielded event carries its own position, and its windows can be read. |
| `Correlation.EventsPrefix` | static/index.js:303-308 | Every yielded position has a base window. A stream that ends without an error ends at a position without one; one that ends with an error ends at a position with a base window. |
| `Correlation.RootEventsComplete` | index.js:217-236 | The root page's generator never throws and yields every position before the break. |
| `Correlation.YieldEventData` | static/index.js:302-327 | The generator loop yields exactly `Events` and stops with its error. |
| `Rows.ObservedRow` | static/index.js:208-239 | Throws "Target region data is required" without a target window and "Diff data is required" without diffs. Otherwise the row carries the event's index, link, base and target windows, diffs, and the duration class `decorateByDuration` gives the diffs. |
| `Rows.ObservedRowOfStream` | static/index.js:208-239 | Neither guard fires on a yielded event with a target window, and the row is marked "excess" exactly when the target window runs longer. |
| `Rows.PredictedRow` | static/index.js:258-279 | The predicted row carries the event's index, link and base window, the inclusive base duration and the offset. Its date is a well-formed day `diff` days after the base start, followed by `?`. |
| `Rows.PredictedRowShows` | static/index.js:275 | The shown date is exactly the well-formed string of the projected day, followed by `?`. |
| `Seed.SeedIndex` | static/index.js:61-69 | The seed position after `n` events is one of them, and it has a target window. |
| `Seed.SeedNone` | static/index.js:55-71 | There is no seed exactly when none of the events seen has a target window. |
| `Seed.NoLastTarget` | static/index.js:41-43 | `lastTargetItem` is null after the first pass exactly when no yielded event has a target window. |
| `Seed.SeedIsFirstLatest` | static/index.js:64-66 | The seed's start is the latest, and every earlier target window starts strictly before it, so the first window wins a tie. |
| `Seed.SeedUnique` | static/index.js:64-66 | The first window with the latest start is the seed. |
| `Seed.AfterStep` | static/index.js:62-67 | One step of the first pass replaces `lastTargetItem` exactly when there was none, or the new window starts strictly later. |
| `Seed.AfterRowStep` | static/index.js:67 | One step of the first pass changes only slot `index`, and only when the event has a target window. |
| `Seed.CreateRowsAfterTargetArea` | static/index.js:55-71 | The first pass returns the stream's error, `LastTarget` as `lastTargetItem`, and `AfterRows`: an observed row at exactly the yielded indices with a target window. |
| `Seed.ObserveTargets` | index.js:27-35 | The first loop leaves `LastTarget` and `AfterRows`. |
| `Projection.ProjectsCondition` | static/index.js:83-84 | At a yielded position the second pass writes exactly when the entry has no target window and the entry before it has a base window. The `lastTargetItem` conjunct is always true there. |
| `Projection.NewTarget` | static/index.js:85-92 | The synthetic window starts `blank` days after `lastTargetItem.end` and is as long as the base window. |
| `Projection.Prediction` | static/index.js:94-95 | `diff + durationTarget - durationBase` is how many days the synthetic window ends after the base window. |
| `Projection.PredictionIsDiff` | static/index.js:85-95 | Both durations of the synthetic comparison agree, so the prediction is the plain `diff` of the starts. |
| `Projection.LastAfter` | static/index.js:88-98 | `lastTargetItem` after `n` steps of the second pass ends on the day the day-level fold `EndDay` computes. |
| `Projection.BeforeRowIs` | static/index.js:81-100 | After `n` steps, slot `j` holds the projected row exactly when `j < n` and the pass writes there; every other slot keeps what it held. |
| `Projection.OffsetAt` | static/index.js:85-98 | A projection moves the last end by the offset of the two base ends, and the offset is the new last end minus the base end. |
| `Projection.ProjectedRowOffset` | static/index.js:94-96 | The written row's prediction is the source's formula over `getDiffs(baseRegion, newTargetItem)`, which equals that `diff`. |
| `Projection.ProjectedRowLag` | static/index.js:85-95 | The prediction is how many days the last target window ended after the previous base window. |
| `Projection.ProjectedRowDate` | static/index.js:275 | The date the predicted row shows is the synthetic window's start, followed by `?`. |
| `Projection.OffsetHolds` | static/index.js:81-100 | Two consecutive written positions have the same projected offset. |
| `Projection.PredictionHolds` | static/index.js:81-100 | Along a run of events without target windows every prediction is the same: the offset is carried forward. |
| `Projection.ProjectionExample` | static/index.js:85-98 | From a last end of 2024-01-20, a previous base end of 2024-02-01 and a base window from 2024-02-05 to 2024-02-15, the window is 2024-01-24 to 2024-02-03 and the prediction is -12. |
| `Projection.CreateRowsBeforeTargetArea` | static/index.js:80-101 | The second pass returns the stream's error, and leaves every slot as `BeforeRow` says. |
| `Projection.ProjectMissing` | index.js:41-60 | The second loop leaves every slot as `BeforeRow` says. |
| `Projection.ProjectStep` | static/index.js:82-99 | One loop body writes at most slot `index`, and moves `lastTargetItem` to the next end. |
| `Projection.PreviousBaseItem` | static/index.js:83 | `data[index - 1] && data[index - 1].region[baseArea]` is the previous event's base window, and nothing at index 0. |
| `Projection.ProjectAt` | static/index.js:84-99 | The step writes the projected row exactly where the pass writes, and moves `lastTargetItem` to the next end. |
| `Projection.ProjectionFits` | static/index.js:85-92 | A projection from the loop's regions stays in the supported years. |
| `Projection.ProjectOne` | static/index.js:85-98 | One projection returns `NewTarget` and the predicted row with its prediction. |
| `Projection.ProjectionDays` | static/index.js:85-95 | The synthetic window ends as far after the last end as the base window ends after the previous one; the shown date stays supported. |
| `Table.SlotIs` | static/index.js:61-98 | The passes write disjoint slots. A slot holds the observed row when its event has a target window, the projected row when a later event has none, and nothing only at index 0 without a target window or past the stream. |
| `Table.Reverse` | static/index.js:47 | `slice().reverse()` puts element `k` at position `n - 1 - k`. |
| `Table.TableAt` | static/index.js:47 | The table has one slot per yielded event. The static page shows the last event first; the root page, at index.js:62, shows the first event first. |
| `Table.TableHoles` | static/index.js:80-101 | With a seed there is at least one event, the only empty slot is index 0 without a target window, and the last event's slot always holds a row. |
| `Table.TableStreamError` | static/index.js:39 | A link that throws in the first pass ends the handler with its error. |
| `Table.TableNoLastEvent` | static/index.js:41-43 | Otherwise the handler throws exactly when no yielded event has a target window, and then with "No last event". |
| `Table.TableLength` | static/index.js:39-47 | On success, one slot per yielded event, at least one. |
| `Table.RootTableOutcome` | index.js:27-39 | The root page fails only with "No last event". |
| `Table.WrittenLength` | static/index.js:47 | The length of an array filled by index is one past its last written slot. |
| `Table.WrittenAreEvents` | static/index.js:45-47 | The array both passes fill is exactly as long as the stream, so the appended rows are the `Slots`. |
| `Table.BothPasses` | static/index.js:45-47 | The second pass over the first pass's rows yields the array the page appends: the `Slots` of the stream. |
| `Table.Render` | static/index.js:39-47 | The handler returns exactly `TableRows`: the stream error, "No last event", or the slots in the page's order. |

## Left out

- Markup and UI: the markup of rows and links (`el`, `wrapAnchor`), the attribute and gacha icons, the `l10n` and `lang` tables, the select boxes and `nameHead`. A row is a payload of index, windows, durations, dates and offset.
- `getComparisonAreas` and `getComparisonBaseTarget` read URL parameters; the two regions are parameters of the model.
- The `fetch` of `data.json` and the `DOMContentLoaded` wiring: the data is an input sequence, and a thrown error is a `Failure` result.
- The `meta` and `type` fields of an event and the display languages: they feed only the markup.
- Floating point: `diffDate` divides milliseconds as a JavaScript number. For well-formed dates the division is exact, so it is modelled on integers.
- Malformed dates: the code turns them into NaN rather than an error. `Correlation.DataWellFormed` is a precondition instead, asking every window before the break to hold well-formed dates.
- `Projection.CreateRowsBeforeTargetArea`: requires every synthetic window to lie in the years 1000 to 9999. Outside them `addDate` writes a year without four digits, which `parseDate` does not read back; that case is not modelled.
- `DateText.FormatParse`, `JsDate.AddDateRoundTrip`, `JsDate.AddDateZero`, `JsDate.DiffAddDate`: stated only for years 1000 to 9999. `${yyyy}` writes the year without padding, so below 1000 the text is not `YYYY-MM-DD`: `addDate("0999-01-01", 0)` gives `"999-01-01"`, and the round trips fail in the source itself.
- `Table.Render`: requires the same projection range for the seed the first pass finds.
- `Table.TableRows`: its precondition is the same projection range.
- The generator is collected into a sequence before use. Both passes walk the same stream, and a throw ends the handler before anything is appended, so the interleaving cannot be observed.
- The second pass cannot meet the stream error: the first pass has already thrown it. `Projection.CreateRowsBeforeTargetArea` still returns it.
- The `lastTargetItem` conjunct of the second pass's condition is always a region, so it is not modelled as a test.
- The rows array is an `array` of `Option` sized to the data. The JavaScript array's length is modelled by `Table.WrittenLength`.
- A hole at index 0 stays `None` in the appended sequence. What `append` does with the `undefined` a spread hole gives is DOM behaviour outside the model.
- `Projection.ProjectMissing` keeps only the end day of `lastTargetItem` in its invariant. No later step reads its start, and the rows it writes are fully specified.
- scripts/japan/index.js and scripts/global/index.js are not part of this model: they fetch pages, write files and merge feeds.
- static/types.d.ts and types.d.ts are type declarations. The record shapes follow static/types.d.ts.
