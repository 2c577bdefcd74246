/** The records of `data.json`, after the declarations `Region`, `Schema` and
    `DateDiffs`: one event with a date window per region. */
module Data {
  import opened Wrappers
  import opened DateText

  /** The keys of `Schema["region"]`. */
  datatype Area = Japan | Taiwan | Korea | Global | China

  /** The key as it is written in the data and in messages. */
  function AreaKey(a: Area): string
  {
    match a
    case Japan => "japan"
    case Taiwan => "taiwan"
    case Korea => "korea"
    case Global => "global"
    case China => "china"
  }

  /** One region's release of an event: its title, an optional notice id, and its window. */
  datatype Region = Region(title: string, noticeId: Option<string>, start: string, end: string)

  /** An event. Japan always has a window; the other regions may have none yet.
      The `meta` and `type` fields only feed the markup and are not modelled. */
  datatype Schema = Schema(
    linkId: Option<string>,
    japan: Region,
    taiwan: Option<Region>,
    korea: Option<Region>,
    global: Option<Region>,
    china: Option<Region>)

  /** `schema.region[area]`, `None` for `null`. */
  function RegionOf(s: Schema, a: Area): Option<Region>
  {
    match a
    case Japan => Some(s.japan)
    case Taiwan => s.taiwan
    case Korea => s.korea
    case Global => s.global
    case China => s.china
  }

  /** JavaScript truthiness of an optional string: present and not empty. */
  predicate Truthy(o: Option<string>)
  {
    o.Some? && o.value != ""
  }

  /** A window whose two dates `parseDate` can read. */
  predicate RegionWellFormed(r: Region)
  {
    WellFormed(r.start) && WellFormed(r.end)
  }

  /** `DateDiffs`: inclusive durations of the two windows and the signed offset of their starts. */
  datatype Diffs = Diffs(durationBase: int, durationTarget: int, diff: int)
}
