/** `getDiffs` and `decorateByDuration`: how a base window and a target window compare. */
module Comparison {
  import opened Wrappers
  import opened JsDate
  import opened Data

  /** `getDiffs(base, target)`. */
  function GetDiffs(base: Region, target: Region): (d: Diffs)
    requires RegionWellFormed(base) && RegionWellFormed(target)
    ensures d.durationBase == DayNumber(base.end) - DayNumber(base.start) + 1
    ensures d.durationTarget == DayNumber(target.end) - DayNumber(target.start) + 1
    ensures d.diff == DayNumber(target.start) - DayNumber(base.start)
  {
    var durationBase := DiffDate(base.start, base.end) + 1;
    var durationTarget := DiffDate(target.start, target.end) + 1;
    var diff := DiffDate(base.start, target.start);
    Diffs(durationBase, durationTarget, diff)
  }

  /** A window that does not end before it starts lasts at least one day, and
      exactly one when it starts and ends on the same day. */
  lemma DurationsPositive(base: Region, target: Region)
    requires RegionWellFormed(base) && RegionWellFormed(target)
    ensures DayNumber(base.start) <= DayNumber(base.end) <==> GetDiffs(base, target).durationBase >= 1
    ensures DayNumber(target.start) <= DayNumber(target.end) <==> GetDiffs(base, target).durationTarget >= 1
    ensures base.start == base.end ==> GetDiffs(base, target).durationBase == 1
  {
  }

  /** Swapping the two windows swaps the durations and negates the offset. */
  lemma GetDiffsSwap(base: Region, target: Region)
    requires RegionWellFormed(base) && RegionWellFormed(target)
    ensures GetDiffs(target, base) == Diffs(GetDiffs(base, target).durationTarget,
                                            GetDiffs(base, target).durationBase,
                                            -GetDiffs(base, target).diff)
  {
  }

  /** `decorateByDuration`: no class when the durations agree, `excess` when the
      target window runs longer, `under` when it runs shorter. */
  function DecorateByDuration(d: Diffs): (cls: Option<string>)
    ensures cls == None <==> d.durationBase == d.durationTarget
    ensures cls == Some("excess") <==> d.durationBase < d.durationTarget
    ensures cls == Some("under") <==> d.durationBase > d.durationTarget
  {
    if d.durationBase == d.durationTarget then None
    else if d.durationBase < d.durationTarget then Some("excess")
    else Some("under")
  }

  /** Looking at the comparison from the other side turns `excess` into `under` and back. */
  lemma DecorateSwap(base: Region, target: Region)
    requires RegionWellFormed(base) && RegionWellFormed(target)
    ensures DecorateByDuration(GetDiffs(base, target)) == Some("excess")
        <==> DecorateByDuration(GetDiffs(target, base)) == Some("under")
  {
    GetDiffsSwap(base, target);
  }
}
