/** The "current → next" line shown for a pending bump. */
module DisplayUpdate {
  import opened Wrappers
  import opened Text
  import opened UpdateTypes
  import NextVersion

  const Arrow: string := " \U{2192} "

  /** `display_update`: the current version verbatim, an arrow, then the bumped version. */
  function Display(current: string, t: UpdateType): (r: Result<string>)
    ensures r.Ok? <==> NextVersion.Bumpable(current, t)
    ensures r.Ok? ==> StartsWith(r.value, current + Arrow)
    ensures r.Ok? ==> r.value[|current + Arrow|..] == NextVersion.Next(current, t)
    ensures r.Err? ==> r == NextVersion.TryNext(current, t)
  {
    var next :- NextVersion.TryNext(current, t);
    Ok(current + Arrow + next)
  }
}
