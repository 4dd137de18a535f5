/**
 * The rank column of the challenge's solves list (assets/view.js, getSolves):
 * what the row at 0-based position i shows, as a function of i and the bonus
 * schedule. The markup is abstracted into a record: the ordinal shown in bold,
 * the bonus shown as "(+v)" if any, and the CSS class of the medal icon.
 */
module ViewLabels {
  import opened Options
  import opened Ordinal

  datatype RankLabel = RankLabel(ordinal: string, bonus: Option<int>, medal: string)

  /** JavaScript truthiness of a schedule entry: null and 0 are falsy. */
  predicate Truthy(entry: Option<int>) { entry.Some? && entry.value != 0 }

  /** The medal icon class of row i: numbered for the first three rows. */
  function MedalClass(i: nat): (r: string)
    ensures i < 3 ==> r == "award-medal-" + Ordinalize(i + 1)
    ensures i >= 3 ==> r == "award-medal"
  {
    if i < 3 then "award-medal-" + Ordinalize(i + 1) else "award-medal"
  }

  /** The rank label of row i, or nothing when the schedule is shorter than i + 1. */
  function RowLabel(i: nat, schedule: seq<Option<int>>): (r: Option<RankLabel>)
    ensures r.Some? <==> i < |schedule|
    ensures r.Some? ==> r.value.ordinal == Ordinalize(i + 1) && r.value.medal == MedalClass(i)
    ensures r.Some? ==> (r.value.bonus.Some? <==> Truthy(schedule[i]))
    ensures r.Some? && r.value.bonus.Some? ==> r.value.bonus == schedule[i]
  {
    if i < |schedule| then
      var bonus := if Truthy(schedule[i]) then schedule[i] else None;
      Some(RankLabel(Ordinalize(i + 1), bonus, MedalClass(i)))
    else
      None
  }

  /** Rows are labelled exactly up to the schedule's length, each with its own ordinal. */
  lemma {:induction false} LabelledRowsArePrefix(schedule: seq<Option<int>>, i: nat, j: nat)
    requires i < j && RowLabel(j, schedule).Some?
    ensures RowLabel(i, schedule).Some?
    ensures RowLabel(i, schedule).value.ordinal != RowLabel(j, schedule).value.ordinal
  {
    OrdinalizeInjective(i + 1, j + 1);
  }
}
