/**
 * The bonus schedule as it arrives from the challenge create/update form:
 * one form key "first_blood_bonus[i]" per rank, read in index order until
 * the first missing index, a blank value meaning "no bonus for this rank",
 * then trailing "no bonus" entries popped off the end.
 */
module BonusForm {
  import opened Options
  import opened Decimal

  /** Bonus points per rank (index 0 is the 1st solver); None is "no bonus". */
  type Schedule = seq<Option<int>>

  /**
   * A submitted form value: the empty string, a value int() accepts (a JSON
   * number or a numeric string, already converted), or any other text.
   */
  datatype FormValue = Blank | Number(n: int) | Text(s: string)

  type FormData = map<string, FormValue>

  /** NotAnInteger: int() rejected entry `index`; NoBonusLeft: nothing was left to index with [-1]. */
  datatype ParseError = NotAnInteger(index: nat) | NoBonusLeft

  const Prefix: string := "first_blood_bonus"

  /** The form key of the i-th schedule entry. */
  function Key(i: nat): (k: string)
    ensures StartsWith(k, Prefix)
  {
    Prefix + "[" + NatToString(i) + "]"
  }

  predicate StartsWith(s: string, p: string) { |p| <= |s| && s[..|p|] == p }

  /** Whether any form key starts with the schedule prefix. */
  predicate MentionsSchedule(data: FormData) { exists k :: k in data && StartsWith(k, Prefix) }

  /** The non-schedule part of a form: every key not starting with the prefix. */
  function Settable(data: FormData): (r: FormData)
    ensures forall k :: k in r <==> k in data && !StartsWith(k, Prefix)
    ensures forall k :: k in r ==> r[k] == data[k]
  {
    map k | k in data && !StartsWith(k, Prefix) :: data[k]
  }

  /** A schedule entry: blank is no bonus, a number is that bonus. */
  function Entry(v: FormValue): (r: Option<int>)
    requires !v.Text?
    ensures r.None? <==> v.Blank?
  {
    if v.Blank? then None else Some(v.n)
  }

  lemma KeyInjective(i: nat, j: nat)
    requires Key(i) == Key(j)
    ensures i == j
  {
    var ki, kj := Key(i), Key(j);
    assert ki[|Prefix| + 1..|ki| - 1] == NatToString(i);
    assert kj[|Prefix| + 1..|kj| - 1] == NatToString(j);
    NatToStringInjective(i, j);
  }

  ghost predicate KeysUpTo(data: FormData, n: nat) { forall j :: 0 <= j < n ==> Key(j) in data }

  /** raw is what the append loop reads: every consecutive entry, none of them text. */
  ghost predicate ReadsAll(data: FormData, raw: Schedule)
  {
    && KeysUpTo(data, |raw|)
    && Key(|raw|) !in data
    && forall j :: 0 <= j < |raw| ==> !data[Key(j)].Text? && raw[j] == Entry(data[Key(j)])
  }

  /** The append loop stops with int() failing at entry n, the first text entry. */
  ghost predicate FailsAt(data: FormData, n: nat)
  {
    && KeysUpTo(data, n + 1)
    && data[Key(n)].Text?
    && forall j :: 0 <= j < n ==> !data[Key(j)].Text?
  }

  /** The schedule with its trailing "no bonus" entries removed. */
  function TrimTrailingNulls(l: Schedule): Schedule
  {
    if l == [] then [] else if l[|l| - 1].None? then TrimTrailingNulls(l[..|l| - 1]) else l
  }

  /** The pop loop's outcome on the entries read. */
  function Finish(raw: Schedule): Result<Option<Schedule>, ParseError>
  {
    var t := TrimTrailingNulls(raw);
    if t == [] then Err(NoBonusLeft) else Ok(Some(t))
  }

  /**
   * The outcome of parsing: Ok(None) when no key mentions the schedule (it is
   * left as it was), the failing index when int() rejects an entry, and
   * otherwise the entries read with trailing blanks trimmed.
   */
  ghost predicate Parses(data: FormData, r: Result<Option<Schedule>, ParseError>)
  {
    if !MentionsSchedule(data) then r == Ok(None)
    else if r.Err? && r.error.NotAnInteger? then FailsAt(data, r.error.index)
    else exists raw :: ReadsAll(data, raw) && r == Finish(raw)
  }

  /** Trimming leaves a prefix that is empty or ends in a bonus, and cuts only blanks. */
  lemma {:induction false} TrimmedShape(l: Schedule)
    ensures var t := TrimTrailingNulls(l);
      && t <= l
      && (t == [] || t[|t| - 1].Some?)
      && forall j :: |t| <= j < |l| ==> l[j].None?
  {
    if l != [] && l[|l| - 1].None? {
      TrimmedShape(l[..|l| - 1]);
    }
  }

  /** Any prefix of that shape is the trimmed schedule. */
  lemma TrimmedUnique(l: Schedule, p: Schedule)
    requires p <= l
    requires p == [] || p[|p| - 1].Some?
    requires forall j :: |p| <= j < |l| ==> l[j].None?
    ensures p == TrimTrailingNulls(l)
  {
    var t := TrimTrailingNulls(l);
    TrimmedShape(l);
    assert p != [] ==> l[|p| - 1] == p[|p| - 1];
    assert t != [] ==> l[|t| - 1] == t[|t| - 1];
  }

  /** A trimmed schedule never ends in "no bonus", and trimming it again changes nothing. */
  lemma TrimIdempotent(l: Schedule)
    ensures var t := TrimTrailingNulls(l); TrimTrailingNulls(t) == t
  {
    var t := TrimTrailingNulls(l);
    TrimmedShape(l);
    TrimmedUnique(t, t);
  }

  /** The append loop's reading of a form is unique. */
  lemma ReadsAllUnique(data: FormData, raw1: Schedule, raw2: Schedule)
    requires ReadsAll(data, raw1) && ReadsAll(data, raw2)
    ensures raw1 == raw2
  {
    assert Key(|raw1|) !in data && Key(|raw2|) !in data;
  }

  /** int() fails at one index at most. */
  lemma FailsAtUnique(data: FormData, n1: nat, n2: nat)
    requires FailsAt(data, n1) && FailsAt(data, n2)
    ensures n1 == n2
  {
    assert data[Key(n1)].Text? && data[Key(n2)].Text?;
  }

  /** A form on which int() fails has no complete reading. */
  lemma NoReadAfterFailure(data: FormData, n: nat, raw: Schedule)
    requires FailsAt(data, n)
    ensures !ReadsAll(data, raw)
  {
    assert Key(n) in data && data[Key(n)].Text?;
    assert forall j :: 0 <= j < n + 1 ==> Key(j) in data;
  }

  /** The form determines the parse outcome. */
  lemma ParsesUnique(data: FormData, r1: Result<Option<Schedule>, ParseError>, r2: Result<Option<Schedule>, ParseError>)
    requires Parses(data, r1) && Parses(data, r2)
    ensures r1 == r2
  {
    forall n1: nat, n2: nat | FailsAt(data, n1) && FailsAt(data, n2) ensures n1 == n2 {
      FailsAtUnique(data, n1, n2);
    }
    forall n: nat, raw | FailsAt(data, n) ensures !ReadsAll(data, raw) {
      NoReadAfterFailure(data, n, raw);
    }
    forall raw1, raw2 | ReadsAll(data, raw1) && ReadsAll(data, raw2) ensures raw1 == raw2 {
      ReadsAllUnique(data, raw1, raw2);
    }
  }

  ghost predicate IsKeyBelow(k: string, i: nat) { exists j :: 0 <= j < i && Key(j) == k }

  lemma KeyNotSeen(seen: set<string>, i: nat)
    requires forall k :: k in seen ==> IsKeyBelow(k, i)
    ensures Key(i) !in seen
  {
    if Key(i) in seen {
      var j :| 0 <= j < i && Key(j) == Key(i);
      KeyInjective(i, j);
    }
  }

  /**
   * Reads first_blood_bonus[0], [1], ... up to the first missing index, then
   * pops trailing blanks; an all-blank or empty list fails on indexing [-1].
   */
  method ParseSchedule(data: FormData) returns (r: Result<Option<Schedule>, ParseError>)
    ensures Parses(data, r)
  {
    var mentioned := exists k | k in data :: StartsWith(k, Prefix);
    if !mentioned {
      return Ok(None);
    }
    var bonus: Schedule := [];
    var i: nat := 0;
    ghost var seen: set<string> := {};
    while Key(i) in data
      invariant |bonus| == i && KeysUpTo(data, i)
      invariant forall j :: 0 <= j < i ==> !data[Key(j)].Text? && bonus[j] == Entry(data[Key(j)])
      invariant seen <= data.Keys
      invariant forall k :: k in seen ==> IsKeyBelow(k, i)
      decreases data.Keys - seen
    {
      var v := data[Key(i)];
      if v.Text? {
        return Err(NotAnInteger(i));
      }
      KeyNotSeen(seen, i);
      bonus := bonus + [Entry(v)];
      seen := seen + {Key(i)};
      i := i + 1;
    }
    ghost var raw := bonus;
    assert ReadsAll(data, raw);
    while true
      invariant TrimTrailingNulls(bonus) == TrimTrailingNulls(raw)
      decreases |bonus|
    {
      if bonus == [] {
        return Err(NoBonusLeft);
      }
      if bonus[|bonus| - 1].Some? {
        break;
      }
      bonus := bonus[..|bonus| - 1];
    }
    return Ok(Some(bonus));
  }
}
