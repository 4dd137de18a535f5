/**
 * The entities of the first-blood plugin and the two pure helpers of the
 * challenge class: the eligibility test (_can_get_award) and the award
 * generator (_gen_award_data).
 */
module Awards {
  import opened Options
  import opened Decimal
  import opened Ordinal
  import opened BonusForm
  import ViewLabels

  type ChallengeId = nat
  type AccountId = nat
  type SolveId = nat

  /**
   * A first-blood challenge: its columns as the create/update forms set them
   * ("name", "state", "type", ...) and its bonus schedule.
   */
  datatype Challenge = Challenge(columns: map<string, FormValue>, schedule: Schedule)

  /** A user or a team: the only two flags the plugin reads. */
  datatype Account = Account(hidden: bool, banned: bool)

  /** A solve row; `date` is the solve's timestamp, kept opaque. */
  datatype Solve = Solve(id: SolveId, account: AccountId, challenge: ChallengeId, date: int)

  /** A first-blood award row, with every field the generator fills in. */
  datatype Award = Award(
    account: AccountId,
    name: string,
    description: string,
    category: string,
    date: int,
    value: int,
    icon: string,
    solveId: SolveId,
    solveNum: nat)

  /** The challenge's state column is exactly the text "visible". */
  predicate IsVisible(ch: Challenge)
  {
    "state" in ch.columns && ch.columns["state"] == Text("visible")
  }

  /** The challenge's type column is "firstblood". */
  predicate IsFirstBlood(ch: Challenge)
  {
    "type" in ch.columns && ch.columns["type"] == Text("firstblood")
  }

  /** A column value as str.format renders it; a missing name renders as "None". */
  function Display(v: FormValue): string
  {
    match v
    case Blank => ""
    case Number(n) => IntToString(n)
    case Text(s) => s
  }

  function Name(ch: Challenge): string
  {
    if "name" in ch.columns then Display(ch.columns["name"]) else "None"
  }

  /** Bonuses go only to solves of a visible challenge by an account neither hidden nor banned. */
  predicate CanGetAward(ch: Challenge, solver: Account)
  {
    IsVisible(ch) && !solver.hidden && !solver.banned
  }

  /** The icon of the award for rank n: a numbered medal for the podium. */
  function AwardIcon(n: nat): (r: string)
    ensures n <= 3 ==> r == "medal-" + Ordinalize(n)
    ensures n > 3 ==> r == "medal"
  {
    if n <= 3 then "medal-" + Ordinalize(n) else "medal"
  }

  /** The schedule entry for rank n, None when the schedule is shorter. */
  function BonusFor(schedule: Schedule, n: nat): (r: Option<int>)
    requires n >= 1
    ensures n - 1 < |schedule| ==> r == schedule[n - 1]
    ensures n - 1 >= |schedule| ==> r == None
  {
    if n - 1 < |schedule| then schedule[n - 1] else None
  }

  /**
   * The award a solve of rank n earns, or nothing when the schedule has no
   * bonus for that rank.
   */
  function GenAward(ch: Challenge, s: Solve, n: nat): (r: Option<Award>)
    requires n >= 1
    ensures r.None? <==> n - 1 >= |ch.schedule| || ch.schedule[n - 1].None?
    ensures r.Some? ==> r.value.value == ch.schedule[n - 1].value && r.value.solveNum == n
    ensures r.Some? ==> r.value.solveId == s.id && r.value.date == s.date && r.value.account == s.account
  {
    match BonusFor(ch.schedule, n)
    case None => None
    case Some(points) =>
      var ord := Ordinalize(n);
      Some(Award(
        account := s.account,
        name := ord + " blood for " + Name(ch),
        description := "Bonus points for being the " + ord + " to solve the challenge",
        category := "First Blood",
        date := s.date,
        value := points,
        icon := AwardIcon(n),
        solveId := s.id,
        solveNum := n))
  }

  /** The text an award for rank n displays: its name, description, category and icon. */
  lemma AwardText(ch: Challenge, s: Solve, n: nat)
    requires n >= 1 && GenAward(ch, s, n).Some?
    ensures var w := GenAward(ch, s, n).value;
      && w.name == Ordinalize(n) + " blood for " + Name(ch)
      && w.description == "Bonus points for being the " + Ordinalize(n) + " to solve the challenge"
      && w.category == "First Blood"
      && w.icon == AwardIcon(n)
  {
  }

  lemma CancelTail(x: string, y: string, mid: string, tail: string)
    requires x + mid + tail == y + mid + tail
    ensures x == y
  {
    assert x == (x + mid + tail)[..|x|];
    assert y == (y + mid + tail)[..|y|];
  }

  /** Two awards of one challenge with the same name have the same rank. */
  lemma AwardNameIdentifiesRank(ch: Challenge, s1: Solve, n1: nat, s2: Solve, n2: nat)
    requires n1 >= 1 && n2 >= 1
    requires GenAward(ch, s1, n1).Some? && GenAward(ch, s2, n2).Some?
    requires GenAward(ch, s1, n1).value.name == GenAward(ch, s2, n2).value.name
    ensures n1 == n2
  {
    AwardText(ch, s1, n1);
    AwardText(ch, s2, n2);
    CancelTail(Ordinalize(n1), Ordinalize(n2), " blood for ", Name(ch));
    OrdinalizeInjective(n1, n2);
  }

  lemma MedalPrefix(o: string)
    ensures "award-" + ("medal-" + o) == "award-medal-" + o
  {
    assert "award-" + "medal-" == "award-medal-";
    assert "award-" + ("medal-" + o) == ("award-" + "medal-") + o;
  }

  /** The solves list's medal icon for row n - 1 is the award's icon for rank n. */
  lemma MedalClassMatchesAwardIcon(n: nat)
    requires n >= 1
    ensures ViewLabels.MedalClass(n - 1) == "award-" + AwardIcon(n)
  {
    if n <= 3 {
      MedalPrefix(Ordinalize(n));
    }
  }

  /**
   * Row n - 1 of the solves list shows a bonus exactly when rank n earns a
   * nonzero award, and then shows that award's value; a zero bonus is awarded
   * but not shown.
   */
  lemma LabelBonusMatchesAward(ch: Challenge, s: Solve, n: nat)
    requires n >= 1
    ensures var row := ViewLabels.RowLabel(n - 1, ch.schedule);
      var award := GenAward(ch, s, n);
      && (row.Some? && row.value.bonus.Some? <==> award.Some? && award.value.value != 0)
      && (row.Some? && row.value.bonus.Some? ==> row.value.bonus.value == award.value.value)
      && (award.Some? ==> row.Some? && row.value.ordinal == Ordinalize(n))
  {
  }

  /**
   * FirstBloodChallenge.__init__: the form's schedule keys become the
   * schedule, the other keys the challenge's columns. Without any schedule
   * key the column stays NULL, which this model stores as the empty schedule.
   */
  method NewChallenge(kwargs: FormData) returns (r: Result<Challenge, ParseError>)
    ensures r.Err? <==> exists e :: Parses(kwargs, Err(e))
    ensures r.Err? ==> Parses(kwargs, Err(r.error))
    ensures r.Ok? ==> r.value.columns == Settable(kwargs)
    ensures r.Ok? ==> Parses(kwargs, Ok(if r.value.schedule == [] then None else Some(r.value.schedule)))
  {
    var parsed := ParseSchedule(kwargs);
    match parsed {
      case Err(e) =>
        r := Err(e);
      case Ok(None) =>
        r := Ok(Challenge(Settable(kwargs), []));
      case Ok(Some(schedule)) =>
        r := Ok(Challenge(Settable(kwargs), schedule));
    }
    forall e | Parses(kwargs, Err(e)) ensures r.Err? {
      ParsesUnique(kwargs, parsed, Err(e));
    }
  }
}
