/**
 * The plugin's entry points other than the reconciler itself, stated on
 * values: the fast path taken right after a solve, and which challenges each
 * mutation queues for reconciliation. The lemmas say when these keep every
 * first-blood challenge's awards equal to what a reconciliation would give.
 */
module Triggers {
  import opened Options
  import opened BonusForm
  import opened Awards
  import opened Ranking

  type Challenges = map<ChallengeId, Challenge>
  type Accounts = map<AccountId, Account>

  /**
   * Every first-blood challenge outside stale (the challenges queued for
   * reconciliation) has visited solves carrying exactly the awards they should.
   */
  ghost predicate ConsistentExcept(challenges: Challenges, accounts: Accounts, solves: seq<Solve>, awards: AwardMap,
                                   stale: set<ChallengeId>)
  {
    forall c :: c in challenges && IsFirstBlood(challenges[c]) && c !in stale ==>
      AwardsMatch(awards, challenges[c], accounts, Visited(solves, accounts, c))
  }

  /** Every first-blood challenge's visited solves carry exactly the awards they should. */
  ghost predicate Consistent(challenges: Challenges, accounts: Accounts, solves: seq<Solve>, awards: AwardMap)
  {
    ConsistentExcept(challenges, accounts, solves, awards, {})
  }

  /** A schedule with a bonus at every rank it lists. */
  predicate NoGaps(schedule: Schedule)
  {
    forall j :: 0 <= j < |schedule| ==> schedule[j].Some?
  }

  lemma UniqueIds(solves: seq<Solve>, t: Solve, u: Solve)
    requires IdsIncreasing(solves) && t in solves && u in solves && t.id == u.id
    ensures t == u
  {
    var i :| 0 <= i < |solves| && solves[i] == t;
    var j :| 0 <= j < |solves| && solves[j] == u;
  }

  /** Solves of different challenges have different ids. */
  lemma OtherChallengeIds(solves: seq<Solve>, accounts: Accounts, c: ChallengeId, t: Solve)
    requires IdsIncreasing(solves) && t in solves && t.challenge != c
    ensures t.id !in Ids(Visited(solves, accounts, c))
  {
    forall u | u in Visited(solves, accounts, c) ensures u.id != t.id {
      if u.id == t.id {
        UniqueIds(solves, u, t);
      }
    }
  }

  /** Awards that agree on the visited solves match equally well. */
  lemma MatchFrame(a: AwardMap, b: AwardMap, ch: Challenge, accounts: Accounts, vis: seq<Solve>)
    requires AwardsMatch(a, ch, accounts, vis)
    requires forall k :: 0 <= k < |vis| ==> Get(b, vis[k].id) == Get(a, vis[k].id)
    ensures AwardsMatch(b, ch, accounts, vis)
  {
  }

  // ---------------------------------------------------------------------------
  // The solve fast path

  /**
   * The fast path's count: solves on c by an existing account that is neither
   * hidden nor banned, with id at most upTo. The challenge state plays no part.
   */
  function SolveCount(solves: seq<Solve>, accounts: Accounts, c: ChallengeId, upTo: SolveId): nat
  {
    if solves == [] then 0
    else
      var s := solves[|solves| - 1];
      SolveCount(solves[..|solves| - 1], accounts, c, upTo)
        + (if s.challenge == c && s.account in accounts && !accounts[s.account].hidden
              && !accounts[s.account].banned && s.id <= upTo then 1 else 0)
  }

  lemma {:induction false} SolveCountIncludes(solves: seq<Solve>, accounts: Accounts, s: Solve)
    requires s in solves && s.account in accounts
    requires !accounts[s.account].hidden && !accounts[s.account].banned
    ensures SolveCount(solves, accounts, s.challenge, s.id) >= 1
  {
    var init := solves[..|solves| - 1];
    if solves[|solves| - 1] != s {
      assert solves == init + [solves[|solves| - 1]];
      SolveCountIncludes(init, accounts, s);
    }
  }

  /** On a visible challenge the count is the number of eligible visited solves. */
  lemma {:induction false} SolveCountIsEligibleCount(ch: Challenge, solves: seq<Solve>, accounts: Accounts, c: ChallengeId, upTo: SolveId)
    requires IsVisible(ch)
    requires forall s :: s in solves ==> s.id <= upTo
    ensures SolveCount(solves, accounts, c, upTo) == EligibleCount(ch, accounts, Visited(solves, accounts, c))
  {
    if solves != [] {
      var init := solves[..|solves| - 1];
      var last := solves[|solves| - 1];
      assert solves == init + [last];
      assert forall s :: s in init ==> s in solves;
      SolveCountIsEligibleCount(ch, init, accounts, c, upTo);
      VisitedAppend(init, accounts, c, last);
      assert last in solves;
      if last.challenge == c && last.account in accounts {
        EligibleCountAppend(ch, accounts, Visited(init, accounts, c), last);
      }
    }
  }

  /**
   * The awards after the fast path of `solve`: if the new solve s can get an
   * award, the award for rank SolveCount is inserted when the schedule has one.
   */
  function FastPath(ch: Challenge, accounts: Accounts, solves: seq<Solve>, s: Solve, awards: AwardMap): (r: AwardMap)
    requires s in solves && s.account in accounts
    ensures SameOutside(awards, r, {s.id})
  {
    if CanGetAward(ch, accounts[s.account]) then
      SolveCountIncludes(solves, accounts, s);
      match GenAward(ch, s, SolveCount(solves, accounts, s.challenge, s.id))
      case Some(w) => awards[s.id := w]
      case None => awards
    else
      awards
  }

  /** The fast path's count for a new last solve s is one more than the eligible solves before it. */
  lemma FastPathCount(ch: Challenge, accounts: Accounts, solves: seq<Solve>, s: Solve)
    requires IdsIncreasing(solves + [s]) && IsVisible(ch) && s.account in accounts
    requires !accounts[s.account].hidden && !accounts[s.account].banned
    ensures SolveCount(solves + [s], accounts, s.challenge, s.id)
         == EligibleCount(ch, accounts, Visited(solves, accounts, s.challenge)) + 1
  {
    var all := solves + [s];
    forall t | t in all ensures t.id <= s.id {
      var i :| 0 <= i < |all| && all[i] == t;
      assert all[|solves|] == s;
    }
    SolveCountIsEligibleCount(ch, all, accounts, s.challenge, s.id);
    VisitedAppend(solves, accounts, s.challenge, s);
    var vis := Visited(solves, accounts, s.challenge);
    assert (vis + [s])[..|vis|] == vis;
  }

  /** A solve with an id above all recorded ones keeps ids increasing. */
  lemma AppendIncreasing(solves: seq<Solve>, s: Solve)
    requires IdsIncreasing(solves) && forall t :: t in solves ==> t.id < s.id
    ensures IdsIncreasing(solves + [s])
  {
    forall i, j | 0 <= i < j < |solves + [s]| ensures (solves + [s])[i].id < (solves + [s])[j].id {
      if j == |solves| {
        assert solves[i] in solves;
      }
    }
  }

  /** A prefix of a sequence with increasing ids has increasing ids. */
  lemma PrefixIncreasing(vis: seq<Solve>, s: Solve)
    requires IdsIncreasing(vis + [s])
    ensures IdsIncreasing(vis)
  {
    assert forall i :: 0 <= i < |vis| ==> vis[i] == (vis + [s])[i];
  }

  /**
   * The fast path gives exactly what recalculate_awards would give after the
   * new solve, when the challenge's awards matched before it.
   */
  lemma FastPathAgreesWithReconciler(ch: Challenge, accounts: Accounts, solves: seq<Solve>, s: Solve, awards: AwardMap)
    requires IdsIncreasing(solves + [s]) && s.account in accounts && s.id !in awards
    requires AwardsMatch(awards, ch, accounts, Visited(solves, accounts, s.challenge))
    ensures FastPath(ch, accounts, solves + [s], s, awards)
         == Reconciled(awards, ch, accounts, Visited(solves + [s], accounts, s.challenge))
  {
    var vis := Visited(solves, accounts, s.challenge);
    VisitedAppend(solves, accounts, s.challenge, s);
    VisitedIncreasing(solves + [s], accounts, s.challenge);
    PrefixIncreasing(vis, s);
    ReconcileLast(awards, ch, accounts, vis, s);
    if CanGetAward(ch, accounts[s.account]) {
      FastPathCount(ch, accounts, solves, s);
    }
  }

  /** Reconciling one more solve after a matching run only places that solve's award. */
  lemma ReconcileLast(awards: AwardMap, ch: Challenge, accounts: Accounts, vis: seq<Solve>, s: Solve)
    requires IdsIncreasing(vis) && AwardsMatch(awards, ch, accounts, vis) && s.id !in awards
    ensures var d := if Eligible(ch, accounts, s) then GenAward(ch, s, EligibleCount(ch, accounts, vis) + 1) else None;
      Reconciled(awards, ch, accounts, vis + [s]) == if d.Some? then awards[s.id := d.value] else awards
  {
    var all, n := vis + [s], |vis|;
    assert all[..n] == vis && all[..n + 1] == all && all[n] == s;
    ReconcileStable(awards, ch, accounts, vis);
    ReconciledStep(awards, ch, accounts, all, n);
    var d := if Eligible(ch, accounts, s) then GenAward(ch, s, EligibleCount(ch, accounts, vis) + 1) else None;
    assert DesiredAt(ch, accounts, all, n) == d;
    if d.None? {
      assert awards - {s.id} == awards;
    }
  }

  /** A solve and its fast path keep every first-blood challenge that was consistent so. */
  lemma SolvePreservesConsistency(challenges: Challenges, accounts: Accounts, solves: seq<Solve>, awards: AwardMap,
                                  stale: set<ChallengeId>, s: Solve)
    requires ConsistentExcept(challenges, accounts, solves, awards, stale)
    requires IdsIncreasing(solves + [s]) && s.challenge in challenges && s.account in accounts
    requires s.id !in awards
    ensures ConsistentExcept(challenges, accounts, solves + [s],
                             FastPath(challenges[s.challenge], accounts, solves + [s], s, awards), stale)
  {
    var solves' := solves + [s];
    var ch := challenges[s.challenge];
    var after := FastPath(ch, accounts, solves', s, awards);
    forall c | c in challenges && IsFirstBlood(challenges[c]) && c !in stale
      ensures AwardsMatch(after, challenges[c], accounts, Visited(solves', accounts, c))
    {
      VisitedIncreasing(solves', accounts, c);
      if c == s.challenge {
        FastPathAgreesWithReconciler(ch, accounts, solves, s, awards);
        ReconciledMatches(awards, ch, accounts, Visited(solves', accounts, c));
      } else {
        VisitedAppend(solves, accounts, c, s);
        var vis := Visited(solves, accounts, c);
        forall k | 0 <= k < |vis| ensures Get(after, vis[k].id) == Get(awards, vis[k].id) {
          var i :| 0 <= i < |solves| && solves[i] == vis[k];
          assert solves'[i] == vis[k] && solves'[|solves|] == s;
        }
        MatchFrame(awards, after, challenges[c], accounts, vis);
      }
    }
  }

  // ---------------------------------------------------------------------------
  // recalculate_awards on one challenge, as run by update and by the flush

  /**
   * Giving challenge c the settings ch and reconciling it leaves c consistent
   * and every other challenge as consistent as it was.
   */
  lemma ReconcileKeepsOthers(challenges: Challenges, accounts: Accounts, solves: seq<Solve>, awards: AwardMap,
                             stale: set<ChallengeId>, c: ChallengeId, ch: Challenge)
    requires ConsistentExcept(challenges, accounts, solves, awards, stale)
    requires IdsIncreasing(solves) && c in challenges
    ensures ConsistentExcept(challenges[c := ch], accounts, solves,
                             Reconciled(awards, ch, accounts, Visited(solves, accounts, c)), stale - {c})
  {
    var own := Visited(solves, accounts, c);
    var after := Reconciled(awards, ch, accounts, own);
    VisitedIncreasing(solves, accounts, c);
    ReconciledMatches(awards, ch, accounts, own);
    var challenges' := challenges[c := ch];
    forall c' | c' in challenges' && IsFirstBlood(challenges'[c']) && c' !in stale - {c}
      ensures AwardsMatch(after, challenges'[c'], accounts, Visited(solves, accounts, c'))
    {
      if c' != c {
        var vis := Visited(solves, accounts, c');
        forall k | 0 <= k < |vis| ensures Get(after, vis[k].id) == Get(awards, vis[k].id) {
          assert vis[k] in vis;
          OtherChallengeIds(solves, accounts, c, vis[k]);
        }
        MatchFrame(awards, after, challenges[c'], accounts, vis);
      }
    }
  }

  // ---------------------------------------------------------------------------
  // Deleting one solve (before_flush) and reconciling what it queued (after_flush_postexec)

  /** As written: the solve's challenge is queued only when an award row was deleted. */
  function SolveDeleteQueue(awards: AwardMap, s: Solve): (r: set<ChallengeId>)
    ensures r == {s.challenge} <==> s.id in awards
    ensures r == {} <==> s.id !in awards
  {
    if s.id in awards then {s.challenge} else {}
  }

  /** Corrected: the solve's challenge is always queued. */
  function SolveDeleteQueueFixed(s: Solve): (r: set<ChallengeId>)
    ensures s.challenge in r
  {
    {s.challenge}
  }

  /** Other challenges keep their visited solves when a solve of s.challenge goes. */
  lemma OtherChallengeUnaffected(solves: seq<Solve>, accounts: Accounts, s: Solve, c: ChallengeId)
    requires IdsIncreasing(solves) && s in solves && c != s.challenge
    ensures Visited(Remove(solves, {s.id}), accounts, c) == Visited(solves, accounts, c)
    ensures s.id !in Ids(Visited(solves, accounts, c))
  {
    var vis := Visited(solves, accounts, c);
    VisitedRemove(solves, accounts, c, {s.id});
    OtherChallengeIds(solves, accounts, c, s);
    forall t | t in vis ensures t.id !in {s.id} {
      assert t.id in Ids(vis);
    }
    RemoveNothing(vis, {s.id});
  }

  /**
   * Deleting solve s and its award leaves every first-blood challenge other
   * than s's own as consistent as it was.
   */
  lemma DeleteKeepsOthers(challenges: Challenges, accounts: Accounts, solves: seq<Solve>, awards: AwardMap,
                          stale: set<ChallengeId>, s: Solve, c: ChallengeId)
    requires ConsistentExcept(challenges, accounts, solves, awards, stale)
    requires IdsIncreasing(solves) && s in solves
    requires c in challenges && IsFirstBlood(challenges[c]) && c !in stale && c != s.challenge
    ensures AwardsMatch(awards - {s.id}, challenges[c], accounts, Visited(Remove(solves, {s.id}), accounts, c))
  {
    OtherChallengeUnaffected(solves, accounts, s, c);
    var vis := Visited(solves, accounts, c);
    forall k | 0 <= k < |vis| ensures Get(awards - {s.id}, vis[k].id) == Get(awards, vis[k].id) {
      assert vis[k].id in Ids(vis);
    }
    MatchFrame(awards, awards - {s.id}, challenges[c], accounts, vis);
  }

  /**
   * With the guard removed, deleting a solve and its award leaves every
   * first-blood challenge consistent except those now queued.
   */
  lemma FixedSolveDeleteKeepsConsistency(challenges: Challenges, accounts: Accounts, solves: seq<Solve>, awards: AwardMap,
                                         stale: set<ChallengeId>, s: Solve)
    requires ConsistentExcept(challenges, accounts, solves, awards, stale)
    requires IdsIncreasing(solves) && s in solves
    ensures ConsistentExcept(challenges, accounts, Remove(solves, {s.id}), awards - {s.id},
                             stale + SolveDeleteQueueFixed(s))
  {
    forall c | c in challenges && IsFirstBlood(challenges[c]) && c !in stale + SolveDeleteQueueFixed(s)
      ensures AwardsMatch(awards - {s.id}, challenges[c], accounts, Visited(Remove(solves, {s.id}), accounts, c))
    {
      DeleteKeepsOthers(challenges, accounts, solves, awards, stale, s, c);
    }
  }

  /**
   * With the guard removed, deleting a solve from a consistent state and
   * reconciling the queued challenge gives a consistent state again.
   */
  lemma FixedSolveDeleteThenFlush(challenges: Challenges, accounts: Accounts, solves: seq<Solve>, awards: AwardMap, s: Solve)
    requires Consistent(challenges, accounts, solves, awards)
    requires IdsIncreasing(solves) && s in solves && s.challenge in challenges
    ensures var remaining := Remove(solves, {s.id});
      Consistent(challenges, accounts, remaining,
                 Reconciled(awards - {s.id}, challenges[s.challenge], accounts, Visited(remaining, accounts, s.challenge)))
  {
    var queued: set<ChallengeId> := {} + SolveDeleteQueueFixed(s);
    FixedSolveDeleteKeepsConsistency(challenges, accounts, solves, awards, {}, s);
    RemoveIncreasing(solves, {s.id});
    ReconcileKeepsOthers(challenges, accounts, Remove(solves, {s.id}), awards - {s.id}, queued, s.challenge, challenges[s.challenge]);
    assert challenges[s.challenge := challenges[s.challenge]] == challenges;
    assert queued - {s.challenge} == {};
  }

  /**
   * Removing a visited solve that carried no award needs no reconciliation
   * when the schedule has no gaps: that solve was ineligible or ranked past
   * the schedule, so no other solve's award changes.
   */
  lemma GapFreeDeleteNeedsNoReconcile(awards: AwardMap, ch: Challenge, accounts: Accounts, vis: seq<Solve>, q: nat)
    requires IdsIncreasing(vis) && q < |vis| && NoGaps(ch.schedule)
    requires AwardsMatch(awards, ch, accounts, vis) && vis[q].id !in awards
    ensures AwardsMatch(awards, ch, accounts, vis[..q] + vis[q + 1..])
  {
    var vis' := vis[..q] + vis[q + 1..];
    assert Get(awards, vis[q].id) == DesiredAt(ch, accounts, vis, q);
    forall k | 0 <= k < |vis'| ensures Get(awards, vis'[k].id) == DesiredAt(ch, accounts, vis', k) {
      var j := if k < q then k else k + 1;
      assert vis'[k] == vis[j];
      assert Get(awards, vis[j].id) == DesiredAt(ch, accounts, vis, j);
      if !Eligible(ch, accounts, vis[q]) {
        IneligibleShiftsNothing(ch, accounts, vis, q, k);
      } else if k < q {
        assert vis'[..k] == vis[..k];
      } else if Eligible(ch, accounts, vis[j]) {
        RanksIncrease(ch, accounts, vis, q, j);
        assert vis'[..k] == vis[..q] + vis[q + 1..j];
        EligibleCountConcat(ch, accounts, vis[..q], vis[q + 1..j]);
      }
    }
  }

  /** The deleted solve's own challenge, when it carried no award and the schedule has no gaps. */
  lemma OwnChallengeWithoutGaps(ch: Challenge, accounts: Accounts, solves: seq<Solve>, awards: AwardMap, s: Solve)
    requires IdsIncreasing(solves) && s in solves && s.id !in awards && NoGaps(ch.schedule)
    requires AwardsMatch(awards, ch, accounts, Visited(solves, accounts, s.challenge))
    ensures AwardsMatch(awards, ch, accounts, Visited(Remove(solves, {s.id}), accounts, s.challenge))
  {
    var vis := Visited(solves, accounts, s.challenge);
    VisitedRemove(solves, accounts, s.challenge, {s.id});
    VisitedIncreasing(solves, accounts, s.challenge);
    if s.account in accounts {
      var q :| 0 <= q < |vis| && vis[q] == s;
      RemoveSplice(vis, q);
      GapFreeDeleteNeedsNoReconcile(awards, ch, accounts, vis, q);
    } else {
      forall t | t in vis ensures t.id !in {s.id} {
        if t.id == s.id {
          UniqueIds(solves, t, s);
        }
      }
      RemoveNothing(vis, {s.id});
    }
  }

  /**
   * As written, deleting a solve and its award leaves every first-blood
   * challenge consistent except those now queued, provided the deleted
   * solve's challenge has no gaps in its schedule.
   */
  lemma SolveDeleteKeepsConsistencyWithoutGaps(challenges: Challenges, accounts: Accounts, solves: seq<Solve>, awards: AwardMap,
                                               stale: set<ChallengeId>, s: Solve)
    requires ConsistentExcept(challenges, accounts, solves, awards, stale)
    requires IdsIncreasing(solves) && s in solves && s.challenge in challenges
    requires NoGaps(challenges[s.challenge].schedule)
    ensures ConsistentExcept(challenges, accounts, Remove(solves, {s.id}), awards - {s.id},
                             stale + SolveDeleteQueue(awards, s))
  {
    if s.id in awards {
      FixedSolveDeleteKeepsConsistency(challenges, accounts, solves, awards, stale, s);
    } else {
      assert awards - {s.id} == awards;
      forall c | c in challenges && IsFirstBlood(challenges[c]) && c !in stale + SolveDeleteQueue(awards, s)
        ensures AwardsMatch(awards - {s.id}, challenges[c], accounts, Visited(Remove(solves, {s.id}), accounts, c))
      {
        if c == s.challenge {
          OwnChallengeWithoutGaps(challenges[c], accounts, solves, awards, s);
        } else {
          DeleteKeepsOthers(challenges, accounts, solves, awards, stale, s, c);
        }
      }
    }
  }

  /**
   * The shape of state that defeats the guard: two solves s0 then s1 of a
   * visible first-blood challenge c, by two different accounts that can both
   * get awards, where the schedule has no bonus for 1st place but one for 2nd.
   */
  ghost predicate GapShape(challenges: Challenges, accounts: Accounts, solves: seq<Solve>, c: ChallengeId)
  {
    && c in challenges && IsVisible(challenges[c]) && IsFirstBlood(challenges[c])
    && |challenges[c].schedule| >= 2 && challenges[c].schedule[0].None? && challenges[c].schedule[1].Some?
    && |solves| == 2 && solves[0].id < solves[1].id
    && solves[0].challenge == c && solves[1].challenge == c
    && solves[0].account != solves[1].account
    && Eligible(challenges[c], accounts, solves[0]) && Eligible(challenges[c], accounts, solves[1])
  }

  /** The awards of such a state: 2nd blood on s1, nothing on s0. */
  function GapShapeAwards(ch: Challenge, s1: Solve): AwardMap
    requires |ch.schedule| >= 2 && ch.schedule[1].Some?
  {
    map[s1.id := GenAward(ch, s1, 2).value]
  }

  /** A challenge nobody solved has no visited solves. */
  lemma {:induction false} NoSolvesOn(solves: seq<Solve>, accounts: Accounts, c: ChallengeId)
    requires forall s :: s in solves ==> s.challenge != c
    ensures Visited(solves, accounts, c) == []
  {
    if solves != [] {
      assert solves[|solves| - 1] in solves;
      assert forall s :: s in solves[..|solves| - 1] ==> s in solves;
      NoSolvesOn(solves[..|solves| - 1], accounts, c);
    }
  }

  lemma GapShapeVisited(challenges: Challenges, accounts: Accounts, solves: seq<Solve>, c: ChallengeId)
    requires GapShape(challenges, accounts, solves, c)
    ensures IdsIncreasing(solves)
    ensures forall s :: s in solves ==> s.challenge == c
    ensures Visited(solves, accounts, c) == solves
  {
    var s0, s1 := solves[0], solves[1];
    assert solves == [s0] + [s1];
    assert [s0] == [] + [s0];
    VisitedAppend([], accounts, c, s0);
    VisitedAppend([s0], accounts, c, s1);
  }

  /** Once the account of s0 is gone, only s1 is visited. */
  lemma GapShapeVisitedWithout(challenges: Challenges, accounts: Accounts, solves: seq<Solve>, c: ChallengeId)
    requires GapShape(challenges, accounts, solves, c)
    ensures Visited(solves, accounts - {solves[0].account}, c) == [solves[1]]
  {
    var s0, s1 := solves[0], solves[1];
    assert solves == [s0] + [s1];
    assert [s0] == [] + [s0];
    VisitedAppend([], accounts - {s0.account}, c, s0);
    VisitedAppend([s0], accounts - {s0.account}, c, s1);
  }

  /** Once s0 is deleted, only s1 remains and is visited. */
  lemma GapShapeRemaining(challenges: Challenges, accounts: Accounts, solves: seq<Solve>, c: ChallengeId)
    requires GapShape(challenges, accounts, solves, c)
    ensures Remove(solves, {solves[0].id}) == [solves[1]]
    ensures Visited([solves[1]], accounts, c) == [solves[1]]
  {
    var s0, s1 := solves[0], solves[1];
    assert solves[..1] == [s0];
    assert [s1] == [] + [s1];
    VisitedAppend([], accounts, c, s1);
    assert Remove([s0], {s0.id}) == [] by {
      assert [s0][..0] == [];
    }
  }

  lemma GapShapeDesired(challenges: Challenges, accounts: Accounts, solves: seq<Solve>, c: ChallengeId)
    requires GapShape(challenges, accounts, solves, c)
    ensures DesiredAt(challenges[c], accounts, solves, 0) == None
    ensures DesiredAt(challenges[c], accounts, solves, 1) == GenAward(challenges[c], solves[1], 2)
  {
    var s0 := solves[0];
    assert solves[..0] == [] && solves[..1] == [s0];
    assert [s0] == [] + [s0];
    EligibleCountAppend(challenges[c], accounts, [], s0);
  }

  /** A lone solve takes rank 1, which has no bonus here. */
  lemma LoneSolveUnrewarded(ch: Challenge, accounts: Accounts, s: Solve)
    requires |ch.schedule| >= 1 && ch.schedule[0].None?
    ensures DesiredAt(ch, accounts, [s], 0) == None
  {
    assert [s][..0] == [];
  }

  /** When every solve is on c, consistency is c's match alone. */
  lemma OnlyChallengeSolved(challenges: Challenges, accounts: Accounts, solves: seq<Solve>, awards: AwardMap, c: ChallengeId)
    requires forall s :: s in solves ==> s.challenge == c
    requires c in challenges ==> AwardsMatch(awards, challenges[c], accounts, Visited(solves, accounts, c))
    ensures Consistent(challenges, accounts, solves, awards)
  {
    forall c' | c' in challenges && IsFirstBlood(challenges[c']) && c' != c
      ensures AwardsMatch(awards, challenges[c'], accounts, Visited(solves, accounts, c'))
    {
      NoSolvesOn(solves, accounts, c');
    }
  }

  lemma GapShapeMatches(challenges: Challenges, accounts: Accounts, solves: seq<Solve>, c: ChallengeId)
    requires GapShape(challenges, accounts, solves, c)
    ensures AwardsMatch(GapShapeAwards(challenges[c], solves[1]), challenges[c], accounts, solves)
  {
    var awards := GapShapeAwards(challenges[c], solves[1]);
    GapShapeDesired(challenges, accounts, solves, c);
    assert Get(awards, solves[0].id) == None;
    assert Get(awards, solves[1].id) == GenAward(challenges[c], solves[1], 2);
  }

  lemma GapShapeConsistent(challenges: Challenges, accounts: Accounts, solves: seq<Solve>, c: ChallengeId)
    requires GapShape(challenges, accounts, solves, c)
    ensures Consistent(challenges, accounts, solves, GapShapeAwards(challenges[c], solves[1]))
  {
    GapShapeVisited(challenges, accounts, solves, c);
    GapShapeMatches(challenges, accounts, solves, c);
    OnlyChallengeSolved(challenges, accounts, solves, GapShapeAwards(challenges[c], solves[1]), c);
  }

  /** One first-blood challenge out of step makes the state inconsistent. */
  lemma StaleAt(challenges: Challenges, accounts: Accounts, solves: seq<Solve>, awards: AwardMap, c: ChallengeId)
    requires c in challenges && IsFirstBlood(challenges[c])
    requires !AwardsMatch(awards, challenges[c], accounts, Visited(solves, accounts, c))
    ensures !Consistent(challenges, accounts, solves, awards)
  {
  }

  lemma GapShapeLeftStale(challenges: Challenges, accounts: Accounts, solves: seq<Solve>, c: ChallengeId)
    requires GapShape(challenges, accounts, solves, c)
    ensures !Consistent(challenges, accounts, Remove(solves, {solves[0].id}),
                        GapShapeAwards(challenges[c], solves[1]) - {solves[0].id})
  {
    var awards := GapShapeAwards(challenges[c], solves[1]) - {solves[0].id};
    GapShapeRemaining(challenges, accounts, solves, c);
    LoneSolveUnrewarded(challenges[c], accounts, solves[1]);
    assert Get(awards, solves[1].id) != None;
    assert !AwardsMatch(awards, challenges[c], accounts, [solves[1]]);
    StaleAt(challenges, accounts, Remove(solves, {solves[0].id}), awards, c);
  }

  /**
   * The guard's failure on every state of that shape: deleting s0 removes no
   * award row, so nothing is queued, and s1 keeps "2nd blood" though it is now
   * first and should hold no award.
   */
  lemma SolveDeleteGuardFails(challenges: Challenges, accounts: Accounts, solves: seq<Solve>, c: ChallengeId)
    requires GapShape(challenges, accounts, solves, c)
    ensures var awards := GapShapeAwards(challenges[c], solves[1]);
      && Consistent(challenges, accounts, solves, awards)
      && SolveDeleteQueue(awards, solves[0]) == {}
      && !Consistent(challenges, accounts, Remove(solves, {solves[0].id}), awards - {solves[0].id})
  {
    GapShapeConsistent(challenges, accounts, solves, c);
    GapShapeLeftStale(challenges, accounts, solves, c);
  }

  /** On the same shape the corrected routing queues c, and reconciling c repairs the state. */
  lemma SolveDeleteFixRepairs(challenges: Challenges, accounts: Accounts, solves: seq<Solve>, c: ChallengeId)
    requires GapShape(challenges, accounts, solves, c)
    ensures var awards := GapShapeAwards(challenges[c], solves[1]);
      var remaining := Remove(solves, {solves[0].id});
      && SolveDeleteQueueFixed(solves[0]) == {c}
      && Consistent(challenges, accounts, remaining,
                    Reconciled(awards - {solves[0].id}, challenges[c], accounts, Visited(remaining, accounts, c)))
  {
    GapShapeConsistent(challenges, accounts, solves, c);
    GapShapeVisited(challenges, accounts, solves, c);
    assert solves[0] in solves;
    FixedSolveDeleteThenFlush(challenges, accounts, solves, GapShapeAwards(challenges[c], solves[1]), solves[0]);
  }

  /** A visible challenge whose 1st place has no bonus but whose 2nd has 10. */
  const GapChallenge: Challenge :=
    Challenge(map["name" := Text("c"), "state" := Text("visible"), "type" := Text("firstblood")], [None, Some(10)])

  const GapSolves: seq<Solve> := [Solve(0, 1, 0, 100), Solve(1, 2, 0, 200)]

  const GapAccounts: Accounts := map[1 := Account(false, false), 2 := Account(false, false)]

  const GapChallenges: Challenges := map[0 := GapChallenge]

  /** The one award the example starts with: 2nd blood, 10 points, on solve 1. */
  const GapAwards: AwardMap := GapShapeAwards(GapChallenge, GapSolves[1])

  lemma GapExampleHasShape()
    ensures GapShape(GapChallenges, GapAccounts, GapSolves, 0) && GapChallenges[0] == GapChallenge
  {
  }

  /**
   * The concrete run: account 1 solves first (no bonus), account 2 second
   * (10 points); solve 0 is deleted and its challenge is not queued.
   */
  lemma SolveDeleteGuardCounterexample()
    ensures Consistent(GapChallenges, GapAccounts, GapSolves, GapAwards)
    ensures SolveDeleteQueue(GapAwards, GapSolves[0]) == {}
    ensures !Consistent(GapChallenges, GapAccounts, Remove(GapSolves, {0}), GapAwards - {0})
  {
    GapExampleHasShape();
    SolveDeleteGuardFails(GapChallenges, GapAccounts, GapSolves, 0);
  }

  /** The same run with the corrected routing: challenge 0 is queued and its reconciliation repairs it. */
  lemma SolveDeleteFixExample()
    ensures SolveDeleteQueueFixed(GapSolves[0]) == {0}
    ensures Consistent(GapChallenges, GapAccounts, Remove(GapSolves, {0}),
                       Reconciled(GapAwards - {0}, GapChallenge, GapAccounts, Visited(Remove(GapSolves, {0}), GapAccounts, 0)))
  {
    GapExampleHasShape();
    SolveDeleteFixRepairs(GapChallenges, GapAccounts, GapSolves, 0);
  }

  // ---------------------------------------------------------------------------
  // Hidden and banned flags

  /** The first-blood challenges on which account a has a solve. */
  function FlagChangeQueue(challenges: Challenges, solves: seq<Solve>, a: AccountId): set<ChallengeId>
  {
    set s | s in solves && s.account == a && s.challenge in challenges && IsFirstBlood(challenges[s.challenge]) :: s.challenge
  }

  lemma {:induction false} EligibleCountOtherAccount(ch: Challenge, accounts: Accounts, a: AccountId, acct: Account, ss: seq<Solve>)
    requires a in accounts
    requires forall s :: s in ss ==> s.account != a
    ensures EligibleCount(ch, accounts[a := acct], ss) == EligibleCount(ch, accounts, ss)
  {
    if ss != [] {
      var init := ss[..|ss| - 1];
      assert ss == init + [ss[|ss| - 1]];
      EligibleCountOtherAccount(ch, accounts, a, acct, init);
    }
  }

  lemma {:induction false} VisitedSameKeys(solves: seq<Solve>, accounts: Accounts, accounts': Accounts, c: ChallengeId)
    requires accounts.Keys == accounts'.Keys
    ensures Visited(solves, accounts, c) == Visited(solves, accounts', c)
  {
    if solves != [] {
      VisitedSameKeys(solves[..|solves| - 1], accounts, accounts', c);
    }
  }

  lemma DesiredAtOtherAccount(ch: Challenge, accounts: Accounts, a: AccountId, acct: Account, vis: seq<Solve>, k: nat)
    requires a in accounts && k < |vis|
    requires forall s :: s in vis ==> s.account != a
    ensures DesiredAt(ch, accounts[a := acct], vis, k) == DesiredAt(ch, accounts, vis, k)
  {
    var s := vis[k];
    assert s in vis;
    assert Eligible(ch, accounts[a := acct], s) == Eligible(ch, accounts, s);
    assert forall t :: t in vis[..k] ==> t in vis;
    EligibleCountOtherAccount(ch, accounts, a, acct, vis[..k]);
    assert RankAt(ch, accounts[a := acct], vis, k) == RankAt(ch, accounts, vis, k);
  }

  /** The awards a run of solves should carry do not depend on accounts that made none of them. */
  lemma DesiredIgnoresOtherAccount(ch: Challenge, accounts: Accounts, a: AccountId, acct: Account, vis: seq<Solve>)
    requires a in accounts
    requires forall s :: s in vis ==> s.account != a
    ensures forall k :: 0 <= k < |vis| ==>
      DesiredAt(ch, accounts[a := acct], vis, k) == DesiredAt(ch, accounts, vis, k)
  {
    forall k | 0 <= k < |vis| ensures DesiredAt(ch, accounts[a := acct], vis, k) == DesiredAt(ch, accounts, vis, k) {
      DesiredAtOtherAccount(ch, accounts, a, acct, vis, k);
    }
  }

  /**
   * Changing an account's flags can only change the awards of first-blood
   * challenges it has solved: any other challenge that matched still does.
   */
  lemma FlagChangeRoutingSound(challenges: Challenges, accounts: Accounts, solves: seq<Solve>, awards: AwardMap,
                               a: AccountId, acct: Account, c: ChallengeId)
    requires a in accounts && c in challenges && IsFirstBlood(challenges[c])
    requires c !in FlagChangeQueue(challenges, solves, a)
    requires AwardsMatch(awards, challenges[c], accounts, Visited(solves, accounts, c))
    ensures AwardsMatch(awards, challenges[c], accounts[a := acct], Visited(solves, accounts[a := acct], c))
  {
    var accounts' := accounts[a := acct];
    VisitedSameKeys(solves, accounts, accounts', c);
    var vis := Visited(solves, accounts, c);
    forall s | s in vis ensures s.account != a {
      assert s.account == a ==> s.challenge in FlagChangeQueue(challenges, solves, a);
    }
    DesiredIgnoresOtherAccount(challenges[c], accounts, a, acct, vis);
  }

  /** Queueing the challenges the account solved keeps everything else consistent. */
  lemma FlagChangeKeepsConsistency(challenges: Challenges, accounts: Accounts, solves: seq<Solve>, awards: AwardMap,
                                   stale: set<ChallengeId>, a: AccountId, acct: Account)
    requires ConsistentExcept(challenges, accounts, solves, awards, stale) && a in accounts
    ensures ConsistentExcept(challenges, accounts[a := acct], solves, awards, stale + FlagChangeQueue(challenges, solves, a))
  {
    forall c | c in challenges && IsFirstBlood(challenges[c]) && c !in stale + FlagChangeQueue(challenges, solves, a)
      ensures AwardsMatch(awards, challenges[c], accounts[a := acct], Visited(solves, accounts[a := acct], c))
    {
      FlagChangeRoutingSound(challenges, accounts, solves, awards, a, acct, c);
    }
  }

  // ---------------------------------------------------------------------------
  // Deleting a challenge

  /** The ids of the solves on challenge c. */
  function SolveIdsOn(solves: seq<Solve>, c: ChallengeId): (r: set<SolveId>)
    ensures forall s :: s in solves && s.challenge == c ==> s.id in r
    ensures forall id :: id in r ==> exists s :: s in solves && s.challenge == c && s.id == id
  {
    set s | s in solves && s.challenge == c :: s.id
  }

  /**
   * Dropping challenge c with its solves and their awards leaves every other
   * first-blood challenge as consistent as it was.
   */
  lemma ChallengeDeleteKeepsConsistency(challenges: Challenges, accounts: Accounts, solves: seq<Solve>, awards: AwardMap,
                                        stale: set<ChallengeId>, c: ChallengeId)
    requires ConsistentExcept(challenges, accounts, solves, awards, stale) && IdsIncreasing(solves)
    ensures var doomed := SolveIdsOn(solves, c);
      ConsistentExcept(challenges - {c}, accounts, Remove(solves, doomed), awards - doomed, stale - {c})
  {
    var doomed := SolveIdsOn(solves, c);
    forall c' | c' in challenges - {c} && IsFirstBlood((challenges - {c})[c']) && c' !in stale - {c}
      ensures AwardsMatch(awards - doomed, challenges[c'], accounts, Visited(Remove(solves, doomed), accounts, c'))
    {
      var vis := Visited(solves, accounts, c');
      forall u | u in vis ensures u.id !in doomed {
        forall t | t in solves && t.challenge == c ensures t.id != u.id {
          OtherChallengeIds(solves, accounts, c', t);
          assert u.id in Ids(vis);
        }
      }
      VisitedRemove(solves, accounts, c', doomed);
      RemoveNothing(vis, doomed);
      forall k | 0 <= k < |vis| ensures Get(awards - doomed, vis[k].id) == Get(awards, vis[k].id) {
        assert vis[k] in vis;
      }
      MatchFrame(awards, awards - doomed, challenges[c'], accounts, vis);
    }
  }

  // ---------------------------------------------------------------------------
  // Reconciling a set of challenges (after_flush_postexec, after_bulk_delete)

  /** The ids of the solves that reconciling every challenge of todo visits. */
  function VisitedIdsOf(solves: seq<Solve>, accounts: Accounts, todo: set<ChallengeId>): (r: set<SolveId>)
    ensures forall c :: c in todo ==> Ids(Visited(solves, accounts, c)) <= r
    ensures forall id :: id in r ==> exists c :: c in todo && id in Ids(Visited(solves, accounts, c))
  {
    set s | s in solves && s.challenge in todo && s.account in accounts :: s.id
  }

  /**
   * Reconciling one more challenge c after the challenges of done: c now
   * matches, the challenges of done still match, and only the awards of
   * solves visited by one of them differ from the awards at the start.
   */
  lemma ReconcileOneMore(challenges: Challenges, accounts: Accounts, solves: seq<Solve>, start: AwardMap,
                         before: AwardMap, after: AwardMap, done: set<ChallengeId>, c: ChallengeId)
    requires IdsIncreasing(solves) && done <= challenges.Keys && c in challenges
    requires forall d :: d in done ==> AwardsMatch(before, challenges[d], accounts, Visited(solves, accounts, d))
    requires SameOutside(start, before, VisitedIdsOf(solves, accounts, done))
    requires AwardsMatch(after, challenges[c], accounts, Visited(solves, accounts, c))
    requires SameOutside(before, after, Ids(Visited(solves, accounts, c)))
    ensures forall d :: d in done + {c} ==> AwardsMatch(after, challenges[d], accounts, Visited(solves, accounts, d))
    ensures SameOutside(start, after, VisitedIdsOf(solves, accounts, done + {c}))
  {
    forall d | d in done && d != c ensures AwardsMatch(after, challenges[d], accounts, Visited(solves, accounts, d)) {
      var vis := Visited(solves, accounts, d);
      forall k | 0 <= k < |vis| ensures Get(after, vis[k].id) == Get(before, vis[k].id) {
        assert vis[k] in vis;
        OtherChallengeIds(solves, accounts, c, vis[k]);
      }
      MatchFrame(before, after, challenges[d], accounts, vis);
    }
    assert VisitedIdsOf(solves, accounts, done) <= VisitedIdsOf(solves, accounts, done + {c});
  }

  /**
   * Once every challenge of todo matches and nothing outside their visited
   * solves changed, a state consistent outside todo is consistent.
   */
  lemma ReconcileSetCompletes(challenges: Challenges, accounts: Accounts, solves: seq<Solve>, start: AwardMap,
                              after: AwardMap, todo: set<ChallengeId>)
    requires IdsIncreasing(solves) && ConsistentExcept(challenges, accounts, solves, start, todo)
    requires forall d :: d in todo && d in challenges ==> AwardsMatch(after, challenges[d], accounts, Visited(solves, accounts, d))
    requires SameOutside(start, after, VisitedIdsOf(solves, accounts, todo))
    ensures Consistent(challenges, accounts, solves, after)
  {
    forall c | c in challenges && IsFirstBlood(challenges[c]) && c !in todo
      ensures AwardsMatch(after, challenges[c], accounts, Visited(solves, accounts, c))
    {
      var vis := Visited(solves, accounts, c);
      forall k | 0 <= k < |vis| ensures Get(after, vis[k].id) == Get(start, vis[k].id) {
        assert vis[k].id in Ids(vis);
        if vis[k].id in VisitedIdsOf(solves, accounts, todo) {
          var d :| d in todo && vis[k].id in Ids(Visited(solves, accounts, d));
          var t :| t in Visited(solves, accounts, d) && t.id == vis[k].id;
          OtherChallengeIds(solves, accounts, c, t);
        }
      }
      MatchFrame(start, after, challenges[c], accounts, vis);
    }
  }
}
