/**
 * Deleting a user or team (before_flush): the awards the account held are
 * deleted and the challenges they were on are queued for reconciliation.
 * The account's solves drop out of every ranking through the join with the
 * account rows.
 */
module AccountTriggers {
  import opened Options
  import opened Awards
  import opened Ranking
  import opened Triggers

  /** The solves of ss not made by account a, in order. */
  function WithoutAccount(ss: seq<Solve>, a: AccountId): (r: seq<Solve>)
    ensures forall t :: t in r <==> t in ss && t.account != a
    ensures |r| <= |ss|
  {
    if ss == [] then []
    else
      var last := ss[|ss| - 1];
      WithoutAccount(ss[..|ss| - 1], a) + (if last.account != a then [last] else [])
  }

  /** As written: the challenges of the solves on which account a holds an award. */
  function AccountDeleteQueue(solves: seq<Solve>, awards: AwardMap, a: AccountId): (r: set<ChallengeId>)
    ensures forall s :: s in solves && s.id in awards && awards[s.id].account == a ==> s.challenge in r
  {
    set s | s in solves && s.id in awards && awards[s.id].account == a :: s.challenge
  }

  /** The awards left once every award held by account a is deleted. */
  function WithoutAwardsOf(awards: AwardMap, a: AccountId): (r: AwardMap)
    ensures forall id :: id in r <==> id in awards && awards[id].account != a
    ensures forall id :: id in r ==> r[id] == awards[id]
  {
    map id | id in awards && awards[id].account != a :: awards[id]
  }

  // ---------------------------------------------------------------------------
  // Sequence facts

  lemma {:induction false} WithoutAccountConcat(x: seq<Solve>, y: seq<Solve>, a: AccountId)
    ensures WithoutAccount(x + y, a) == WithoutAccount(x, a) + WithoutAccount(y, a)
  {
    if y != [] {
      var init := y[..|y| - 1];
      assert (x + y)[..|x + y| - 1] == x + init;
      WithoutAccountConcat(x, init, a);
    } else {
      assert x + y == x;
    }
  }

  lemma {:induction false} WithoutAccountNone(ss: seq<Solve>, a: AccountId)
    requires forall t :: t in ss ==> t.account != a
    ensures WithoutAccount(ss, a) == ss
  {
    if ss != [] {
      var init := ss[..|ss| - 1];
      assert ss == init + [ss[|ss| - 1]];
      WithoutAccountNone(init, a);
    }
  }

  lemma WithoutAccountSplice(vis: seq<Solve>, q: nat, a: AccountId)
    requires q < |vis| && vis[q].account == a
    ensures WithoutAccount(vis[..q] + vis[q + 1..], a) == WithoutAccount(vis, a)
  {
    var front, back := vis[..q], vis[q + 1..];
    assert vis == front + ([vis[q]] + back);
    assert WithoutAccount([vis[q]], a) == [] by {
      assert [vis[q]][..0] == [];
    }
    WithoutAccountConcat([vis[q]], back, a);
    assert WithoutAccount([vis[q]] + back, a) == WithoutAccount(back, a);
    WithoutAccountConcat(front, [vis[q]] + back, a);
    WithoutAccountConcat(front, back, a);
  }

  /** Leaving account a out of the account rows leaves its solves out of every ranking. */
  lemma {:induction false} VisitedWithoutAccount(solves: seq<Solve>, accounts: Accounts, a: AccountId, c: ChallengeId)
    ensures Visited(solves, accounts - {a}, c) == WithoutAccount(Visited(solves, accounts, c), a)
  {
    if solves != [] {
      var init := solves[..|solves| - 1];
      var last := solves[|solves| - 1];
      assert solves == init + [last];
      VisitedWithoutAccount(init, accounts, a, c);
      VisitedAppend(init, accounts, c, last);
      VisitedAppend(init, accounts - {a}, c, last);
      WithoutAccountConcat(Visited(init, accounts, c), if last.challenge == c && last.account in accounts then [last] else [], a);
      assert [last][..0] == [];
    }
  }

  // ---------------------------------------------------------------------------
  // Rankings that only differ in who is eligible elsewhere

  lemma {:induction false} EligibleCountSameEligibility(ch: Challenge, acc1: Accounts, acc2: Accounts, ss: seq<Solve>)
    requires forall t :: t in ss ==> Eligible(ch, acc1, t) == Eligible(ch, acc2, t)
    ensures EligibleCount(ch, acc1, ss) == EligibleCount(ch, acc2, ss)
  {
    if ss != [] {
      var init := ss[..|ss| - 1];
      assert ss == init + [ss[|ss| - 1]];
      EligibleCountSameEligibility(ch, acc1, acc2, init);
    }
  }

  /** A ranking only depends on the eligibility of the solves in it. */
  lemma SameEligibilitySameMatch(awards: AwardMap, ch: Challenge, acc1: Accounts, acc2: Accounts, vis: seq<Solve>)
    requires forall t :: t in vis ==> Eligible(ch, acc1, t) == Eligible(ch, acc2, t)
    requires AwardsMatch(awards, ch, acc1, vis)
    ensures AwardsMatch(awards, ch, acc2, vis)
  {
    forall k | 0 <= k < |vis| ensures DesiredAt(ch, acc2, vis, k) == DesiredAt(ch, acc1, vis, k) {
      assert vis[k] in vis;
      assert forall t :: t in vis[..k] ==> t in vis;
      EligibleCountSameEligibility(ch, acc1, acc2, vis[..k]);
    }
  }

  /** An award that matches its solve is held by that solve's account. */
  lemma AwardHeldBySolver(awards: AwardMap, ch: Challenge, accounts: Accounts, vis: seq<Solve>, k: nat)
    requires AwardsMatch(awards, ch, accounts, vis) && k < |vis| && vis[k].id in awards
    ensures awards[vis[k].id].account == vis[k].account
  {
    assert Get(awards, vis[k].id) == DesiredAt(ch, accounts, vis, k);
  }

  /** Dropping the awards of account a changes nothing on a ranking where a holds none. */
  lemma DropAwardsFrame(awards: AwardMap, ch: Challenge, accounts: Accounts, vis: seq<Solve>, a: AccountId)
    requires AwardsMatch(awards, ch, accounts, vis)
    requires forall t :: t in vis ==> t.account != a
    ensures AwardsMatch(WithoutAwardsOf(awards, a), ch, accounts, vis)
  {
    forall k | 0 <= k < |vis| ensures Get(WithoutAwardsOf(awards, a), vis[k].id) == Get(awards, vis[k].id) {
      assert vis[k] in vis;
      if vis[k].id in awards {
        AwardHeldBySolver(awards, ch, accounts, vis, k);
      }
    }
    MatchFrame(awards, WithoutAwardsOf(awards, a), ch, accounts, vis);
  }

  /** A first-blood challenge that matched still matches once a, who never solved it, is gone. */
  lemma UnsolvedChallengeUnaffected(awards: AwardMap, ch: Challenge, accounts: Accounts, solves: seq<Solve>,
                                    a: AccountId, c: ChallengeId)
    requires AwardsMatch(awards, ch, accounts, Visited(solves, accounts, c))
    requires forall t :: t in Visited(solves, accounts, c) ==> t.account != a
    ensures AwardsMatch(WithoutAwardsOf(awards, a), ch, accounts - {a}, Visited(solves, accounts - {a}, c))
  {
    var vis := Visited(solves, accounts, c);
    VisitedWithoutAccount(solves, accounts, a, c);
    WithoutAccountNone(vis, a);
    DropAwardsFrame(awards, ch, accounts, vis, a);
    SameEligibilitySameMatch(WithoutAwardsOf(awards, a), ch, accounts, accounts - {a}, vis);
  }

  // ---------------------------------------------------------------------------
  // Routing

  /**
   * Corrected routing: queueing every first-blood challenge the account
   * solved keeps every other challenge consistent.
   */
  lemma FixedAccountDeleteKeepsConsistency(challenges: Challenges, accounts: Accounts, solves: seq<Solve>, awards: AwardMap,
                                           stale: set<ChallengeId>, a: AccountId)
    requires ConsistentExcept(challenges, accounts, solves, awards, stale)
    ensures ConsistentExcept(challenges, accounts - {a}, solves, WithoutAwardsOf(awards, a),
                             stale + FlagChangeQueue(challenges, solves, a))
  {
    forall c | c in challenges && IsFirstBlood(challenges[c]) && c !in stale + FlagChangeQueue(challenges, solves, a)
      ensures AwardsMatch(WithoutAwardsOf(awards, a), challenges[c], accounts - {a}, Visited(solves, accounts - {a}, c))
    {
      forall t | t in Visited(solves, accounts, c) ensures t.account != a {
        assert t.account == a ==> t.challenge in FlagChangeQueue(challenges, solves, a);
      }
      UnsolvedChallengeUnaffected(awards, challenges[c], accounts, solves, a, c);
    }
  }

  /**
   * The visited solves of a gap-free challenge on which account a holds no
   * award can all be dropped without any award changing.
   */
  lemma {:induction false} DropAccountSolves(awards: AwardMap, ch: Challenge, accounts: Accounts, vis: seq<Solve>, a: AccountId)
    requires IdsIncreasing(vis) && NoGaps(ch.schedule) && AwardsMatch(awards, ch, accounts, vis)
    requires forall t :: t in vis && t.account == a ==> t.id !in awards
    ensures AwardsMatch(awards, ch, accounts, WithoutAccount(vis, a))
    decreases |vis|
  {
    if q :| 0 <= q < |vis| && vis[q].account == a {
      assert vis[q] in vis;
      GapFreeDeleteNeedsNoReconcile(awards, ch, accounts, vis, q);
      var rest := vis[..q] + vis[q + 1..];
      RemoveSplice(vis, q);
      RemoveIncreasing(vis, {vis[q].id});
      assert forall t :: t in rest ==> t in vis;
      WithoutAccountSplice(vis, q, a);
      DropAccountSolves(awards, ch, accounts, rest, a);
    } else {
      WithoutAccountNone(vis, a);
    }
  }

  /**
   * As written, deleting an account keeps every first-blood challenge
   * consistent except those now queued, provided no schedule has gaps.
   */
  lemma AccountDeleteKeepsConsistencyWithoutGaps(challenges: Challenges, accounts: Accounts, solves: seq<Solve>, awards: AwardMap,
                                                 stale: set<ChallengeId>, a: AccountId)
    requires ConsistentExcept(challenges, accounts, solves, awards, stale) && IdsIncreasing(solves)
    requires forall c :: c in challenges ==> NoGaps(challenges[c].schedule)
    ensures ConsistentExcept(challenges, accounts - {a}, solves, WithoutAwardsOf(awards, a),
                             stale + AccountDeleteQueue(solves, awards, a))
  {
    forall c | c in challenges && IsFirstBlood(challenges[c]) && c !in stale + AccountDeleteQueue(solves, awards, a)
      ensures AwardsMatch(WithoutAwardsOf(awards, a), challenges[c], accounts - {a}, Visited(solves, accounts - {a}, c))
    {
      AccountDeleteOne(challenges[c], accounts, solves, awards, a, c);
    }
  }

  lemma AccountDeleteOne(ch: Challenge, accounts: Accounts, solves: seq<Solve>, awards: AwardMap, a: AccountId, c: ChallengeId)
    requires IdsIncreasing(solves) && NoGaps(ch.schedule)
    requires AwardsMatch(awards, ch, accounts, Visited(solves, accounts, c))
    requires c !in AccountDeleteQueue(solves, awards, a)
    ensures AwardsMatch(WithoutAwardsOf(awards, a), ch, accounts - {a}, Visited(solves, accounts - {a}, c))
  {
    var vis := Visited(solves, accounts, c);
    VisitedIncreasing(solves, accounts, c);
    forall t | t in vis && t.account == a ensures t.id !in awards {
      var k :| 0 <= k < |vis| && vis[k] == t;
      if t.id in awards {
        AwardHeldBySolver(awards, ch, accounts, vis, k);
      }
    }
    DropAccountSolves(awards, ch, accounts, vis, a);
    var kept := WithoutAccount(vis, a);
    DropAwardsFrame(awards, ch, accounts, kept, a);
    SameEligibilitySameMatch(WithoutAwardsOf(awards, a), ch, accounts, accounts - {a}, kept);
    VisitedWithoutAccount(solves, accounts, a, c);
  }

  lemma GapShapeAccountQueues(challenges: Challenges, accounts: Accounts, solves: seq<Solve>, c: ChallengeId)
    requires GapShape(challenges, accounts, solves, c)
    ensures AccountDeleteQueue(solves, GapShapeAwards(challenges[c], solves[1]), solves[0].account) == {}
    ensures FlagChangeQueue(challenges, solves, solves[0].account) == {c}
  {
    var awards := GapShapeAwards(challenges[c], solves[1]);
    assert solves == [solves[0], solves[1]];
    assert solves[0] in solves;
    assert awards[solves[1].id].account == solves[1].account;
  }

  lemma GapShapeAccountLeftStale(challenges: Challenges, accounts: Accounts, solves: seq<Solve>, c: ChallengeId)
    requires GapShape(challenges, accounts, solves, c)
    ensures var a := solves[0].account;
      !Consistent(challenges, accounts - {a}, solves, WithoutAwardsOf(GapShapeAwards(challenges[c], solves[1]), a))
  {
    var a := solves[0].account;
    var awards := WithoutAwardsOf(GapShapeAwards(challenges[c], solves[1]), a);
    GapShapeVisitedWithout(challenges, accounts, solves, c);
    LoneSolveUnrewarded(challenges[c], accounts - {a}, solves[1]);
    assert GapShapeAwards(challenges[c], solves[1])[solves[1].id].account == solves[1].account;
    assert Get(awards, solves[1].id) != None;
    assert !AwardsMatch(awards, challenges[c], accounts - {a}, [solves[1]]);
    StaleAt(challenges, accounts - {a}, solves, awards, c);
  }

  /**
   * The account-delete routing fails on the same shape: deleting the account
   * of s0 (1st, no award) queues nothing, and s1 keeps "2nd blood" though it
   * is now first.
   */
  lemma AccountDeleteGuardFails(challenges: Challenges, accounts: Accounts, solves: seq<Solve>, c: ChallengeId)
    requires GapShape(challenges, accounts, solves, c)
    ensures var awards := GapShapeAwards(challenges[c], solves[1]);
      var a := solves[0].account;
      && AccountDeleteQueue(solves, awards, a) == {}
      && !Consistent(challenges, accounts - {a}, solves, WithoutAwardsOf(awards, a))
  {
    GapShapeAccountQueues(challenges, accounts, solves, c);
    GapShapeAccountLeftStale(challenges, accounts, solves, c);
  }

  /** On the same shape the corrected routing queues c, and reconciling c repairs the state. */
  lemma AccountDeleteFixRepairs(challenges: Challenges, accounts: Accounts, solves: seq<Solve>, c: ChallengeId)
    requires GapShape(challenges, accounts, solves, c)
    ensures var awards := GapShapeAwards(challenges[c], solves[1]);
      var a := solves[0].account;
      && FlagChangeQueue(challenges, solves, a) == {c}
      && Consistent(challenges, accounts - {a}, solves,
                    Reconciled(WithoutAwardsOf(awards, a), challenges[c], accounts - {a}, Visited(solves, accounts - {a}, c)))
  {
    GapShapeAccountQueues(challenges, accounts, solves, c);
    GapShapeConsistent(challenges, accounts, solves, c);
    GapShapeVisited(challenges, accounts, solves, c);
    FixedAccountDeleteThenFlush(challenges, accounts, solves, GapShapeAwards(challenges[c], solves[1]), solves[0].account, c);
  }

  /** The concrete run: the example of the solve-delete guard, with account 1 deleted. */
  lemma AccountDeleteGuardCounterexample()
    ensures Consistent(GapChallenges, GapAccounts, GapSolves, GapAwards)
    ensures AccountDeleteQueue(GapSolves, GapAwards, 1) == {}
    ensures !Consistent(GapChallenges, GapAccounts - {1}, GapSolves, WithoutAwardsOf(GapAwards, 1))
  {
    GapExampleHasShape();
    GapShapeConsistent(GapChallenges, GapAccounts, GapSolves, 0);
    AccountDeleteGuardFails(GapChallenges, GapAccounts, GapSolves, 0);
  }

  /** The same run with the corrected routing: challenge 0 is queued and its reconciliation repairs it. */
  lemma AccountDeleteFixExample()
    ensures FlagChangeQueue(GapChallenges, GapSolves, 1) == {0}
    ensures Consistent(GapChallenges, GapAccounts - {1}, GapSolves,
                       Reconciled(WithoutAwardsOf(GapAwards, 1), GapChallenge, GapAccounts - {1},
                                  Visited(GapSolves, GapAccounts - {1}, 0)))
  {
    GapExampleHasShape();
    AccountDeleteFixRepairs(GapChallenges, GapAccounts, GapSolves, 0);
  }

  /**
   * With the corrected routing, deleting an account whose solves are all on
   * challenge c and reconciling c gives a consistent state again.
   */
  lemma FixedAccountDeleteThenFlush(challenges: Challenges, accounts: Accounts, solves: seq<Solve>, awards: AwardMap,
                                    a: AccountId, c: ChallengeId)
    requires Consistent(challenges, accounts, solves, awards) && IdsIncreasing(solves)
    requires c in challenges && FlagChangeQueue(challenges, solves, a) <= {c}
    ensures Consistent(challenges, accounts - {a}, solves,
                       Reconciled(WithoutAwardsOf(awards, a), challenges[c], accounts - {a}, Visited(solves, accounts - {a}, c)))
  {
    FixedAccountDeleteKeepsConsistency(challenges, accounts, solves, awards, {}, a);
    assert ConsistentExcept(challenges, accounts - {a}, solves, WithoutAwardsOf(awards, a), {c});
    ReconcileKeepsOthers(challenges, accounts - {a}, solves, WithoutAwardsOf(awards, a), {c}, c, challenges[c]);
    assert challenges[c := challenges[c]] == challenges;
    assert {c} - {c} == {};
  }
}
