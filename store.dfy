/**
 * The rows the plugin reads and writes, held by one object whose methods
 * are the challenge type's class methods and the session hooks. A unit of
 * work is one or more of the mutating methods followed by Flush, which is
 * what a commit runs (before_flush, then after_flush_postexec).
 */
module Store {
  import opened Options
  import opened BonusForm
  import opened Awards
  import opened Ranking
  import opened Triggers
  import opened AccountTriggers

  /** Solve ids are issued in increasing order, and rows only refer to rows that exist. */
  ghost predicate WellFormed(challenges: Challenges, solves: seq<Solve>, awards: AwardMap, nextSolveId: SolveId,
                             pending: set<ChallengeId>)
  {
    && IdsIncreasing(solves)
    && (forall s :: s in solves ==> s.id < nextSolveId && s.challenge in challenges)
    && (forall id :: id in awards ==> id < nextSolveId)
    && pending <= challenges.Keys
  }

  class Ctf {
    var challenges: Challenges
    var accounts: Accounts
    var solves: seq<Solve>
    var awards: AwardMap
    var nextSolveId: SolveId
    /** The session's requires_award_recalculation set. */
    var pending: set<ChallengeId>

    ghost predicate Valid()
      reads this
    {
      WellFormed(challenges, solves, awards, nextSolveId, pending)
    }

    /** Every first-blood challenge not awaiting reconciliation carries the awards it should. */
    ghost predicate Settled()
      reads this
    {
      ConsistentExcept(challenges, accounts, solves, awards, pending)
    }

    constructor (challenges: Challenges, accounts: Accounts)
      ensures Valid() && Settled()
      ensures this.challenges == challenges && this.accounts == accounts
      ensures solves == [] && awards == map[] && pending == {}
    {
      this.challenges := challenges;
      this.accounts := accounts;
      solves := [];
      awards := map[];
      nextSolveId := 0;
      pending := {};
      new;
      forall c | c in challenges ensures Visited([], accounts, c) == [] { }
    }

    /**
     * recalculate_awards: walk the visited solves of c in id order, counting
     * the eligible ones, and insert, update or delete each solve's award.
     */
    method RecalculateAwards(c: ChallengeId)
      requires Valid() && c in challenges
      modifies this
      ensures Valid()
      ensures challenges == old(challenges) && accounts == old(accounts) && solves == old(solves)
      ensures nextSolveId == old(nextSolveId) && pending == old(pending)
      ensures awards == Reconciled(old(awards), challenges[c], accounts, Visited(solves, accounts, c))
      ensures AwardsMatch(awards, challenges[c], accounts, Visited(solves, accounts, c))
      ensures SameOutside(old(awards), awards, Ids(Visited(solves, accounts, c)))
    {
      var ch := challenges[c];
      var vis := Visited(solves, accounts, c);
      VisitedIncreasing(solves, accounts, c);
      var i := 0;
      var k := 0;
      while k < |vis|
        invariant k <= |vis|
        invariant challenges == old(challenges) && accounts == old(accounts) && solves == old(solves)
        invariant nextSolveId == old(nextSolveId) && pending == old(pending)
        invariant i == EligibleCount(ch, accounts, vis[..k])
        invariant awards == Reconciled(old(awards), ch, accounts, vis[..k])
      {
        var s := vis[k];
        assert s in vis;
        ReconciledStep(old(awards), ch, accounts, vis, k);
        EligibleCountStep(ch, accounts, vis, k);
        DesiredAtCounted(ch, accounts, vis, k, i);
        var data: Option<Award> := None;
        if CanGetAward(ch, accounts[s.account]) {
          data := GenAward(ch, s, i + 1);
          i := i + 1;
        }
        assert data == DesiredAt(ch, accounts, vis, k);
        match data {
          case Some(w) =>
            awards := awards[s.id := w];
          case None =>
            if s.id in awards {
              awards := awards - {s.id};
            } else {
              assert awards - {s.id} == awards;
            }
        }
        assert awards == Reconciled(old(awards), ch, accounts, vis[..k + 1]);
        assert i == EligibleCount(ch, accounts, vis[..k + 1]);
        k := k + 1;
      }
      assert vis[..k] == vis;
      ReconciledMatches(old(awards), ch, accounts, vis);
      assert WellFormed(challenges, solves, awards, nextSolveId, pending) by {
        forall id | id in awards ensures id < nextSolveId {
          if id in Ids(vis) {
            var t :| t in vis && t.id == id;
          } else {
            assert Get(awards, id) == Get(old(awards), id);
          }
        }
      }
    }

    /**
     * update: copy every field not named like a bonus key onto the
     * challenge, read the bonus schedule if one is sent, and reconcile the
     * challenge. A parse failure aborts the request and changes nothing.
     */
    method Update(c: ChallengeId, data: FormData) returns (r: Result<Option<Schedule>, ParseError>)
      requires Valid() && c in challenges
      modifies this
      ensures Valid()
      ensures Parses(data, r)
      ensures r.Err? ==> challenges == old(challenges) && awards == old(awards)
      ensures r.Ok? ==> challenges == old(challenges)[c := Challenge(
                old(challenges)[c].columns + Settable(data),
                if r.value.Some? then r.value.value else old(challenges)[c].schedule)]
      ensures r.Ok? ==> awards == Reconciled(old(awards), challenges[c], accounts, Visited(solves, accounts, c))
      ensures accounts == old(accounts) && solves == old(solves)
      ensures nextSolveId == old(nextSolveId) && pending == old(pending)
      ensures old(Settled()) ==> Settled()
    {
      r := ParseSchedule(data);
      if r.Err? {
        return;
      }
      var old' := challenges[c];
      var schedule := if r.value.Some? then r.value.value else old'.schedule;
      challenges := challenges[c := Challenge(old'.columns + Settable(data), schedule)];
      ghost var before := awards;
      RecalculateAwards(c);
      if old(Settled()) {
        ReconcileKeepsOthers(old(challenges), accounts, solves, before, pending, c, challenges[c]);
      }
    }

    /** delete: drop the awards of every solve on c; the challenge and its solves go with it. */
    method DeleteChallenge(c: ChallengeId)
      requires Valid() && c in challenges
      modifies this
      ensures Valid()
      ensures awards == old(awards) - SolveIdsOn(old(solves), c)
      ensures solves == Remove(old(solves), SolveIdsOn(old(solves), c))
      ensures challenges == old(challenges) - {c} && pending == old(pending) - {c}
      ensures accounts == old(accounts) && nextSolveId == old(nextSolveId)
      ensures old(Settled()) ==> Settled()
    {
      var doomed := SolveIdsOn(solves, c);
      var awards', solves', challenges', pending' := awards - doomed, Remove(solves, doomed), challenges - {c}, pending - {c};
      ghost var wasSettled := Settled();
      assert wasSettled ==> ConsistentExcept(challenges', accounts, solves', awards', pending') by {
        if wasSettled {
          ChallengeDeleteKeepsConsistency(challenges, accounts, solves, awards, pending, c);
        }
      }
      assert WellFormed(challenges', solves', awards', nextSolveId, pending') by {
        RemoveIncreasing(solves, doomed);
      }
      awards, solves, challenges, pending := awards', solves', challenges', pending';
    }

    /**
     * solve: record account a's solve of c, then, if the solver can get an
     * award, count the eligible solves up to it and insert the award for
     * that rank when the schedule has one.
     */
    method SolveChallenge(a: AccountId, c: ChallengeId, date: int) returns (s: Solve)
      requires Valid() && c in challenges && a in accounts
      requires forall t :: t in solves ==> t.account != a || t.challenge != c
      modifies this
      ensures Valid()
      ensures s == Solve(old(nextSolveId), a, c, date)
      ensures solves == old(solves) + [s] && nextSolveId == old(nextSolveId) + 1
      ensures challenges == old(challenges) && accounts == old(accounts) && pending == old(pending)
      ensures s in solves && awards == FastPath(challenges[c], accounts, solves, s, old(awards))
      ensures old(Settled()) ==> Settled()
    {
      s := Solve(nextSolveId, a, c, date);
      ghost var before := awards;
      AppendIncreasing(solves, s);
      if Settled() {
        SolvePreservesConsistency(challenges, accounts, solves, awards, pending, s);
      }
      solves := solves + [s];
      nextSolveId := nextSolveId + 1;
      awards := FastPath(challenges[c], accounts, solves, s, awards);
    }

    /**
     * before_flush for a deleted solve, as written: delete its award and
     * queue its challenge only if an award row was deleted.
     */
    method DeleteSolve(s: Solve)
      requires Valid() && s in solves
      modifies this
      ensures solves == Remove(old(solves), {s.id}) && awards == old(awards) - {s.id}
      ensures pending == old(pending) + SolveDeleteQueue(old(awards), s)
      ensures challenges == old(challenges) && accounts == old(accounts) && nextSolveId == old(nextSolveId)
      ensures Valid()
      ensures old(Settled()) && NoGaps(challenges[s.challenge].schedule) ==> Settled()
    {
      var rowcount := if s.id in awards then 1 else 0;
      var pending' := if rowcount > 0 then pending + {s.challenge} else pending;
      assert pending' == pending + SolveDeleteQueue(awards, s);
      var awards', solves' := awards - {s.id}, Remove(solves, {s.id});
      ghost var wasSettled := Settled() && NoGaps(challenges[s.challenge].schedule);
      assert wasSettled ==> ConsistentExcept(challenges, accounts, solves', awards', pending') by {
        if wasSettled {
          SolveDeleteKeepsConsistencyWithoutGaps(challenges, accounts, solves, awards, pending, s);
        }
      }
      assert WellFormed(challenges, solves', awards', nextSolveId, pending') by {
        RemoveIncreasing(solves, {s.id});
      }
      awards, solves, pending := awards', solves', pending';
    }

    /** before_flush for a deleted solve with the guard removed: its challenge is always queued. */
    method DeleteSolveCorrected(s: Solve)
      requires Valid() && s in solves
      modifies this
      ensures solves == Remove(old(solves), {s.id}) && awards == old(awards) - {s.id}
      ensures pending == old(pending) + SolveDeleteQueueFixed(s)
      ensures challenges == old(challenges) && accounts == old(accounts) && nextSolveId == old(nextSolveId)
      ensures Valid()
      ensures old(Settled()) ==> Settled()
    {
      ghost var wasSettled := Settled();
      assert wasSettled ==> ConsistentExcept(challenges, accounts, Remove(solves, {s.id}), awards - {s.id},
                                             pending + SolveDeleteQueueFixed(s)) by {
        if wasSettled {
          FixedSolveDeleteKeepsConsistency(challenges, accounts, solves, awards, pending, s);
        }
      }
      assert WellFormed(challenges, Remove(solves, {s.id}), awards - {s.id}, nextSolveId,
                        pending + SolveDeleteQueueFixed(s)) by {
        RemoveIncreasing(solves, {s.id});
      }
      awards := awards - {s.id};
      pending := pending + SolveDeleteQueueFixed(s);
      solves := Remove(solves, {s.id});
    }

    /**
     * before_flush for a deleted user or team, as written: queue the
     * challenge of every award the account holds and delete those awards.
     * Every such award must still have its solve.
     */
    method DeleteAccount(a: AccountId)
      requires Valid() && a in accounts
      requires forall id :: id in awards && awards[id].account == a ==> id in Ids(solves)
      modifies this
      ensures Valid()
      ensures accounts == old(accounts) - {a} && awards == WithoutAwardsOf(old(awards), a)
      ensures pending == old(pending) + AccountDeleteQueue(old(solves), old(awards), a)
      ensures challenges == old(challenges) && solves == old(solves) && nextSolveId == old(nextSolveId)
      ensures old(Settled()) && (forall c :: c in challenges ==> NoGaps(challenges[c].schedule)) ==> Settled()
    {
      ghost var wasSettled := Settled() && forall c :: c in challenges ==> NoGaps(challenges[c].schedule);
      assert wasSettled ==> ConsistentExcept(challenges, accounts - {a}, solves, WithoutAwardsOf(awards, a),
                                             pending + AccountDeleteQueue(solves, awards, a)) by {
        if wasSettled {
          AccountDeleteKeepsConsistencyWithoutGaps(challenges, accounts, solves, awards, pending, a);
        }
      }
      pending := pending + AccountDeleteQueue(solves, awards, a);
      awards := WithoutAwardsOf(awards, a);
      accounts := accounts - {a};
    }

    /**
     * before_flush for a deleted user or team with corrected routing: queue
     * every first-blood challenge the account solved.
     */
    method DeleteAccountCorrected(a: AccountId)
      requires Valid() && a in accounts
      modifies this
      ensures Valid()
      ensures accounts == old(accounts) - {a} && awards == WithoutAwardsOf(old(awards), a)
      ensures pending == old(pending) + FlagChangeQueue(old(challenges), old(solves), a)
      ensures challenges == old(challenges) && solves == old(solves) && nextSolveId == old(nextSolveId)
      ensures old(Settled()) ==> Settled()
    {
      ghost var wasSettled := Settled();
      assert wasSettled ==> ConsistentExcept(challenges, accounts - {a}, solves, WithoutAwardsOf(awards, a),
                                             pending + FlagChangeQueue(challenges, solves, a)) by {
        if wasSettled {
          FixedAccountDeleteKeepsConsistency(challenges, accounts, solves, awards, pending, a);
        }
      }
      pending := pending + FlagChangeQueue(challenges, solves, a);
      awards := WithoutAwardsOf(awards, a);
      accounts := accounts - {a};
    }

    /**
     * before_flush for a modified user or team: when hidden or banned
     * changes, queue every first-blood challenge the account solved.
     */
    method SetAccountFlags(a: AccountId, hidden: bool, banned: bool)
      requires Valid() && a in accounts
      modifies this
      ensures Valid()
      ensures accounts == old(accounts)[a := Account(hidden, banned)]
      ensures pending == old(pending) + (if old(accounts)[a] == Account(hidden, banned) then {}
                                          else FlagChangeQueue(challenges, solves, a))
      ensures challenges == old(challenges) && solves == old(solves) && awards == old(awards)
      ensures nextSolveId == old(nextSolveId)
      ensures old(Settled()) ==> Settled()
    {
      var changed := accounts[a].hidden != hidden || accounts[a].banned != banned;
      if changed {
        ghost var wasSettled := Settled();
        assert wasSettled ==> ConsistentExcept(challenges, accounts[a := Account(hidden, banned)], solves, awards,
                                               pending + FlagChangeQueue(challenges, solves, a)) by {
          if wasSettled {
            FlagChangeKeepsConsistency(challenges, accounts, solves, awards, pending, a, Account(hidden, banned));
          }
        }
        pending := pending + FlagChangeQueue(challenges, solves, a);
      } else {
        assert accounts[a := Account(hidden, banned)] == accounts;
      }
      accounts := accounts[a := Account(hidden, banned)];
    }

    /**
     * Reconcile every challenge of todo, in any order: each of them then
     * matches, and no award outside their visited solves changes.
     */
    method RecalculateEach(todo: set<ChallengeId>)
      requires Valid() && todo <= challenges.Keys
      modifies this
      ensures Valid()
      ensures challenges == old(challenges) && accounts == old(accounts) && solves == old(solves)
      ensures nextSolveId == old(nextSolveId) && pending == old(pending)
      ensures forall c :: c in todo ==> AwardsMatch(awards, challenges[c], accounts, Visited(solves, accounts, c))
      ensures SameOutside(old(awards), awards, VisitedIdsOf(solves, accounts, todo))
      ensures old(ConsistentExcept(challenges, accounts, solves, awards, todo)) ==> Consistent(challenges, accounts, solves, awards)
    {
      var left := todo;
      while left != {}
        invariant Valid() && left <= todo
        invariant challenges == old(challenges) && accounts == old(accounts) && solves == old(solves)
        invariant nextSolveId == old(nextSolveId) && pending == old(pending)
        invariant forall d :: d in todo - left ==> AwardsMatch(awards, challenges[d], accounts, Visited(solves, accounts, d))
        invariant SameOutside(old(awards), awards, VisitedIdsOf(solves, accounts, todo - left))
        decreases left
      {
        var c :| c in left;
        ghost var before := awards;
        RecalculateAwards(c);
        ReconcileOneMore(challenges, accounts, solves, old(awards), before, awards, todo - left, c);
        assert todo - (left - {c}) == (todo - left) + {c};
        left := left - {c};
      }
      assert todo - left == todo;
      if old(ConsistentExcept(challenges, accounts, solves, awards, todo)) {
        ReconcileSetCompletes(challenges, accounts, solves, old(awards), awards, todo);
      }
    }

    /**
     * after_bulk_delete on the solves table: the rows are gone, so every
     * first-blood challenge is reconciled.
     */
    method BulkDeleteSolves(ids: set<SolveId>)
      requires Valid()
      modifies this
      ensures Valid()
      ensures solves == Remove(old(solves), ids)
      ensures challenges == old(challenges) && accounts == old(accounts)
      ensures nextSolveId == old(nextSolveId) && pending == old(pending)
      ensures Consistent(challenges, accounts, solves, awards)
      ensures SameOutside(old(awards), awards,
                          VisitedIdsOf(solves, accounts, set c | c in challenges && IsFirstBlood(challenges[c])))
      ensures Settled()
    {
      RemoveIncreasing(solves, ids);
      solves := Remove(solves, ids);
      var firstBloods := set c | c in challenges && IsFirstBlood(challenges[c]);
      RecalculateEach(firstBloods);
      assert Consistent(challenges, accounts, solves, awards);
    }

    /** after_flush_postexec: reconcile every queued challenge, then clear the queue. */
    method Flush()
      requires Valid()
      modifies this
      ensures Valid() && pending == {}
      ensures challenges == old(challenges) && accounts == old(accounts) && solves == old(solves)
      ensures nextSolveId == old(nextSolveId)
      ensures forall c :: c in old(pending) ==> AwardsMatch(awards, challenges[c], accounts, Visited(solves, accounts, c))
      ensures SameOutside(old(awards), awards, VisitedIdsOf(solves, accounts, old(pending)))
      ensures old(Settled()) ==> Consistent(challenges, accounts, solves, awards)
    {
      RecalculateEach(pending);
      pending := {};
    }
  }
}
