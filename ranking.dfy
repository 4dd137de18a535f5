/**
 * What recalculate_awards computes, stated on values: the solves it visits
 * (the challenge's solves whose account row exists, in id order), the rank
 * of each (how many eligible solves precede it, plus one), the award each
 * should carry, and the award map it leaves behind.
 */
module Ranking {
  import opened Options
  import opened Awards

  type AwardMap = map<SolveId, Award>

  predicate IdsIncreasing(ss: seq<Solve>)
  {
    forall i, j :: 0 <= i < j < |ss| ==> ss[i].id < ss[j].id
  }

  /** The solves on challenge c joined with their account rows, in id order. */
  function Visited(solves: seq<Solve>, accounts: map<AccountId, Account>, c: ChallengeId): (r: seq<Solve>)
    ensures forall s :: s in r <==> s in solves && s.challenge == c && s.account in accounts
  {
    if solves == [] then []
    else
      var last := solves[|solves| - 1];
      var rest := Visited(solves[..|solves| - 1], accounts, c);
      assert solves == solves[..|solves| - 1] + [last];
      if last.challenge == c && last.account in accounts then rest + [last] else rest
  }

  /** The solves whose id is not in ids, in their order. */
  function Remove(ss: seq<Solve>, ids: set<SolveId>): (r: seq<Solve>)
    ensures forall s :: s in r <==> s in ss && s.id !in ids
  {
    if ss == [] then []
    else
      var last := ss[|ss| - 1];
      var rest := Remove(ss[..|ss| - 1], ids);
      assert ss == ss[..|ss| - 1] + [last];
      if last.id in ids then rest else rest + [last]
  }

  predicate Eligible(ch: Challenge, accounts: map<AccountId, Account>, s: Solve)
  {
    s.account in accounts && CanGetAward(ch, accounts[s.account])
  }

  /** How many solves of ss are eligible. */
  function EligibleCount(ch: Challenge, accounts: map<AccountId, Account>, ss: seq<Solve>): (r: nat)
    ensures r <= |ss|
  {
    if ss == [] then 0
    else
      EligibleCount(ch, accounts, ss[..|ss| - 1]) + (if Eligible(ch, accounts, ss[|ss| - 1]) then 1 else 0)
  }

  /** The rank the k-th visited solve would hold: one more than the eligible solves before it. */
  function RankAt(ch: Challenge, accounts: map<AccountId, Account>, vis: seq<Solve>, k: nat): (r: nat)
    requires k < |vis|
    ensures 1 <= r <= k + 1
  {
    EligibleCount(ch, accounts, vis[..k]) + 1
  }

  /** The award the k-th visited solve should carry. */
  function DesiredAt(ch: Challenge, accounts: map<AccountId, Account>, vis: seq<Solve>, k: nat): Option<Award>
    requires k < |vis|
  {
    if Eligible(ch, accounts, vis[k]) then GenAward(ch, vis[k], RankAt(ch, accounts, vis, k)) else None
  }

  function Get(awards: AwardMap, id: SolveId): Option<Award>
  {
    if id in awards then Some(awards[id]) else None
  }

  function Ids(vis: seq<Solve>): set<SolveId>
  {
    set s | s in vis :: s.id
  }

  /** Every visited solve carries exactly the award it should, and no other. */
  ghost predicate AwardsMatch(awards: AwardMap, ch: Challenge, accounts: map<AccountId, Account>, vis: seq<Solve>)
  {
    forall k :: 0 <= k < |vis| ==> Get(awards, vis[k].id) == DesiredAt(ch, accounts, vis, k)
  }

  /** awards and awards' agree on every solve id outside ids. */
  ghost predicate SameOutside(awards: AwardMap, awards': AwardMap, ids: set<SolveId>)
  {
    forall id :: id !in ids ==> Get(awards', id) == Get(awards, id)
  }

  /**
   * The award map after visiting the solves of vis in order: each solve's
   * award is set to the one it should carry or deleted when it should carry
   * none. Awards of solves outside vis are left as they are.
   */
  function Reconciled(awards: AwardMap, ch: Challenge, accounts: map<AccountId, Account>, vis: seq<Solve>): AwardMap
  {
    if vis == [] then awards
    else
      var k := |vis| - 1;
      var before := Reconciled(awards, ch, accounts, vis[..k]);
      match DesiredAt(ch, accounts, vis, k)
      case Some(w) => before[vis[k].id := w]
      case None => before - {vis[k].id}
  }

  // ---------------------------------------------------------------------------
  // Sequence facts

  lemma {:induction false} VisitedIncreasing(solves: seq<Solve>, accounts: map<AccountId, Account>, c: ChallengeId)
    requires IdsIncreasing(solves)
    ensures IdsIncreasing(Visited(solves, accounts, c))
  {
    if solves != [] {
      var init := solves[..|solves| - 1];
      VisitedIncreasing(init, accounts, c);
      var rest := Visited(init, accounts, c);
      forall s | s in rest ensures s.id < solves[|solves| - 1].id {
        var i :| 0 <= i < |init| && init[i] == s;
      }
    }
  }

  lemma {:induction false} RemoveIncreasing(ss: seq<Solve>, ids: set<SolveId>)
    requires IdsIncreasing(ss)
    ensures IdsIncreasing(Remove(ss, ids))
  {
    if ss != [] {
      var init := ss[..|ss| - 1];
      var last := ss[|ss| - 1];
      RemoveIncreasing(init, ids);
      var rest := Remove(init, ids);
      forall s | s in rest ensures s.id < last.id {
        var i :| 0 <= i < |init| && init[i] == s;
      }
      assert Remove(ss, ids) == if last.id in ids then rest else rest + [last];
    }
  }

  lemma VisitedAppend(solves: seq<Solve>, accounts: map<AccountId, Account>, c: ChallengeId, s: Solve)
    ensures Visited(solves + [s], accounts, c)
         == Visited(solves, accounts, c) + (if s.challenge == c && s.account in accounts then [s] else [])
  {
    assert (solves + [s])[..|solves|] == solves;
  }

  lemma {:induction false} VisitedConcat(a: seq<Solve>, b: seq<Solve>, accounts: map<AccountId, Account>, c: ChallengeId)
    ensures Visited(a + b, accounts, c) == Visited(a, accounts, c) + Visited(b, accounts, c)
  {
    if b != [] {
      var init := b[..|b| - 1];
      VisitedConcat(a, init, accounts, c);
      assert (a + b)[..|a + b| - 1] == a + init;
    } else {
      assert a + b == a;
    }
  }

  lemma {:induction false} VisitedRemove(solves: seq<Solve>, accounts: map<AccountId, Account>, c: ChallengeId, ids: set<SolveId>)
    ensures Visited(Remove(solves, ids), accounts, c) == Remove(Visited(solves, accounts, c), ids)
  {
    if solves != [] {
      var init := solves[..|solves| - 1];
      var last := solves[|solves| - 1];
      VisitedRemove(init, accounts, c, ids);
      if last.id !in ids {
        VisitedAppend(Remove(init, ids), accounts, c, last);
      }
      if last.challenge == c && last.account in accounts {
        var v := Visited(init, accounts, c);
        assert (v + [last])[..|v|] == v;
      }
    }
  }

  lemma {:induction false} RemoveConcat(a: seq<Solve>, b: seq<Solve>, ids: set<SolveId>)
    ensures Remove(a + b, ids) == Remove(a, ids) + Remove(b, ids)
  {
    if b != [] {
      var init := b[..|b| - 1];
      RemoveConcat(a, init, ids);
      assert (a + b)[..|a + b| - 1] == a + init;
    } else {
      assert a + b == a;
    }
  }

  lemma {:induction false} RemoveNothing(ss: seq<Solve>, ids: set<SolveId>)
    requires forall s :: s in ss ==> s.id !in ids
    ensures Remove(ss, ids) == ss
  {
    if ss != [] {
      RemoveNothing(ss[..|ss| - 1], ids);
    }
  }

  /** Deleting one solve of an id-ordered list leaves the others in place. */
  lemma RemoveSplice(ss: seq<Solve>, q: nat)
    requires IdsIncreasing(ss) && q < |ss|
    ensures Remove(ss, {ss[q].id}) == ss[..q] + ss[q + 1..]
  {
    OthersKeepTheirIds(ss, q);
    assert ss[..q] + [ss[q]] == ss[..q + 1];
    assert ss[..q + 1] + ss[q + 1..] == ss;
    RemoveOne(ss[..q], ss[q], ss[q + 1..]);
  }

  lemma RemoveOne(front: seq<Solve>, s: Solve, back: seq<Solve>)
    requires forall t :: t in front ==> t.id !in {s.id}
    requires forall t :: t in back ==> t.id !in {s.id}
    ensures Remove((front + [s]) + back, {s.id}) == front + back
  {
    var ids := {s.id};
    RemoveConcat(front + [s], back, ids);
    RemoveConcat(front, [s], ids);
    assert Remove([s], ids) == [] by {
      assert [s][..0] == [];
    }
    RemoveNothing(front, ids);
    RemoveNothing(back, ids);
    assert front + [] == front;
  }

  lemma OthersKeepTheirIds(ss: seq<Solve>, q: nat)
    requires IdsIncreasing(ss) && q < |ss|
    ensures forall s :: s in ss[..q] ==> s.id !in {ss[q].id}
    ensures forall s :: s in ss[q + 1..] ==> s.id !in {ss[q].id}
  {
    forall s | s in ss[..q] ensures s.id != ss[q].id {
      var i :| 0 <= i < q && ss[i] == s;
    }
    forall s | s in ss[q + 1..] ensures s.id != ss[q].id {
      var i :| q + 1 <= i < |ss| && ss[i] == s;
    }
  }

  lemma {:induction false} EligibleCountConcat(ch: Challenge, accounts: map<AccountId, Account>, a: seq<Solve>, b: seq<Solve>)
    ensures EligibleCount(ch, accounts, a + b) == EligibleCount(ch, accounts, a) + EligibleCount(ch, accounts, b)
  {
    if b != [] {
      var init := b[..|b| - 1];
      EligibleCountConcat(ch, accounts, a, init);
      assert (a + b)[..|a + b| - 1] == a + init;
    } else {
      assert a + b == a;
    }
  }

  lemma EligibleCountAppend(ch: Challenge, accounts: map<AccountId, Account>, ss: seq<Solve>, s: Solve)
    ensures EligibleCount(ch, accounts, ss + [s]) == EligibleCount(ch, accounts, ss) + (if Eligible(ch, accounts, s) then 1 else 0)
  {
    assert (ss + [s])[..|ss|] == ss;
  }

  /** An ineligible solve adds nothing to the count, wherever it stands. */
  lemma SkipIneligible(ch: Challenge, accounts: map<AccountId, Account>, a: seq<Solve>, s: Solve, b: seq<Solve>)
    requires !Eligible(ch, accounts, s)
    ensures EligibleCount(ch, accounts, a + [s] + b) == EligibleCount(ch, accounts, a + b)
  {
    EligibleCountConcat(ch, accounts, a + [s], b);
    EligibleCountAppend(ch, accounts, a, s);
    EligibleCountConcat(ch, accounts, a, b);
  }

  lemma DesiredAtPrefix(ch: Challenge, accounts: map<AccountId, Account>, vis: seq<Solve>, n: nat, k: nat)
    requires k < n <= |vis|
    ensures DesiredAt(ch, accounts, vis[..n], k) == DesiredAt(ch, accounts, vis, k)
  {
    assert vis[..n][..k] == vis[..k];
  }

  // ---------------------------------------------------------------------------
  // Ranks

  /** One more solve: its desired award is placed, or its award row removed. */
  lemma ReconciledStep(awards: AwardMap, ch: Challenge, accounts: map<AccountId, Account>, vis: seq<Solve>, k: nat)
    requires k < |vis|
    ensures var before := Reconciled(awards, ch, accounts, vis[..k]);
      var d := DesiredAt(ch, accounts, vis, k);
      Reconciled(awards, ch, accounts, vis[..k + 1]) == if d.Some? then before[vis[k].id := d.value] else before - {vis[k].id}
  {
    var pre := vis[..k + 1];
    assert pre[..k] == vis[..k] && pre[k] == vis[k];
    DesiredAtPrefix(ch, accounts, vis, k + 1, k);
    var before := Reconciled(awards, ch, accounts, vis[..k]);
    var d := DesiredAt(ch, accounts, vis, k);
    if d.Some? {
      assert Reconciled(awards, ch, accounts, pre) == before[vis[k].id := d.value];
    } else {
      assert Reconciled(awards, ch, accounts, pre) == before - {vis[k].id};
    }
  }

  /** One more solve adds one to the count exactly when it is eligible. */
  lemma EligibleCountStep(ch: Challenge, accounts: map<AccountId, Account>, vis: seq<Solve>, k: nat)
    requires k < |vis|
    ensures EligibleCount(ch, accounts, vis[..k + 1])
         == EligibleCount(ch, accounts, vis[..k]) + (if Eligible(ch, accounts, vis[k]) then 1 else 0)
  {
    assert vis[..k + 1] == vis[..k] + [vis[k]];
    EligibleCountAppend(ch, accounts, vis[..k], vis[k]);
  }

  /** With i eligible solves before it, the k-th solve's award is the one for rank i + 1. */
  lemma DesiredAtCounted(ch: Challenge, accounts: map<AccountId, Account>, vis: seq<Solve>, k: nat, i: nat)
    requires k < |vis| && vis[k].account in accounts && i == EligibleCount(ch, accounts, vis[..k])
    ensures DesiredAt(ch, accounts, vis, k)
         == if CanGetAward(ch, accounts[vis[k].account]) then GenAward(ch, vis[k], i + 1) else None
  {
  }

  /** Ranks of eligible solves strictly increase with solve order. */
  lemma RanksIncrease(ch: Challenge, accounts: map<AccountId, Account>, vis: seq<Solve>, k1: nat, k2: nat)
    requires k1 < k2 < |vis| && Eligible(ch, accounts, vis[k1])
    ensures RankAt(ch, accounts, vis, k1) < RankAt(ch, accounts, vis, k2)
  {
    assert vis[..k2] == vis[..k1] + [vis[k1]] + vis[k1 + 1..k2];
    EligibleCountConcat(ch, accounts, vis[..k1] + [vis[k1]], vis[k1 + 1..k2]);
    EligibleCountConcat(ch, accounts, vis[..k1], [vis[k1]]);
    assert [vis[k1]][..0] == [];
  }

  /** Every rank from 1 to the number of eligible solves is held by an eligible solve. */
  lemma {:induction false} RanksContiguous(ch: Challenge, accounts: map<AccountId, Account>, vis: seq<Solve>, r: nat)
    requires 1 <= r <= EligibleCount(ch, accounts, vis)
    ensures exists k :: 0 <= k < |vis| && Eligible(ch, accounts, vis[k]) && RankAt(ch, accounts, vis, k) == r
  {
    var n := |vis| - 1;
    var init := vis[..n];
    if r <= EligibleCount(ch, accounts, init) {
      RanksContiguous(ch, accounts, init, r);
      var k :| 0 <= k < |init| && Eligible(ch, accounts, init[k]) && RankAt(ch, accounts, init, k) == r;
      assert init[..k] == vis[..k];
      assert vis[k] == init[k];
    } else {
      assert Eligible(ch, accounts, vis[n]) && RankAt(ch, accounts, vis, n) == r;
    }
  }

  /**
   * An ineligible solve takes no rank and shifts no one: removing it leaves
   * every other solve's award as it was.
   */
  lemma IneligibleShiftsNothing(ch: Challenge, accounts: map<AccountId, Account>, vis: seq<Solve>, q: nat, k: nat)
    requires q < |vis| && !Eligible(ch, accounts, vis[q])
    requires k < |vis| - 1
    ensures var vis' := vis[..q] + vis[q + 1..];
      DesiredAt(ch, accounts, vis', k) == DesiredAt(ch, accounts, vis, if k < q then k else k + 1)
  {
    if k < q {
      IneligibleShiftsNothingBefore(ch, accounts, vis, q, k);
    } else {
      IneligibleShiftsNothingAfter(ch, accounts, vis, q, k);
    }
  }

  lemma IneligibleShiftsNothingBefore(ch: Challenge, accounts: map<AccountId, Account>, vis: seq<Solve>, q: nat, k: nat)
    requires k < q < |vis|
    ensures DesiredAt(ch, accounts, vis[..q] + vis[q + 1..], k) == DesiredAt(ch, accounts, vis, k)
  {
    var vis' := vis[..q] + vis[q + 1..];
    assert vis'[..k] == vis[..k];
    assert vis'[k] == vis[k];
  }

  lemma IneligibleShiftsNothingAfter(ch: Challenge, accounts: map<AccountId, Account>, vis: seq<Solve>, q: nat, k: nat)
    requires q <= k < |vis| - 1 && !Eligible(ch, accounts, vis[q])
    ensures DesiredAt(ch, accounts, vis[..q] + vis[q + 1..], k) == DesiredAt(ch, accounts, vis, k + 1)
  {
    var vis' := vis[..q] + vis[q + 1..];
    assert vis'[k] == vis[k + 1];
    assert vis'[..k] == vis[..q] + vis[q + 1..k + 1];
    assert vis[..k + 1] == vis[..q] + [vis[q]] + vis[q + 1..k + 1];
    SkipIneligible(ch, accounts, vis[..q], vis[q], vis[q + 1..k + 1]);
    assert RankAt(ch, accounts, vis', k) == RankAt(ch, accounts, vis, k + 1);
  }

  // ---------------------------------------------------------------------------
  // The reconciled award map

  /** Reconciling gives every visited solve its award and leaves every other solve's award alone. */
  lemma {:induction false} ReconciledMatches(awards: AwardMap, ch: Challenge, accounts: map<AccountId, Account>, vis: seq<Solve>)
    requires IdsIncreasing(vis)
    ensures AwardsMatch(Reconciled(awards, ch, accounts, vis), ch, accounts, vis)
    ensures SameOutside(awards, Reconciled(awards, ch, accounts, vis), Ids(vis))
  {
    ReconciledOutside(awards, ch, accounts, vis);
    if vis != [] {
      var k := |vis| - 1;
      var init := vis[..k];
      ReconciledMatches(awards, ch, accounts, init);
      forall j | 0 <= j <= k
        ensures Get(Reconciled(awards, ch, accounts, vis), vis[j].id) == DesiredAt(ch, accounts, vis, j)
      {
        if j < k {
          assert Get(Reconciled(awards, ch, accounts, init), init[j].id) == DesiredAt(ch, accounts, init, j);
          ReconciledKeepsEarlier(awards, ch, accounts, vis, j);
          DesiredAtPrefix(ch, accounts, vis, k, j);
        } else {
          ReconciledSetsLast(awards, ch, accounts, vis);
        }
      }
    }
  }

  /** The last step of a reconciliation does not touch the awards of earlier solves. */
  lemma ReconciledKeepsEarlier(awards: AwardMap, ch: Challenge, accounts: map<AccountId, Account>, vis: seq<Solve>, j: nat)
    requires IdsIncreasing(vis) && j < |vis| - 1
    ensures Get(Reconciled(awards, ch, accounts, vis), vis[j].id)
         == Get(Reconciled(awards, ch, accounts, vis[..|vis| - 1]), vis[j].id)
  {
    var k := |vis| - 1;
    assert vis[j].id < vis[k].id;
    ReconciledStep(awards, ch, accounts, vis, k);
    assert vis[..k + 1] == vis;
  }

  /** The last step of a reconciliation gives the last solve its desired award. */
  lemma ReconciledSetsLast(awards: AwardMap, ch: Challenge, accounts: map<AccountId, Account>, vis: seq<Solve>)
    requires vis != []
    ensures Get(Reconciled(awards, ch, accounts, vis), vis[|vis| - 1].id) == DesiredAt(ch, accounts, vis, |vis| - 1)
  {
  }

  /** Reconciling leaves the award of every solve outside vis alone. */
  lemma {:induction false} ReconciledOutside(awards: AwardMap, ch: Challenge, accounts: map<AccountId, Account>, vis: seq<Solve>)
    ensures SameOutside(awards, Reconciled(awards, ch, accounts, vis), Ids(vis))
  {
    if vis != [] {
      var k := |vis| - 1;
      var init := vis[..k];
      ReconciledOutside(awards, ch, accounts, init);
      assert vis[k] in vis;
      assert Ids(init) <= Ids(vis) by {
        forall s | s in init ensures s in vis {
        }
      }
    }
  }

  lemma MapsEqualByGet(m1: AwardMap, m2: AwardMap)
    requires forall id :: Get(m1, id) == Get(m2, id)
    ensures m1 == m2
  {
    assert m1.Keys == m2.Keys by {
      forall id ensures id in m1 <==> id in m2 {
        assert Get(m1, id).Some? <==> Get(m2, id).Some?;
      }
    }
    forall id | id in m1 ensures m1[id] == m2[id] {
      assert Get(m1, id) == Get(m2, id);
    }
  }

  /** The reconciled map is the only one matching vis and equal to awards elsewhere. */
  lemma ReconciledUnique(awards: AwardMap, b: AwardMap, ch: Challenge, accounts: map<AccountId, Account>, vis: seq<Solve>)
    requires IdsIncreasing(vis)
    requires AwardsMatch(b, ch, accounts, vis) && SameOutside(awards, b, Ids(vis))
    ensures b == Reconciled(awards, ch, accounts, vis)
  {
    var r := Reconciled(awards, ch, accounts, vis);
    ReconciledMatches(awards, ch, accounts, vis);
    forall id ensures Get(b, id) == Get(r, id) {
      if id in Ids(vis) {
        var s :| s in vis && s.id == id;
        var k :| 0 <= k < |vis| && vis[k] == s;
        assert Get(b, vis[k].id) == DesiredAt(ch, accounts, vis, k);
      }
    }
    MapsEqualByGet(b, r);
  }

  /** Reconciling awards that already match changes nothing. */
  lemma ReconcileStable(awards: AwardMap, ch: Challenge, accounts: map<AccountId, Account>, vis: seq<Solve>)
    requires IdsIncreasing(vis) && AwardsMatch(awards, ch, accounts, vis)
    ensures Reconciled(awards, ch, accounts, vis) == awards
  {
    ReconciledUnique(awards, awards, ch, accounts, vis);
  }

  /** A second reconciliation with nothing changed in between changes nothing. */
  lemma ReconcileIdempotent(awards: AwardMap, ch: Challenge, accounts: map<AccountId, Account>, vis: seq<Solve>)
    requires IdsIncreasing(vis)
    ensures var once := Reconciled(awards, ch, accounts, vis);
      Reconciled(once, ch, accounts, vis) == once
  {
    ReconciledMatches(awards, ch, accounts, vis);
    ReconcileStable(Reconciled(awards, ch, accounts, vis), ch, accounts, vis);
  }

  /** The outcome does not depend on what awards the visited solves held before. */
  lemma ReconcileIgnoresPriorAwards(a1: AwardMap, a2: AwardMap, ch: Challenge, accounts: map<AccountId, Account>, vis: seq<Solve>)
    requires IdsIncreasing(vis) && SameOutside(a1, a2, Ids(vis))
    ensures Reconciled(a1, ch, accounts, vis) == Reconciled(a2, ch, accounts, vis)
  {
    var r1 := Reconciled(a1, ch, accounts, vis);
    ReconciledMatches(a1, ch, accounts, vis);
    ReconciledMatches(a2, ch, accounts, vis);
    ReconciledUnique(a2, r1, ch, accounts, vis);
  }

  /** Reconciling equals discarding the visited solves' awards and regenerating them. */
  lemma ReconcileIsRebuild(awards: AwardMap, ch: Challenge, accounts: map<AccountId, Account>, vis: seq<Solve>)
    requires IdsIncreasing(vis)
    ensures Reconciled(awards, ch, accounts, vis) == Reconciled(awards - Ids(vis), ch, accounts, vis)
  {
    ReconcileIgnoresPriorAwards(awards, awards - Ids(vis), ch, accounts, vis);
  }

  /**
   * Reconciling under one challenge state and then another is the same as
   * reconciling under the second alone: hiding a challenge and showing it
   * again restores its awards exactly.
   */
  lemma LastReconciliationWins(awards: AwardMap, ch1: Challenge, ch2: Challenge, accounts: map<AccountId, Account>, vis: seq<Solve>)
    requires IdsIncreasing(vis)
    ensures Reconciled(Reconciled(awards, ch1, accounts, vis), ch2, accounts, vis) == Reconciled(awards, ch2, accounts, vis)
  {
    ReconciledMatches(awards, ch1, accounts, vis);
    ReconcileIgnoresPriorAwards(Reconciled(awards, ch1, accounts, vis), awards, ch2, accounts, vis);
  }

  /** A hidden challenge's visited solves carry no award once reconciled. */
  lemma HiddenChallengeHasNoAwards(awards: AwardMap, ch: Challenge, accounts: map<AccountId, Account>, vis: seq<Solve>, s: Solve)
    requires !IsVisible(ch) && AwardsMatch(awards, ch, accounts, vis) && s in vis
    ensures s.id !in awards
  {
    var k :| 0 <= k < |vis| && vis[k] == s;
    assert Get(awards, vis[k].id) == DesiredAt(ch, accounts, vis, k);
  }

  /**
   * A visited solve carries an award exactly when it is eligible and its rank
   * has a bonus; the award then records that rank and that bonus.
   */
  lemma AwardPresentIff(awards: AwardMap, ch: Challenge, accounts: map<AccountId, Account>, vis: seq<Solve>, k: nat)
    requires k < |vis| && AwardsMatch(awards, ch, accounts, vis)
    ensures var n := RankAt(ch, accounts, vis, k);
      && (vis[k].id in awards <==> Eligible(ch, accounts, vis[k]) && n - 1 < |ch.schedule| && ch.schedule[n - 1].Some?)
      && (vis[k].id in awards ==> awards[vis[k].id].solveNum == n && awards[vis[k].id].value == ch.schedule[n - 1].value)
  {
    assert Get(awards, vis[k].id) == DesiredAt(ch, accounts, vis, k);
  }
}
