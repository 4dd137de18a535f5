# First-blood bonus awards: a Dafny model of the reconciliation core

The CTFd first-blood plugin adds a challenge type whose first solvers earn
bonus awards. Each such challenge carries a bonus schedule: entry `i` is the
bonus for rank `i + 1`, or no bonus for that rank. This project models:

- how that schedule is read from the create and update forms;
- the eligibility test: the challenge is visible, and the solver is neither
  hidden nor banned;
- the award generator: rank to award row, with the ordinal name and the
  medal icon;
- `recalculate_awards`, the reconciler. It walks the solves of a challenge
  in id order and counts only eligible solves. It updates, inserts or
  deletes each solve's award row;
- the fast path that `solve` takes right after a new solve;
- the session hooks. They delete award rows when solves, users or teams
  go, and queue challenges for reconciliation at the next flush;
- the rank column of the challenge's solves list in `assets/view.js`, with
  its own `ordinalize` and the medal and bonus labels.

The model is split into these modules:

- `Decimal`, `Ordinal`: decimal spelling of numbers and `ordinalize`.
- `ViewLabels`: the rank label the solves list shows on row `i`.
- `BonusForm`: the form data and the schedule parser. It states what a form
  parses to as a relation, `Parses`.
- `Awards`: the entities (`Challenge`, `Account`, `Solve`, `Award`),
  `CanGetAward` and `GenAward`.
- `Ranking`: the reconciler's specification on values.
  - `Visited` is the joined, id-ordered solve list.
  - `EligibleCount` and `RankAt` give the counter.
  - `DesiredAt` is the award a solve should carry.
  - `Reconciled` is the map after the loop.
  - Lemmas give the reconciler's guarantees: each visited solve carries
    exactly its desired award, other solves are untouched, a second run
    changes nothing, and the result equals a rebuild from scratch.
- `Triggers`, `AccountTriggers`: the fast path and the routing of each
  mutation into the pending set. `ConsistentExcept(…, stale)` says that
  every first-blood challenge outside `stale` carries the awards a
  reconciliation would give it.
- `Store`: class `Ctf`, which holds the rows and the session's
  `requires_award_recalculation` set (`pending`). Its methods are the
  plugin's class methods and hooks.
  - Each method states its new state outright.
  - Each method states that `Settled()` is kept. `Settled()` means
    consistency outside `pending`.
  - `Flush` turns `Settled()` into full consistency.

Where the source's own comments promise more than its code does, the model
follows the code:

- The docstring of `recalculate_awards` (`__init__.py:203`) says that it
  recalculates all awards after solves or users were removed. It only visits
  solves whose account row still exists, because of the join at
  `__init__.py:208-213`. It never deletes an award whose solve it does not
  visit (an orphan), and neither does the model.
- The solve-delete hook marks the solve's challenge for recalculation
  (`__init__.py:259`) only when an award row was deleted (`__init__.py:258`).
- The user and team delete hooks mark the challenges where the account had
  awards (`__init__.py:264`, `272`), not every challenge it solved.

The last two lose updates when a schedule has an interior "no bonus" entry;
see "## Findings".

## Model

| member | source | states |
|---|---|---|
| Ordinal.Suffix | assets/view.js:15-28 | the suffix is "st" iff n%10 = 1 and n%100 ≠ 11; "nd" iff n%10 = 2 and n%100 ≠ 12; "rd" iff n%10 = 3 and n%100 ≠ 13; "th" in every other case, including 11-13 |
| Ordinal.OrdinalizeSpelling | assets/view.js:15-28 | ordinalize(n) is n's decimal digits, which read back as n, followed by n's two-letter suffix |
| Ordinal.OrdinalizeInjective | assets/view.js:15-28 | two ranks have the same ordinal spelling iff they are equal |
| Ordinal.OrdinalizeFirstRanks | assets/view.js:15-28 | ranks 1-4 are spelled "1st", "2nd", "3rd", "4th" |
| Ordinal.OrdinalizeTeens | assets/view.js:15-28 | 11, 12 and 13 take "th" |
| Ordinal.OrdinalizeLarger | assets/view.js:15-28 | 21 is "21st" and 112 is "112th": the suffix follows the last two digits |
| Decimal.DigitsRoundTrip | assets/view.js:19 | the decimal spelling of a number reads back as that number |
| ViewLabels.LabelledRowsArePrefix | assets/view.js:50-51 | the labelled rows form a prefix of the list, and two labelled rows never show the same ordinal |
| BonusForm.TrimmedShape | __init__.py:113-114 | popping trailing nulls leaves a prefix that is empty or ends in a bonus, and only nulls were removed |
| BonusForm.TrimIdempotent | __init__.py:113-114 | a stored schedule never ends in null: trimming a trimmed schedule changes nothing |
| BonusForm.ParsesUnique | __init__.py:101-115 | a form determines its parse outcome: the schedule read, the index int() rejects, or the [-1] failure |
| BonusForm.ParseSchedule | __init__.py:101-115 | reads first_blood_bonus[0], [1], … up to the first missing index, blank as null and a number as that number, then pops trailing nulls; no prefixed key leaves the schedule as it was; an all-blank or empty list fails; the first non-numeric entry fails |
| Awards.NewChallenge | __init__.py:23-40 | creating a challenge fails iff its form fails to parse; otherwise the non-schedule keys become the columns, and the schedule is the parsed one (empty when no key mentions it) |
| Awards.GenAward | __init__.py:147-164 | there is no award iff n-1 ≥ the length of the schedule or schedule[n-1] is null; otherwise value = schedule[n-1], solve_num = n, and the award carries the solve's id, date and account |
| Awards.AwardText | __init__.py:156-161 | name "<ordinal> blood for <challenge name>", the description with the ordinal, category "First Blood", and the rank's icon |
| Awards.AwardNameIdentifiesRank | __init__.py:156 | two awards of one challenge with the same name are for the same rank |
| Awards.MedalClassMatchesAwardIcon | __init__.py:161 | the solves list's medal class for row n-1 is "award-" plus the icon of the award for rank n |
| Awards.LabelBonusMatchesAward | assets/view.js:50-53 | row n-1 shows a bonus iff rank n earns an award with a nonzero value, and then shows that value; every awarded rank has a label with its ordinal; a 0 bonus is awarded but not shown |
| Ranking.Visited | __init__.py:208-213 | the visited solves are exactly those on the challenge whose account row exists |
| Ranking.VisitedIncreasing | __init__.py:211 | the visited solves come in increasing id order |
| Ranking.RanksIncrease | __init__.py:215-223 | an eligible solve's rank is below the rank of every later solve |
| Ranking.RanksContiguous | __init__.py:215-223 | every rank from 1 to the number of eligible solves is held by an eligible solve |
| Ranking.IneligibleShiftsNothing | __init__.py:219-223 | removing an ineligible solve leaves every other solve's desired award unchanged |
| Ranking.ReconciledMatches | __init__.py:215-234 | after the loop, each visited solve carries exactly its desired award, and every other solve's award is as it was |
| Ranking.ReconciledUnique | __init__.py:215-234 | the reconciled map is the only one that matches the visited solves and agrees elsewhere |
| Ranking.ReconcileStable | __init__.py:215-234 | reconciling awards that already match changes nothing |
| Ranking.ReconcileIdempotent | __init__.py:200-234 | a second reconciliation with nothing changed in between changes nothing |
| Ranking.ReconcileIgnoresPriorAwards | __init__.py:225-234 | the outcome does not depend on the awards the visited solves held before |
| Ranking.ReconcileIsRebuild | __init__.py:225-234 | reconciling equals deleting the visited solves' awards and regenerating them |
| Ranking.LastReconciliationWins | __init__.py:200-234 | reconciling under one challenge setting and then another gives what the second alone gives: hiding and re-showing a challenge restores its awards |
| Ranking.HiddenChallengeHasNoAwards | __init__.py:136-137 | once reconciled, a non-visible challenge's visited solves carry no award |
| Ranking.AwardPresentIff | __init__.py:216-234 | a visited solve has an award iff it is eligible and its rank has a bonus; the award then holds that rank and that bonus |
| Triggers.SolveCountIsEligibleCount | __init__.py:182-191 | on a visible challenge the fast path's count equals the number of eligible visited solves up to the new solve |
| Triggers.FastPath | __init__.py:178-198 | the fast path changes no award other than the new solve's |
| Triggers.FastPathCount | __init__.py:182-191 | for a new last solve, the fast path's count is one more than the eligible solves before it |
| Triggers.FastPathAgreesWithReconciler | __init__.py:178-198 | when the challenge's awards matched before, the fast path gives exactly what recalculate_awards would give after the solve |
| Triggers.ReconcileLast | __init__.py:215-234 | reconciling one more solve after a matching run only places that solve's award, for the rank after the eligible solves before it |
| Triggers.SolvePreservesConsistency | __init__.py:166-198 | a solve followed by the fast path keeps every consistent first-blood challenge consistent |
| Triggers.ReconcileKeepsOthers | __init__.py:289-295 | giving a challenge new settings and reconciling it makes it consistent and leaves every other challenge as consistent as it was |
| Triggers.OtherChallengeUnaffected | __init__.py:253-262 | removing a solve leaves the visited solves of every other challenge unchanged |
| Triggers.DeleteKeepsOthers | __init__.py:253-262 | deleting a solve and its award keeps every other challenge consistent |
| Triggers.GapFreeDeleteNeedsNoReconcile | __init__.py:258 | when the schedule has no null entry, removing a visited solve that carried no award leaves every other solve's award correct |
| Triggers.SolveDeleteKeepsConsistencyWithoutGaps | __init__.py:253-262 | as written, deleting a solve keeps consistency outside the queued challenges when the solve's challenge has no null entry |
| Triggers.SolveDeleteGuardFails | __init__.py:258 | on every state of the gap shape, deleting the first solve queues nothing and leaves a stale award |
| Triggers.SolveDeleteGuardCounterexample | __init__.py:258 | the concrete run in "## Findings" starts consistent, queues nothing, and ends inconsistent |
| Triggers.FixedSolveDeleteKeepsConsistency | __init__.py:253-262 | with the guard removed, deleting a solve keeps consistency outside the queued challenges |
| Triggers.FixedSolveDeleteThenFlush | __init__.py:253-295 | with the guard removed, a solve delete followed by the flush gives a consistent state again |
| Triggers.SolveDeleteFixRepairs | __init__.py:258 | on the gap shape, the corrected routing queues the challenge and the flush repairs it |
| Triggers.SolveDeleteFixExample | __init__.py:258 | the corrected routing repairs the concrete run |
| Triggers.FlagChangeRoutingSound | __init__.py:279-287 | changing an account's flags cannot change the awards of a first-blood challenge it has not solved |
| Triggers.FlagChangeKeepsConsistency | __init__.py:279-287 | queueing the first-blood challenges the account solved keeps consistency outside the queue |
| Triggers.DesiredIgnoresOtherAccount | __init__.py:142-143 | the awards a run of solves should carry do not depend on an account that made none of them |
| Triggers.ReconcileOneMore | __init__.py:293-294 | reconciling one more challenge keeps the challenges reconciled before it matching, and only the awards of their visited solves differ from the start |
| Triggers.ReconcileSetCompletes | __init__.py:293-294 | once every queued challenge matches and nothing outside their visited solves changed, a state consistent outside the queue is consistent |
| Triggers.ChallengeDeleteKeepsConsistency | __init__.py:128-131 | dropping a challenge with its solves and their awards keeps every other challenge consistent |
| AccountTriggers.WithoutAccount | __init__.py:208-209 | the solves not made by the account, and only those |
| AccountTriggers.VisitedWithoutAccount | __init__.py:208-209 | once the account row is gone, its solves drop out of every ranking |
| AccountTriggers.AwardHeldBySolver | __init__.py:154-155 | an award that matches its solve is held by that solve's account |
| AccountTriggers.AccountDeleteKeepsConsistencyWithoutGaps | __init__.py:263-277 | as written, deleting an account keeps consistency outside the queued challenges when no schedule has a null entry |
| AccountTriggers.AccountDeleteGuardFails | __init__.py:263-277 | on the gap shape, deleting the first solver's account queues nothing and leaves a stale award |
| AccountTriggers.AccountDeleteGuardCounterexample | __init__.py:263-277 | the concrete run in "## Findings" with account 1 deleted starts consistent, queues nothing, and ends inconsistent |
| AccountTriggers.FixedAccountDeleteKeepsConsistency | __init__.py:263-277 | queueing every first-blood challenge the account solved keeps consistency outside the queue |
| AccountTriggers.FixedAccountDeleteThenFlush | __init__.py:263-295 | with the corrected routing, deleting an account whose first-blood solves all lie on one challenge c and then reconciling c gives a consistent state again; any other account is covered by Store.Ctf.DeleteAccountCorrected followed by Store.Ctf.Flush |
| AccountTriggers.AccountDeleteFixRepairs | __init__.py:263-277 | on the gap shape, the corrected routing queues the challenge and the flush repairs it |
| AccountTriggers.AccountDeleteFixExample | __init__.py:263-277 | the corrected routing repairs the concrete run |
| Store.Ctf.RecalculateAwards | __init__.py:200-234 | the loop leaves the awards equal to the reconciled map: each visited solve carries its desired award and all other awards are unchanged |
| Store.Ctf.Update | __init__.py:88-119 | the parse outcome is the form's; a parse failure changes nothing; otherwise the non-schedule keys are copied, the schedule is replaced only when the form mentions it, the challenge is reconciled, and the store stays settled |
| Store.Ctf.DeleteChallenge | __init__.py:121-131 | every award on a solve of the challenge is deleted, the challenge and its solves go, and the store stays settled |
| Store.Ctf.SolveChallenge | __init__.py:166-198 | the new solve is appended with the next id; the awards are the fast path's; the store stays settled |
| Store.Ctf.DeleteSolve | __init__.py:253-262 | the solve and its award are deleted; its challenge is queued iff an award row was deleted; the store stays settled when that challenge has no null schedule entry |
| Store.Ctf.DeleteSolveCorrected | __init__.py:253-262 | the same without the guard: the challenge is always queued and the store stays settled |
| Store.Ctf.DeleteAccount | __init__.py:263-277 | the account and its awards are deleted and their challenges queued; the store stays settled when no schedule has a null entry |
| Store.Ctf.DeleteAccountCorrected | __init__.py:263-277 | the same, queueing every first-blood challenge the account solved; the store stays settled |
| Store.Ctf.SetAccountFlags | __init__.py:279-287 | the flags are set; when they change, every first-blood challenge the account solved is queued; the store stays settled |
| Store.Ctf.RecalculateEach | __init__.py:289-295 | after reconciling every challenge of a set, in any order, each of them carries exactly its desired awards, no award outside their visited solves has changed, and a state that was consistent outside the set is consistent |
| Store.Ctf.BulkDeleteSolves | __init__.py:237-247 | after the solves go, every first-blood challenge is reconciled, the store is consistent, and no award outside the remaining visited solves of first-blood challenges changes, so orphans stay |
| Store.Ctf.Flush | __init__.py:289-295 | every queued challenge carries exactly its desired awards, no award outside their visited solves changes, the queue is cleared, and a settled store becomes consistent |

## Left out

- Plugin wiring is not modelled: the blueprint, the asset and template registration, `read` and `load` (`__init__.py:53-86`, `297-305`).
- The base class calls `super().solve`, `super().delete` and `super().__init__` are CTFd code that is not part of this model.
  - `SolveChallenge` appends the solve with an id above all earlier ones.
  - `DeleteChallenge` removes the challenge and its solves.
- SQLAlchemy mechanics are not modelled. This covers query building, `synchronize_session`, the polymorphic award table, foreign-key `ondelete` clauses and the exact event order.
  - The store is a set of maps and a sequence.
  - A commit is the `Flush` method.
  - `has_changes()` on hidden/banned is taken to mean that the value changed.
- CTFd's user mode and team mode (`get_model`) are one account kind with hidden and banned flags. User and team deletion are one method.
- CTFd's own `ordinalize`, imported at `__init__.py:12`, is not part of this model. The `assets/view.js` version is used for award names and icons.
- `int()` parsing of form strings is left out. A form value is blank, an integer `int()` accepts, or text it rejects.
- Awards.NewChallenge: a prefixed key past the first missing index (say `first_blood_bonus[5]` without `[4]`) is passed on by the source to the base constructor, which rejects it. The model drops every prefixed key.
- A challenge created without any schedule key has a NULL schedule column, which `_gen_award_data` cannot index. The model stores it as the empty schedule, which gives no awards.
- Store.Ctf.Update: on a parse failure the source has already copied the non-schedule keys onto the challenge object. The exception aborts the request and nothing is committed, so the model changes nothing.
- Store.Ctf.SolveChallenge requires that the account has no earlier solve of the challenge. CTFd refuses a second solve, and `.first()` at `__init__.py:176` relies on there being only one.
- Store.Ctf.DeleteAccount requires that every award the account holds still has its solve. Otherwise `award.solve.challenge` at `__init__.py:269`/`276` fails on a missing solve.
- Store.Ctf.DeleteAccount keeps the account's solves, as the hook does. Their removal is the bulk delete path (`BulkDeleteSolves`).
- Store.Ctf.DeleteSolve states that the store stays settled only when the solve's challenge has no null schedule entry. With a null entry the guard loses the update (see "## Findings").
- Store.Ctf.DeleteAccount states that the store stays settled only when no schedule has a null entry, for the same reason.
- Orphan awards are not cleaned up, because the source never does it. These are awards whose solve is no longer visited, for example after a bulk solve delete. Consistency is therefore stated on the visited solves only.
- The DOM, jQuery, API and date-formatting code of `assets/view.js` and all of `assets/create.js` are user interface. Only the rank-label rule is modelled.
- Transactions, isolation and concurrency are not modelled; nothing in the plugin addresses them.

## Findings

| source | as written | input that shows it | evidently intended | confidence | as-written member | corrected member |
|---|---|---|---|---|---|---|
| __init__.py:258 | a deleted solve queues its challenge only if an award row was deleted | schedule [null, 10] on visible first-blood challenge 0; eligible accounts 1 and 2 solve it as solves 0 and 1, so only solve 1 holds "2nd blood" (10 points); deleting solve 0 deletes no award row, nothing is queued, and solve 1 keeps "2nd blood" though it is now 1st, which has no bonus | every solve delete queues its challenge, so the flush re-ranks the remaining solves | not executed | Triggers.SolveDeleteGuardCounterexample | Triggers.SolveDeleteFixExample |
| __init__.py:263-277 | a deleted user or team queues only the challenges on which it held an award | the same state; deleting account 1 deletes no award row, nothing is queued, and solve 1 keeps "2nd blood" though account 2 is now the only ranked solver | every first-blood challenge the account solved is queued, as for a flag change | not executed | AccountTriggers.AccountDeleteGuardCounterexample | AccountTriggers.AccountDeleteFixExample |

Both findings are also proved for every state of that shape: see
`Triggers.SolveDeleteGuardFails` and `AccountTriggers.AccountDeleteGuardFails`.
The corrected routing is proved to repair such states by
`Triggers.SolveDeleteFixRepairs` and `AccountTriggers.AccountDeleteFixRepairs`.
In general, `Store.Ctf.DeleteSolveCorrected` and
`Store.Ctf.DeleteAccountCorrected` keep the store settled for every schedule.
