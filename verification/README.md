# Matchmaking team formation, modelled in Dafny

This project models the team-formation engine of `MatchmakingService`, a
small C# service. Players wait in a queue. A formation pass snapshots the
queue and sorts it by waiting time (descending), then skill (ascending),
then lag (ascending). It then repeatedly takes the best-scoring team of
`teamSize` players out of the working list and out of the queue, until
fewer than `teamSize` players remain. The best team is found in three steps:

- `GetCombinations` enumerates candidate teams. It yields ordered
  selections, not combinations.
- `CalculateTeamScore` scores them: a weighted skill spread plus a
  weighted lag spread, minus a waiting-time bonus.
- `SelectBestTeam` keeps the first strict minimum among at most 1000
  scored candidates. If nothing was scored, it falls back to the first
  `teamSize` players.

Modules:

- `Seqs`: sequence helpers.
  - `Without` is the order-preserving filter, used as the reference
    definition of removal.
  - `RemoveFirst` models `List<T>.Remove`.
  - `RemoveEach` models the removal loops.
- `Players`: the player record and the stable three-key sort. The record
  `Player` holds the id, skill and lag of the C# class. Its enqueue time
  and `WaitingTime()` become one field, `waitMs`, the waiting time in
  milliseconds at the moment of the pass. The sort is an insertion sort,
  proved sorted, a permutation, stable, and unique.
- `Teams`: the spreads, the longest wait and the score.
  - The score is the integer `150·skillSpread + 90·lagSpread − waitMs`.
  - This is 300000 times the source's formula with the waiting time in
    milliseconds. `SourceScore` is that formula in exact real arithmetic,
    and the two rank every pair of teams the same way.
- `Combinations`: the candidate enumeration. It proves the shape of the
  candidates, completeness, the count (a falling factorial) and the
  lexicographic order of positions.
- `Selection`: `GetPossibleTeams`, the budgeted scan, and `SelectBestTeam`.
- `Matchmaking`: the service state, `EnqueuePlayer`, and the formation pass
  `RunMatchmaking` as a method with a loop invariant.
- `Demo`: the scenario of the entry point. Four players with skills 1050,
  1180, 1220 and 1350 form teams of two. It proves that the pass forms
  (1180, 1220) first and (1050, 1350) second.

Pairing adjacent skills would give {1050, 1180} and {1220, 1350}. The
greedy selection does not do that: it takes the pair with the least score
first, which is the pair with spread 40, {1180, 1220}, and then the two
that are left. `Demo.DemoTeams` and `Demo.DemoRun` state this. They also
fix the order of the members, (1180, 1220) and then (1050, 1350), but only
because the model freezes the waiting times (see "Left out").

Despite the method's name, the candidates are ordered selections: the
enumeration lists every ordering of every team. Each team of `k` players
is enumerated `k!` times, and each copy reached counts against the budget.

## Model

| member | source | states |
|---|---|---|
| Players.SortPlayers | MatchmakingService/Program.cs:87-90 | the sorted snapshot is in key order (wait descending, then skill ascending, then lag ascending) and is a permutation of the snapshot |
| Players.InsertSorted | MatchmakingService/Program.cs:87-90 | inserting a player into a key-ordered list keeps it key-ordered |
| Players.SortStable | MatchmakingService/Program.cs:87-90 | the sort is stable: players with equal keys keep their snapshot order |
| Players.SortedUnique | MatchmakingService/Program.cs:87-90 | a key-ordered permutation that keeps each key class in snapshot order is unique, so the ordering fixes the working list |
| Players.SortDeterminedByKeyClasses | MatchmakingService/Program.cs:87-90 | two snapshots with the same players and the same order within each key class sort to the same list |
| Players.SortedFixed | MatchmakingService/Program.cs:87-90 | a snapshot already in key order is left as it is |
| Teams.SkillDifference | MatchmakingService/Program.cs:39-42 | the skill spread is non-negative and at least every skill gap between two members |
| Teams.SkillAttained | MatchmakingService/Program.cs:39-42 | the skill spread is the gap between two actual members, so it is exactly max minus min |
| Teams.LagDifference | MatchmakingService/Program.cs:44-47 | the lag spread is non-negative and at least every lag gap between two members |
| Teams.LagAttained | MatchmakingService/Program.cs:44-47 | the lag spread is the gap between two actual members |
| Teams.MaxWaitingTime | MatchmakingService/Program.cs:49-52 | no member has waited longer than the team's waiting time |
| Teams.WaitAttained | MatchmakingService/Program.cs:49-52 | some member has waited exactly the team's waiting time |
| Teams.MaxOf | MatchmakingService/Program.cs:162-164 | LINQ `Max` over a non-empty team: the result is one of the values and no value exceeds it (`Teams.MinOf` is the mirror image) |
| Teams.CalculateTeamScore | MatchmakingService/Program.cs:160-181 | the score is never below minus the longest wait, and it equals that floor exactly when all members share one skill and one lag |
| Teams.SourceScore | MatchmakingService/Program.cs:166-178 | the source's weighted formula, in exact real arithmetic, is the integer score divided by 300000 |
| Teams.WrapInt32 | MatchmakingService/Program.cs:162-163 | C# `int` arithmetic: the result is a 32-bit value that differs from the exact value by a multiple of 2^32, and is the exact value when that fits |
| Teams.SourceSpread | MatchmakingService/Program.cs:162-163 | the source's `int` subtraction `Max - Min` always yields a 32-bit value, and yields the true spread whenever that spread fits in an `int` |
| Teams.SpreadsFitInt32 | MatchmakingService/Program.cs:162-163 | while both spreads of a team are at most `int.MaxValue`, the source's wrapped spreads equal the model's |
| Teams.SpreadWraps | MatchmakingService/Program.cs:162-163 | skills `int.MaxValue` and `int.MinValue` give the source's skill spread −1 where the true spread is 2^32 − 1 |
| Teams.ScoreOrderAgrees | MatchmakingService/Program.cs:160-181 | the integer score and the exact real-valued weighted formula order any two teams the same way, ties included |
| Teams.ScoreMonotone | MatchmakingService/Program.cs:176-178 | the score never decreases with wider spreads and never increases with a longer wait |
| Teams.SingletonScore | MatchmakingService/Program.cs:162-164 | a one-player team has zero spreads and scores minus its waiting time |
| Teams.PairMetrics | MatchmakingService/Program.cs:162-178 | for two players the spreads are the absolute differences, the wait is the longer one, and the score follows |
| Teams.ScoreIgnoresOrder | MatchmakingService/Program.cs:160-181 | two teams with the same members have the same spreads, wait and score, in whatever order they list them |
| Selection.SameMembersSameScore | MatchmakingService/Program.cs:137-138 | any two candidates of a list that have the same members, in whatever order, get equal scores |
| Selection.LaterCopyNotChosen | MatchmakingService/Program.cs:137-142 | a candidate with the same members as an earlier scored candidate is never the one kept: the strict `<` keeps the earlier copy |
| Combinations.GetCombinations | MatchmakingService/Program.cs:183-189 | every candidate is `length` pairwise different elements of the list; for length 1 the candidates are the elements as singletons, in list order |
| Combinations.Extensions | MatchmakingService/Program.cs:187-188 | one shorter candidate yields at most one extension per list position scanned |
| Combinations.ExtensionsMember | MatchmakingService/Program.cs:187-188 | every extension of a shorter candidate `t` is `t` followed by one element, from the scanned positions of the list, that `t` does not contain |
| Combinations.ExtensionsContain | MatchmakingService/Program.cs:187-188 | conversely, `t` followed by any element at a scanned position that `t` does not contain is among its extensions |
| Combinations.ExtendAllMember | MatchmakingService/Program.cs:186-188 | every candidate of the `SelectMany` is one of the shorter candidates followed by a list element it does not contain |
| Combinations.Falling | MatchmakingService/Program.cs:186-188 | the falling factorial that counts the candidates is positive exactly when the team is no longer than the list |
| Combinations.Singletons | MatchmakingService/Program.cs:185 | the length-1 candidates are one singleton per list element, in list order |
| Combinations.CombinationsComplete | MatchmakingService/Program.cs:186-188 | every ordered selection of `k` different list elements is enumerated |
| Combinations.CombinationsMembership | MatchmakingService/Program.cs:183-189 | a sequence is a candidate if and only if it is an ordered selection of `k` different list elements |
| Combinations.CombinationsCount | MatchmakingService/Program.cs:186-188 | on a list without repeats there are n·(n−1)·…·(n−k+1) candidates, none when k > n |
| Combinations.CombinationsEmptyWhenTooLong | MatchmakingService/Program.cs:183-189 | a team longer than the list has no candidate |
| Combinations.CombinationsLexOrder | MatchmakingService/Program.cs:186-188 | the candidates come in strictly increasing lexicographic order of their element positions, so none repeats |
| Selection.GetPossibleTeams | MatchmakingService/Program.cs:154-158 | every candidate team is `teamSize` different players of the list |
| Selection.ScanFrom | MatchmakingService/Program.cs:126-143 | the `foreach`: exactly min(budget, candidates) are scored; a best candidate exists iff one was scored, and it is the first strict minimum |
| Selection.SelectBestTeam | MatchmakingService/Program.cs:119-152 | the choice is the first least-score candidate among those scored, or the first `teamSize` players if none was; on a long enough list without repeats it is `teamSize` different players of the list |
| Selection.FirstPlayersAreCandidate | MatchmakingService/Program.cs:145-149 | the fallback team is itself a candidate, so with a budget of at least one it is never needed |
| Selection.FirstOfTwo | MatchmakingService/Program.cs:137-142 | of two orderings of one team, the first is the first least score whether one or both are scored: ties keep the first |
| Selection.SingletonTakesLongestWaiting | MatchmakingService/Program.cs:119-152 | with teams of one, the player chosen is the first in the list when nobody has waited longer |
| Selection.SelectSingletonTakesFirst | MatchmakingService/Program.cs:119-152 | with teams of one, the head of a key-ordered working list is chosen |
| Seqs.RemoveFirst | MatchmakingService/Program.cs:103 | `List<T>.Remove` cuts out the first occurrence of the player, and the elements before and after it keep their order; the multiset loses one copy; a list without the player is unchanged |
| Seqs.RemoveEach | MatchmakingService/Program.cs:101-104 | the removal loop takes exactly the selected players' multiset out of the list, and equals `DropFirst`: the first occurrences go, as many of each player as were selected, and the rest keep their order |
| Seqs.DropFirst | MatchmakingService/Program.cs:101-104 | the reference for a run of removals loses exactly the given multiset from the list |
| Seqs.RemoveFirstDrops | MatchmakingService/Program.cs:103 | one `List<T>.Remove` is the reference with a single copy of the player |
| Seqs.DropTwice | MatchmakingService/Program.cs:101-104 | two runs of removals, one after the other, are one run with both multisets |
| Seqs.RemoveFirstDistinct | MatchmakingService/Program.cs:103 | on a list without repeats, `List<T>.Remove` drops exactly the given player and keeps the others in order |
| Seqs.RemoveEachDistinct | MatchmakingService/Program.cs:101-113 | on a list without repeats, the removal loop equals the order-preserving filter of the selected players |
| Seqs.WithoutLength | MatchmakingService/Program.cs:101-104 | removing a team of different listed players shortens the list by exactly the team size |
| Matchmaking.NewService | MatchmakingService/Program.cs:61-65 | the service starts with an empty queue, the requested team size, and the budget of 1000 candidates of `SelectBestTeam` |
| Matchmaking.EnqueuePlayer | MatchmakingService/Program.cs:67-73 | the player joins at the back; the queue before it and the settings are unchanged |
| Matchmaking.EnqueueKeepsDistinct | MatchmakingService/Program.cs:67-73 | the queue stays free of repeated entries iff the player was not already waiting |
| Matchmaking.RunMatchmaking | MatchmakingService/Program.cs:75-117 | each team is chosen greedily by `SelectBestTeam` among the unmatched players and is `teamSize` different snapshot players; teams are pairwise disjoint; teams plus residual are a permutation of the snapshot; there are n div teamSize teams and n mod teamSize players left; the queue loses exactly the matched players and keeps the others in order; with teams of one, the teams follow the sorted order |
| Demo.PairChoice | MatchmakingService/Program.cs:119-152 | two different players form one team, in their list order |
| Demo.TwoCandidates | MatchmakingService/Program.cs:183-189 | two different players yield two candidates, both orders of the same pair |
| Demo.DemoCandidates | MatchmakingService/Program.cs:183-189 | the entry point's four players yield the twelve ordered pairs, each player followed by each other player |
| Demo.DemoFirstTeam | MatchmakingService/Program.cs:199-205 | with frozen waits, the first team chosen from the entry point's queue is the two middle players, in queue order, not the first two |
| Demo.DemoTeams | MatchmakingService/Program.cs:199-211 | with frozen waits, the greedy pass over the entry point's queue forms the middle pair and then the outer pair, each in queue order |
| Demo.DemoRun | MatchmakingService/Program.cs:199-211 | with frozen waits, the entry point's service, queue and pass yield the teams (1180, 1220) and (1050, 1350), no residual and an empty queue |

## Left out

- Locking (`lock (queueLock)`) and concurrent enqueueing. Each operation is one sequential step on the queue; the pass reads the queue once as its snapshot.
- The clock. `DateTime.Now` and `WaitingTime()` are replaced by a `waitMs` per player, frozen at snapshot time. The source re-reads the clock during sorting and on every call of `CalculateTeamScore`, so its waits grow during a pass. A copy of a tied team that is scored later can then get a strictly lower score and win under the strict `<`. So "ties keep the first" (`Selection.FirstOfTwo`, `Selection.LaterCopyNotChosen`, `Demo.PairChoice`) holds for frozen waits only. In the entry point the source may take the teams as (1220, 1180) and (1350, 1050); the model proves the same members, in queue order.
- Double arithmetic. The score is the exact integer rescaling, so double rounding and the `double.MaxValue` sentinel are not modelled; an empty best is `None`.
- `teamSize <= 0`. The constructor accepts it. `GetCombinations` is not an iterator (it has no `yield`), so it recurses eagerly through lengths 0, −1, −2, … and never reaches the base case `length == 1`. The first pass then ends in a `StackOverflowException`, even on an empty queue, because `Count >= teamSize` holds. The model's formation pass requires `teamSize >= 1`.
- Teams.SkillDifference, Teams.LagDifference: C# computes `Max - Min` in 32-bit `int` and wraps on overflow. The model's spreads are the unbounded differences, so `d >= 0` holds only where the source's spreads do not wrap, that is, while skills (and lags) differ by at most `int.MaxValue`. `Teams.SpreadsFitInt32` proves that the two agree there, and `Teams.SpreadWraps` shows where they part (see "Findings").
- Repeated player references. The source compares players by reference, and `List<T>.Remove` drops only the first occurrence. The model compares by value and requires a queue without repeated entries.
- LINQ laziness. Candidates are built eagerly. The scan stops at the budget as the `break` does, so it scores the same candidates in the same order.
- The budget is a field of the service, fixed at 1000 by `NewService`, as the local constant of `SelectBestTeam` is. A budget of 0 is allowed and leads to the fallback.
- `Main`'s console encoding, `Thread.Sleep` and printing are I/O. The entry point's queue and pass are modelled in `Demo`. The entry point enqueues its players at once and sleeps two seconds, so `DemoQueue` asks only that earlier players have waited at least as long and that the first two joined less than 13.5 seconds apart.
- Player ids are carried but play no part in formation, as in the source.

## Findings

| source | as written | input that shows it | evidently intended | confidence | as-written member | corrected member |
|---|---|---|---|---|---|---|
| MatchmakingService/Program.cs:162-163 | `Max(p => p.Skill) - Min(p => p.Skill)` is evaluated in `int`, which wraps modulo 2^32, and only then converted to `double` | two players with skills `int.MaxValue` and `int.MinValue`: the spread is −1, so the widest possible team scores as tighter than a uniform one | the spread max − min, never negative | low: not executed; needs skills more than `int.MaxValue` apart | Teams.SourceSpread, Teams.SpreadWraps | Teams.SkillDifference |
