/** The matchmaking service: a waiting queue, a team size, and the
    formation pass that turns a snapshot of the queue into teams and
    removes the matched players from the queue. Locking is not modelled:
    every operation is one sequential step on the queue. */
module Matchmaking {
  import opened Seqs
  import opened Players
  import opened Teams
  import opened Combinations
  import opened Selection

  /** The service state. `maxCombinations` is the per-team budget of
      `SelectBestTeam`, fixed at 1000 by the constructor. */
  datatype Service = Service(queue: seq<Player>, teamSize: nat, maxCombinations: nat)

  /** `new MatchmakingService(teamSize)`: an empty queue. The team size is
      not validated here; a formation pass needs it to be at least 1. */
  function NewService(teamSize: nat): (s: Service)
    ensures s.queue == [] && s.teamSize == teamSize
    ensures s.maxCombinations == DefaultMaxCombinations
  {
    Service([], teamSize, DefaultMaxCombinations)
  }

  /** `EnqueuePlayer`: the player joins at the back of the queue; nothing
      else changes. */
  function EnqueuePlayer(s: Service, p: Player): (s': Service)
    ensures |s'.queue| == |s.queue| + 1
    ensures s'.queue[..|s.queue|] == s.queue && s'.queue[|s.queue|] == p
    ensures s'.teamSize == s.teamSize && s'.maxCombinations == s.maxCombinations
  {
    s.(queue := s.queue + [p])
  }

  /** The queue stays free of repeated entries exactly when the new player
      was not already waiting. */
  lemma EnqueueKeepsDistinct(s: Service, p: Player)
    ensures Distinct(EnqueuePlayer(s, p).queue) <==> Distinct(s.queue) && p !in s.queue
  {
    var q := EnqueuePlayer(s, p).queue;
    if Distinct(q) {
      forall i, j | 0 <= i < j < |s.queue| ensures s.queue[i] != s.queue[j] {
        assert q[i] == s.queue[i] && q[j] == s.queue[j];
      }
      forall i | 0 <= i < |s.queue| ensures s.queue[i] != p {
        assert q[i] == s.queue[i] && q[|s.queue|] == p;
      }
    }
    if Distinct(s.queue) && p !in s.queue {
      AppendFresh(s.queue, p);
    }
  }

  /** No player is in two teams. */
  predicate TeamsDisjoint(teams: seq<Team>) {
    forall i, j :: 0 <= i < j < |teams| ==> Disjoint(teams[i], teams[j])
  }

  /** What holds of a formation pass after some rounds: `teams` and the
      working list `players` (the unmatched rest of the sorted snapshot)
      partition the snapshot, and `queue` is the queue with the matched
      players removed. */
  ghost predicate Partition(snapshot: seq<Player>, sorted: seq<Player>, teams: seq<Team>,
                            players: seq<Player>, queue: seq<Player>, teamSize: nat)
  {
    && Lists(snapshot, sorted, teams, players, queue)
    && Formed(snapshot, teams, teamSize)
    && Counted(snapshot, teams, players, teamSize)
  }

  /** The working list and the queue are the sorted snapshot and the
      snapshot without the matched players. */
  ghost predicate Lists(snapshot: seq<Player>, sorted: seq<Player>, teams: seq<Team>,
                        players: seq<Player>, queue: seq<Player>)
  {
    && Distinct(snapshot)
    && multiset(sorted) == multiset(snapshot)
    && players == Without(sorted, Flatten(teams))
    && queue == Without(snapshot, Flatten(teams))
    && Distinct(players) && Distinct(queue)
  }

  /** Every team is `teamSize` different players of the snapshot, and no
      player is in two teams. */
  ghost predicate Formed(snapshot: seq<Player>, teams: seq<Team>, teamSize: nat) {
    && (forall i :: 0 <= i < |teams| ==> IsSelection(teams[i], snapshot, teamSize))
    && TeamsDisjoint(teams)
  }

  /** The matched players and the working list add up to the snapshot. */
  ghost predicate Counted(snapshot: seq<Player>, teams: seq<Team>, players: seq<Player>, teamSize: nat) {
    && multiset(Flatten(teams)) + multiset(players) == multiset(snapshot)
    && |players| + teamSize * |teams| == |snapshot|
  }

  /** Each team was chosen by `SelectBestTeam` among the players of the
      sorted snapshot not matched by an earlier team. */
  ghost predicate Greedy(sorted: seq<Player>, teams: seq<Team>, teamSize: nat, maxCombinations: nat)
    requires teamSize >= 1
  {
    forall i :: 0 <= i < |teams| ==>
      teams[i] == SelectBestTeam(Without(sorted, Flatten(teams[..i])), teamSize, maxCombinations).team
  }

  /** With singleton teams, the teams are the first players of the sorted
      snapshot, one each, in order. */
  ghost predicate InSortedOrder(sorted: seq<Player>, teams: seq<Team>, players: seq<Player>) {
    && |teams| <= |sorted| && players == sorted[|teams|..]
    && forall i :: 0 <= i < |teams| ==> teams[i] == [sorted[i]]
  }

  ghost predicate PassInvariant(snapshot: seq<Player>, teams: seq<Team>, players: seq<Player>,
                                queue: seq<Player>, teamSize: nat, maxCombinations: nat)
    requires teamSize >= 1
  {
    var sorted := SortPlayers(snapshot);
    && Partition(snapshot, sorted, teams, players, queue, teamSize)
    && Greedy(sorted, teams, teamSize, maxCombinations)
    && (teamSize == 1 ==> InSortedOrder(sorted, teams, players))
  }

  /** `RunMatchmaking`. The snapshot is sorted by waiting time descending,
      skill ascending, lag ascending; then, while at least `teamSize`
      players remain, the best candidate team among them is taken out of
      the working list and out of the queue.
      Every team is `teamSize` different players of the snapshot, chosen by
      `SelectBestTeam` among the players still unmatched; no player is in
      two teams; the teams and the residual are a permutation of the
      snapshot; there are n div teamSize teams and n mod teamSize players
      left over; the queue loses exactly the matched players and keeps the
      others in their order. */
  method RunMatchmaking(s: Service) returns (teams: seq<Team>, residual: seq<Player>, s': Service)
    requires s.teamSize >= 1
    requires Distinct(s.queue)
    ensures s'.teamSize == s.teamSize && s'.maxCombinations == s.maxCombinations
    ensures forall i :: 0 <= i < |teams| ==> IsSelection(teams[i], s.queue, s.teamSize)
    ensures forall i :: 0 <= i < |teams| ==>
      teams[i] == SelectBestTeam(Without(SortPlayers(s.queue), Flatten(teams[..i])), s.teamSize, s.maxCombinations).team
    ensures TeamsDisjoint(teams)
    ensures multiset(Flatten(teams) + residual) == multiset(s.queue)
    ensures residual == Without(SortPlayers(s.queue), Flatten(teams))
    ensures |teams| == |s.queue| / s.teamSize && |residual| == |s.queue| % s.teamSize
    ensures s'.queue == Without(s.queue, Flatten(teams))
    ensures multiset(s'.queue) == multiset(residual) && |s'.queue| < s.teamSize
    ensures s.teamSize == 1 ==> residual == [] && forall i :: 0 <= i < |teams| ==> teams[i] == [SortPlayers(s.queue)[i]]
  {
    var teamSize := s.teamSize;
    // queue.ToList(), then OrderByDescending(wait).ThenBy(skill).ThenBy(lag)
    var snapshot := s.queue;
    var playersToMatch := SortPlayers(snapshot);
    var queue := s.queue;
    teams := [];
    PassStart(snapshot, teamSize, s.maxCombinations);

    while |playersToMatch| >= teamSize
      invariant PassInvariant(snapshot, teams, playersToMatch, queue, teamSize, s.maxCombinations)
      decreases |playersToMatch|
    {
      var selectedPlayers := SelectBestTeam(playersToMatch, teamSize, s.maxCombinations).team;
      PassStep(snapshot, teams, playersToMatch, queue, teamSize, s.maxCombinations);
      teams := teams + [selectedPlayers];
      // playersToMatch.Remove(player) for each selected player
      playersToMatch := RemoveEach(playersToMatch, selectedPlayers);
      // queue.Remove(player) for each selected player
      queue := RemoveEach(queue, selectedPlayers);
    }

    residual := playersToMatch;
    s' := s.(queue := queue);
    PassEnd(snapshot, teams, playersToMatch, queue, teamSize, s.maxCombinations);
  }

  lemma PassStart(snapshot: seq<Player>, teamSize: nat, maxCombinations: nat)
    requires teamSize >= 1 && Distinct(snapshot)
    ensures PassInvariant(snapshot, [], SortPlayers(snapshot), snapshot, teamSize, maxCombinations)
  {
    var sorted := SortPlayers(snapshot);
    assert Flatten<Player>([]) == [];
    WithoutNoneRemoved(sorted, []);
    WithoutNoneRemoved(snapshot, []);
    DistinctMultiset(snapshot);
    MultisetDistinct(sorted);
    assert sorted[0..] == sorted;
  }

  /** One round of the loop keeps the invariant and takes `teamSize`
      players off the working list. */
  lemma PassStep(snapshot: seq<Player>, teams: seq<Team>, players: seq<Player>,
                 queue: seq<Player>, teamSize: nat, maxCombinations: nat)
    requires teamSize >= 1 && |players| >= teamSize
    requires PassInvariant(snapshot, teams, players, queue, teamSize, maxCombinations)
    ensures var selected := SelectBestTeam(players, teamSize, maxCombinations).team;
      && PassInvariant(snapshot, teams + [selected], RemoveEach(players, selected),
                       RemoveEach(queue, selected), teamSize, maxCombinations)
      && |RemoveEach(players, selected)| == |players| - teamSize
  {
    var sorted := SortPlayers(snapshot);
    var selected := SelectBestTeam(players, teamSize, maxCombinations).team;
    PartitionStep(snapshot, sorted, teams, players, queue, teamSize, selected);
    GreedyStep(sorted, teams, players, teamSize, maxCombinations);
    if teamSize == 1 {
      SingletonStep(sorted, teams, players, maxCombinations);
    }
  }

  lemma PartitionStep(snapshot: seq<Player>, sorted: seq<Player>, teams: seq<Team>,
                      players: seq<Player>, queue: seq<Player>, teamSize: nat, selected: Team)
    requires Partition(snapshot, sorted, teams, players, queue, teamSize)
    requires IsSelection(selected, players, teamSize)
    ensures Partition(snapshot, sorted, teams + [selected], RemoveEach(players, selected),
                      RemoveEach(queue, selected), teamSize)
    ensures |RemoveEach(players, selected)| == |players| - teamSize
  {
    ListsStep(snapshot, sorted, teams, players, queue, teamSize, selected);
    FormedStep(snapshot, sorted, teams, players, queue, teamSize, selected);
    CountedStep(snapshot, teams, players, teamSize, selected);
  }

  lemma ListsStep(snapshot: seq<Player>, sorted: seq<Player>, teams: seq<Team>,
                  players: seq<Player>, queue: seq<Player>, teamSize: nat, selected: Team)
    requires Lists(snapshot, sorted, teams, players, queue)
    requires IsSelection(selected, players, teamSize)
    ensures Lists(snapshot, sorted, teams + [selected], RemoveEach(players, selected), RemoveEach(queue, selected))
    ensures |RemoveEach(players, selected)| == |players| - teamSize
  {
    FlattenAppend(teams, selected);
    RemovalStep(sorted, Flatten(teams), players, selected);
    RemovalStep(snapshot, Flatten(teams), queue, selected);
    WorkingListShrinks(players, selected, teamSize);
  }

  lemma FormedStep(snapshot: seq<Player>, sorted: seq<Player>, teams: seq<Team>,
                   players: seq<Player>, queue: seq<Player>, teamSize: nat, selected: Team)
    requires Lists(snapshot, sorted, teams, players, queue) && Formed(snapshot, teams, teamSize)
    requires IsSelection(selected, players, teamSize)
    ensures Formed(snapshot, teams + [selected], teamSize)
  {
    DisjointStep(sorted, teams, players, selected);
    SelectionsStep(sorted, snapshot, teams, players, selected, teamSize);
  }

  lemma CountedStep(snapshot: seq<Player>, teams: seq<Team>, players: seq<Player>, teamSize: nat, selected: Team)
    requires Distinct(players) && Counted(snapshot, teams, players, teamSize)
    requires IsSelection(selected, players, teamSize)
    ensures Counted(snapshot, teams + [selected], RemoveEach(players, selected), teamSize)
  {
    var players' := RemoveEach(players, selected);
    WorkingListShrinks(players, selected, teamSize);
    CountStep(Flatten(teams), selected, players, players', snapshot, teamSize, |teams|);
    FlattenAppend(teams, selected);
    assert |teams + [selected]| == |teams| + 1;
  }

  /** The bookkeeping of one round: the matched players and the working
      list still add up to the snapshot. */
  lemma CountStep(matched: seq<Player>, selected: Team, players: seq<Player>, players': seq<Player>,
                  snapshot: seq<Player>, teamSize: nat, rounds: nat)
    requires multiset(matched) + multiset(players) == multiset(snapshot)
    requires multiset(players') + multiset(selected) == multiset(players)
    requires |players| + teamSize * rounds == |snapshot| && |players'| == |players| - teamSize
    ensures multiset(matched + selected) + multiset(players') == multiset(snapshot)
    ensures |players'| + teamSize * (rounds + 1) == |snapshot|
  {
    MulSucc(teamSize, rounds);
  }

  /** The new team is the choice among the players not yet matched. */
  lemma GreedyStep(sorted: seq<Player>, teams: seq<Team>, players: seq<Player>,
                   teamSize: nat, maxCombinations: nat)
    requires teamSize >= 1
    requires players == Without(sorted, Flatten(teams))
    requires Greedy(sorted, teams, teamSize, maxCombinations)
    ensures Greedy(sorted, teams + [SelectBestTeam(players, teamSize, maxCombinations).team], teamSize, maxCombinations)
  {
    var teams' := teams + [SelectBestTeam(players, teamSize, maxCombinations).team];
    assert teams'[..|teams|] == teams;
    forall i | 0 <= i < |teams'|
      ensures teams'[i] == SelectBestTeam(Without(sorted, Flatten(teams'[..i])), teamSize, maxCombinations).team
    {
      if i < |teams| {
        assert teams'[..i] == teams[..i];
      }
    }
  }

  /** With singleton teams, each round takes the next player of the sorted list. */
  lemma SingletonStep(sorted: seq<Player>, teams: seq<Team>, players: seq<Player>, maxCombinations: nat)
    requires SortedByKey(sorted) && |players| >= 1
    requires InSortedOrder(sorted, teams, players)
    ensures var selected := SelectBestTeam(players, 1, maxCombinations).team;
      InSortedOrder(sorted, teams + [selected], RemoveEach(players, selected))
  {
    SortedSuffix(sorted, |teams|);
    SelectSingletonTakesFirst(players, maxCombinations);
    HeadStep(sorted, teams, players);
  }

  lemma HeadStep(sorted: seq<Player>, teams: seq<Team>, players: seq<Player>)
    requires |players| >= 1 && InSortedOrder(sorted, teams, players)
    ensures InSortedOrder(sorted, teams + [[players[0]]], RemoveEach(players, [players[0]]))
  {
    var p := players[0];
    RemoveEachHead(players);
    var teams' := teams + [[p]];
    assert sorted[|teams'|..] == players[1..];
    forall i | 0 <= i < |teams'| ensures teams'[i] == [sorted[i]] {
      if i < |teams| {
        assert teams'[i] == teams[i];
      }
    }
  }

  lemma PassEnd(snapshot: seq<Player>, teams: seq<Team>, players: seq<Player>,
                queue: seq<Player>, teamSize: nat, maxCombinations: nat)
    requires teamSize >= 1 && |players| < teamSize
    requires PassInvariant(snapshot, teams, players, queue, teamSize, maxCombinations)
    ensures multiset(Flatten(teams) + players) == multiset(snapshot)
    ensures |teams| == |snapshot| / teamSize && |players| == |snapshot| % teamSize
    ensures multiset(queue) == multiset(players) && |queue| < teamSize
    ensures teamSize == 1 ==> players == []
  {
    WithoutSameMultiset(snapshot, SortPlayers(snapshot), Flatten(teams));
    DivModUnique(|snapshot|, teamSize, |teams|, |players|);
  }

  /** Removing a team from a list without repeats that is `base` minus the
      earlier teams' players leaves `base` minus all of them. */
  lemma RemovalStep(base: seq<Player>, earlier: seq<Player>, list: seq<Player>, selected: Team)
    requires list == Without(base, earlier) && Distinct(list)
    ensures RemoveEach(list, selected) == Without(base, earlier + selected)
    ensures Distinct(RemoveEach(list, selected))
  {
    RemoveEachDistinct(list, selected);
    WithoutWithout(base, earlier, selected);
    WithoutDistinct(list, selected);
  }

  /** A team drawn from the working list takes exactly its own players off it. */
  lemma WorkingListShrinks(working: seq<Player>, selected: Team, teamSize: nat)
    requires Distinct(working) && IsSelection(selected, working, teamSize)
    ensures |RemoveEach(working, selected)| == |working| - teamSize
    ensures multiset(RemoveEach(working, selected)) + multiset(selected) == multiset(working)
  {
    RemoveEachDistinct(working, selected);
    WithoutLength(working, selected);
    SubMultiset(selected, working);
  }

  /** A team drawn from the unmatched players shares no player with an
      earlier team. */
  lemma DisjointStep(sorted: seq<Player>, before: seq<Team>, working: seq<Player>, selected: Team)
    requires working == Without(sorted, Flatten(before))
    requires forall i :: 0 <= i < |selected| ==> selected[i] in working
    requires TeamsDisjoint(before)
    ensures TeamsDisjoint(before + [selected])
  {
    var teams := before + [selected];
    forall i, j | 0 <= i < j < |teams| ensures Disjoint(teams[i], teams[j]) {
      if j == |before| {
        forall m | 0 <= m < |teams[i]| ensures teams[i][m] !in selected {
          assert teams[i][m] in Flatten(before);
        }
      } else {
        assert teams[i] == before[i] && teams[j] == before[j];
      }
    }
  }

  lemma SelectionsStep(sorted: seq<Player>, snapshot: seq<Player>, teams: seq<Team>,
                        working: seq<Player>, selected: Team, teamSize: nat)
    requires multiset(sorted) == multiset(snapshot)
    requires working == Without(sorted, Flatten(teams))
    requires forall i :: 0 <= i < |teams| ==> IsSelection(teams[i], snapshot, teamSize)
    requires IsSelection(selected, working, teamSize)
    ensures forall i :: 0 <= i < |teams + [selected]| ==> IsSelection((teams + [selected])[i], snapshot, teamSize)
  {
    SelectedFromSnapshot(sorted, snapshot, working, Flatten(teams), selected, teamSize);
    forall i | 0 <= i < |teams + [selected]| ensures IsSelection((teams + [selected])[i], snapshot, teamSize) {
      if i < |teams| {
        assert (teams + [selected])[i] == teams[i];
      }
    }
  }

  lemma SelectedFromSnapshot(sorted: seq<Player>, snapshot: seq<Player>, working: seq<Player>,
                             earlier: seq<Player>, selected: Team, teamSize: nat)
    requires multiset(sorted) == multiset(snapshot)
    requires working == Without(sorted, earlier)
    requires IsSelection(selected, working, teamSize)
    ensures IsSelection(selected, snapshot, teamSize)
  {
    forall i | 0 <= i < |selected| ensures selected[i] in snapshot {
      assert selected[i] in working;
      assert selected[i] in multiset(sorted);
    }
  }

  /** Euclidean division is unique. */
  lemma DivModUnique(n: nat, k: nat, q: nat, r: nat)
    requires k >= 1 && n == k * q + r && r < k
    ensures q == n / k && r == n % k
  {
    var d := q - n / k;
    assert k * q - k * (n / k) == k * d;
    MulBounds(k, d);
  }

  lemma MulSucc(k: int, n: int)
    ensures k * (n + 1) == k * n + k
  {
  }

  lemma MulBounds(k: int, d: int)
    requires k >= 1
    ensures d >= 1 ==> k * d >= k
    ensures d <= -1 ==> k * d <= -k
  {
  }
}
