/** The scenario of the program's entry point: four players with skills
    1050, 1180, 1220 and 1350 and the same lag join the queue in that
    order, a formation pass with teams of two runs, and the least-score
    rule pairs the two middle players first (spread 40); the two outer
    players (spread 300) make the second team. */
module Demo {
  import opened Seqs
  import opened Players
  import opened Teams
  import opened Combinations
  import opened Selection
  import opened Matchmaking

  /** A queue like the entry point's, in enqueue order: whoever joined
      earlier has waited at least as long, and the first two joined less
      than 13.5 seconds apart (the entry point enqueues all four at once). */
  predicate DemoQueue(q: seq<Player>) {
    && |q| == 4
    && q[0].skill == 1050 && q[1].skill == 1180 && q[2].skill == 1220 && q[3].skill == 1350
    && q[1].lag == q[0].lag && q[2].lag == q[0].lag && q[3].lag == q[0].lag
    && q[0].waitMs >= q[1].waitMs >= q[2].waitMs >= q[3].waitMs
    && q[0].waitMs - q[1].waitMs < 13500
  }

  /** The ordered pairs of a four-player list, in the order `GetCombinations`
      enumerates them: each player followed by each other player. */
  function PairsOf(q: seq<Player>): (r: seq<Team>)
    requires |q| == 4
  {
    [[q[0], q[1]], [q[0], q[2]], [q[0], q[3]], [q[1], q[0]], [q[1], q[2]], [q[1], q[3]],
     [q[2], q[0]], [q[2], q[1]], [q[2], q[3]], [q[3], q[0]], [q[3], q[1]], [q[3], q[2]]]
  }

  lemma DemoCandidates(q: seq<Player>)
    requires DemoQueue(q)
    ensures GetPossibleTeams(q, 2) == PairsOf(q)
  {
    var s := [[q[0]], [q[1]], [q[2]], [q[3]]];
    assert Singletons(q) == s by {
      assert q[1..][1..][1..][1..] == [];
      assert Singletons(q[1..][1..][1..]) == [[q[3]]] + Singletons(q[1..][1..][1..][1..]);
      assert Singletons(q[1..][1..]) == [[q[2]]] + Singletons(q[1..][1..][1..]);
      assert Singletons(q[1..]) == [[q[1]]] + Singletons(q[1..][1..]);
    }
    DemoPairs(q);
    assert GetCombinations(q, 2) == ExtendAll(s, q);
  }

  lemma DemoPairs(q: seq<Player>)
    requires DemoQueue(q)
    ensures ExtendAll([[q[0]], [q[1]], [q[2]], [q[3]]], q) == PairsOf(q)
  {
    ExtendAllOfFour(q[0], q[1], q[2], q[3], q);
    ExtensionsOfPlayer(q, 0);
    ExtensionsOfPlayer(q, 1);
    ExtensionsOfPlayer(q, 2);
    ExtensionsOfPlayer(q, 3);
  }

  /** `ExtendAll` over four singletons, unrolled. */
  lemma ExtendAllOfFour(a: Player, b: Player, c: Player, d: Player, w: seq<Player>)
    ensures ExtendAll([[a], [b], [c], [d]], w) ==
      Extensions([a], w, 0) + Extensions([b], w, 0) + Extensions([c], w, 0) + Extensions([d], w, 0)
  {
    var s := [[a], [b], [c], [d]];
    assert ExtendAll(s[4..], w) == [];
    assert ExtendAll(s[3..], w) == Extensions([d], w, 0) + ExtendAll(s[4..], w);
    assert ExtendAll(s[2..], w) == Extensions([c], w, 0) + ExtendAll(s[3..], w);
    assert ExtendAll(s[1..], w) == Extensions([b], w, 0) + ExtendAll(s[2..], w);
    assert ExtendAll(s, w) == Extensions([a], w, 0) + ExtendAll(s[1..], w);
  }

  /** The extensions of one player: each other player appended, in order. */
  lemma ExtensionsOfPlayer(q: seq<Player>, k: nat)
    requires DemoQueue(q) && k < 4
    ensures k == 0 ==> Extensions([q[0]], q, 0) == [[q[0], q[1]], [q[0], q[2]], [q[0], q[3]]]
    ensures k == 1 ==> Extensions([q[1]], q, 0) == [[q[1], q[0]], [q[1], q[2]], [q[1], q[3]]]
    ensures k == 2 ==> Extensions([q[2]], q, 0) == [[q[2], q[0]], [q[2], q[1]], [q[2], q[3]]]
    ensures k == 3 ==> Extensions([q[3]], q, 0) == [[q[3], q[0]], [q[3], q[1]], [q[3], q[2]]]
  {
    ExtensionsOfFour([q[k]], q);
    StepOf(q[k], q, 0);
    StepOf(q[k], q, 1);
    StepOf(q[k], q, 2);
    StepOf(q[k], q, 3);
  }

  /** One step of `Extensions`: the element at `i`, if new, then the rest. */
  function Step(t: seq<Player>, w: seq<Player>, i: nat): (r: seq<seq<Player>>)
    requires i < |w|
  {
    if w[i] in t then [] else [t + [w[i]]]
  }

  lemma StepOf(a: Player, w: seq<Player>, i: nat)
    requires i < |w|
    ensures Step([a], w, i) == if a == w[i] then [] else [[a, w[i]]]
  {
    assert [a] + [w[i]] == [a, w[i]];
  }

  /** `Extensions` over a four-element list, unrolled. */
  lemma ExtensionsOfFour(t: seq<Player>, w: seq<Player>)
    requires |w| == 4
    ensures Extensions(t, w, 0) == Step(t, w, 0) + Step(t, w, 1) + Step(t, w, 2) + Step(t, w, 3)
  {
    assert Extensions(t, w, 4) == [];
    assert Extensions(t, w, 3) == Step(t, w, 3) + Extensions(t, w, 4);
    assert Extensions(t, w, 2) == Step(t, w, 2) + Extensions(t, w, 3);
    assert Extensions(t, w, 1) == Step(t, w, 1) + Extensions(t, w, 2);
  }

  /** A pair with a common lag scores 150 per point of skill spread, minus
      the longer wait. */
  lemma EvenLagPairScore(a: Player, b: Player)
    requires a.lag == b.lag
    ensures CalculateTeamScore([a, b]) ==
      SkillWeight * Abs(a.skill - b.skill) - (if a.waitMs >= b.waitMs then a.waitMs else b.waitMs)
  {
    PairMetrics(a, b);
  }

  /** The skill spread of each candidate pair, in enumeration order. */
  const Spreads: seq<int> := [130, 170, 300, 130, 40, 170, 170, 40, 130, 300, 170, 130]

  /** The pairs (2, 3) and (3, 2), at indices 4 and 7, have spread 40; every
      other pair has a spread of at least 130. */
  lemma LeastSpread(j: nat)
    requires j < 12
    ensures j == 4 || j == 7 ==> Spreads[j] == 40
    ensures j != 4 && j != 7 ==> Spreads[j] >= 130
  {
    if j < 6 {
      assert j == 0 || j == 1 || j == 2 || j == 3 || j == 4 || j == 5;
    } else {
      assert j == 6 || j == 7 || j == 8 || j == 9 || j == 10 || j == 11;
    }
  }

  /** Every candidate pair scores at least 150 per point of its skill
      spread minus the longest wait; the two orders of the middle pair
      score exactly that minus the second player's wait. */
  lemma DemoScore(q: seq<Player>, k: nat)
    requires DemoQueue(q) && k < 12
    ensures AllNonEmpty(PairsOf(q))
    ensures SkillWeight * Spreads[k] - q[0].waitMs <= Scores(PairsOf(q))[k]
    ensures k == 4 || k == 7 ==> Scores(PairsOf(q))[k] == SkillWeight * Spreads[k] - q[1].waitMs
  {
    var c := PairsOf(q);
    assert AllNonEmpty(c);
    var a, b := c[k][0], c[k][1];
    assert c[k] == [a, b];
    PairFacts(q, k);
    EvenLagPairScore(a, b);
  }

  /** The members of candidate `k`: a common lag, skill spread `Spreads[k]`,
      and waits no longer than the first player's; the middle pair's longer
      wait is the second player's. */
  lemma PairFacts(q: seq<Player>, k: nat)
    requires DemoQueue(q) && k < 12
    ensures var c := PairsOf(q)[k];
      && |c| == 2 && c[0].lag == c[1].lag && Abs(c[0].skill - c[1].skill) == Spreads[k]
      && c[0].waitMs <= q[0].waitMs && c[1].waitMs <= q[0].waitMs
      && (k == 4 || k == 7 ==> (if c[0].waitMs >= c[1].waitMs then c[0].waitMs else c[1].waitMs) == q[1].waitMs)
  {
    var c := PairsOf(q);
    if k == 0 { assert c[k] == [q[0], q[1]]; }
    else if k == 1 { assert c[k] == [q[0], q[2]]; }
    else if k == 2 { assert c[k] == [q[0], q[3]]; }
    else if k == 3 { assert c[k] == [q[1], q[0]]; }
    else if k == 4 { assert c[k] == [q[1], q[2]]; }
    else if k == 5 { assert c[k] == [q[1], q[3]]; }
    else if k == 6 { assert c[k] == [q[2], q[0]]; }
    else if k == 7 { assert c[k] == [q[2], q[1]]; }
    else if k == 8 { assert c[k] == [q[2], q[3]]; }
    else if k == 9 { assert c[k] == [q[3], q[0]]; }
    else if k == 10 { assert c[k] == [q[3], q[1]]; }
    else { assert c[k] == [q[3], q[2]]; }
  }

  /** The pair (2, 3) is the first candidate with the least score. */
  lemma DemoFirstMin(q: seq<Player>)
    requires DemoQueue(q)
    ensures AllNonEmpty(PairsOf(q))
    ensures IsFirstMin(Scores(PairsOf(q)), 12, 4)
  {
    DemoScore(q, 4);
    var scores := Scores(PairsOf(q));
    forall j | 0 <= j < 12 ensures scores[4] <= scores[j] && (j < 4 ==> scores[j] > scores[4]) {
      DemoScore(q, j);
      LeastSpread(j);
      LeastSpread(4);
    }
  }

  /** The choice is the candidate at index 4 of the enumeration. */
  lemma DemoChoice(q: seq<Player>)
    requires DemoQueue(q)
    ensures SelectBestTeam(q, 2, DefaultMaxCombinations).team == PairsOf(q)[4]
  {
    DemoCandidates(q);
    DemoFirstMin(q);
    ChosenIsFirstMin(q, 2, DefaultMaxCombinations, PairsOf(q), 12, 4);
  }

  /** The first team of the demo is the two middle players, although the
      first two players of the queue are also a candidate. */
  lemma DemoFirstTeam(q: seq<Player>)
    requires DemoQueue(q)
    ensures SelectBestTeam(q, 2, DefaultMaxCombinations).team == [q[1], q[2]]
  {
    DemoChoice(q);
  }

  /** The two candidates of a two-player list: both orders. */
  lemma TwoCandidates(a: Player, b: Player)
    requires a != b
    ensures GetPossibleTeams([a, b], 2) == [[a, b], [b, a]]
  {
    var w := [a, b];
    assert Singletons(w) == [[a], [b]] by {
      assert w[1..][1..] == [];
      assert Singletons(w[1..]) == [[b]] + Singletons(w[1..][1..]);
    }
    assert Extensions([a], w, 0) == [[a, b]] by {
      assert Extensions([a], w, 2) == [];
      assert Extensions([a], w, 1) == [[a] + [b]] + Extensions([a], w, 2);
      assert [a] + [b] == [a, b];
    }
    assert Extensions([b], w, 0) == [[b, a]] by {
      assert Extensions([b], w, 2) == [];
      assert Extensions([b], w, 1) == Extensions([b], w, 2);
      assert [b] + [a] == [b, a];
    }
    assert ExtendAll([[b]], w) == Extensions([b], w, 0) + ExtendAll([], w);
    assert GetCombinations(w, 2) == ExtendAll([[a], [b]], w);
  }

  /** Two players form one team, in their list order: both orders score
      the same and the scan keeps the first. */
  lemma PairChoice(a: Player, b: Player, maxCombinations: nat)
    requires a != b && maxCombinations >= 1
    ensures SelectBestTeam([a, b], 2, maxCombinations).team == [a, b]
  {
    TwoCandidates(a, b);
    FirstOfTwo([a, b], [b, a], Min(maxCombinations, 2));
    ChosenIsFirstMin([a, b], 2, maxCombinations, [[a, b], [b, a]], Min(maxCombinations, 2), 0);
  }

  /** The queue is already in the order of the sort: waits do not increase
      and, among equal waits, skills increase. It has no repeated player. */
  lemma DemoSorted(q: seq<Player>)
    requires DemoQueue(q)
    ensures SortedByKey(q) && Distinct(q)
  {
    forall i, j | 0 <= i < j < 4 ensures KeyLeq(q[i], q[j]) && q[i] != q[j] {
      assert q[i].skill < q[j].skill;
    }
  }

  /** Once the middle pair is matched, the outer players remain, in order. */
  lemma DemoRest(q: seq<Player>)
    requires DemoQueue(q)
    ensures Without(q, [q[1], q[2]]) == [q[0], q[3]]
  {
    var xs := [q[1], q[2]];
    assert q[0] !in xs && q[1] in xs && q[2] in xs && q[3] !in xs;
    assert q[1..][1..][1..][1..] == [];
    assert Without(q[1..][1..][1..], xs) == [q[3]] + Without(q[1..][1..][1..][1..], xs);
    assert Without(q[1..][1..], xs) == Without(q[1..][1..][1..], xs);
    assert Without(q[1..], xs) == Without(q[1..][1..], xs);
  }

  /** The working lists of the first two greedy rounds over `w`: all of
      `w`, then `w` without the first team. */
  lemma FirstTwoWorkingLists(w: seq<Player>, teams: seq<Team>)
    requires |teams| >= 1
    ensures Without(w, Flatten(teams[..0])) == w
    ensures Without(w, Flatten(teams[..1])) == Without(w, teams[0])
  {
    assert teams[..0] == [];
    WithoutNoneRemoved(w, []);
    assert teams[..1] == [teams[0]] && [teams[0]][1..] == [];
    assert Flatten(teams[..1]) == teams[0] + Flatten([]);
  }

  /** Round `i` of a greedy pass over `w` forms the team chosen from its
      working list. */
  lemma GreedyRound(w: seq<Player>, teams: seq<Team>, i: nat, players: seq<Player>, team: Team)
    requires i < |teams|
    requires forall j :: 0 <= j < |teams| ==>
      teams[j] == SelectBestTeam(Without(w, Flatten(teams[..j])), 2, DefaultMaxCombinations).team
    requires Without(w, Flatten(teams[..i])) == players
    requires SelectBestTeam(players, 2, DefaultMaxCombinations).team == team
    ensures teams[i] == team
  {
  }

  /** The teams of a greedy formation pass over the queue, as
      `RunMatchmaking` promises them, are the middle pair and then the
      outer pair. */
  lemma DemoTeams(q: seq<Player>, teams: seq<Team>)
    requires DemoQueue(q) && |teams| == 2
    requires forall i :: 0 <= i < |teams| ==>
      teams[i] == SelectBestTeam(Without(SortPlayers(q), Flatten(teams[..i])), 2, DefaultMaxCombinations).team
    ensures teams == [[q[1], q[2]], [q[0], q[3]]]
  {
    DemoSorted(q);
    SortedFixed(q);
    FirstTwoWorkingLists(SortPlayers(q), teams);
    DemoFirstTeam(q);
    GreedyRound(SortPlayers(q), teams, 0, q, [q[1], q[2]]);
    DemoRest(q);
    PairChoice(q[0], q[3], DefaultMaxCombinations);
    GreedyRound(SortPlayers(q), teams, 1, [q[0], q[3]], [q[0], q[3]]);
  }

  /** The entry point: a service for teams of two, the four players
      enqueued in order, one formation pass. Every player is matched and
      the queue ends empty. */
  method DemoRun(q: seq<Player>) returns (teams: seq<Team>, residual: seq<Player>, s: Service)
    requires DemoQueue(q)
    ensures teams == [[q[1], q[2]], [q[0], q[3]]]
    ensures residual == [] && s.queue == []
  {
    s := NewService(2);
    s := EnqueuePlayer(s, q[0]);
    s := EnqueuePlayer(s, q[1]);
    s := EnqueuePlayer(s, q[2]);
    s := EnqueuePlayer(s, q[3]);
    assert s.queue == q;
    DemoSorted(q);
    teams, residual, s := RunMatchmaking(s);
    DemoTeams(q, teams);
  }
}
