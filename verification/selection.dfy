/** `SelectBestTeam`: scores the candidates in enumeration order, at most
    `maxCombinations` of them, and keeps the first strict minimum. */
module Selection {
  import opened Seqs
  import opened Players
  import opened Teams
  import opened Combinations

  /** The source's fixed budget of candidates scored per team. */
  const DefaultMaxCombinations: nat := 1000

  /** `GetPossibleTeams`: the candidate teams of `teamSize` players. */
  function GetPossibleTeams(players: seq<Player>, teamSize: nat): (r: seq<Team>)
    requires teamSize >= 1
    ensures forall m :: 0 <= m < |r| ==> IsSelection(r[m], players, teamSize)
  {
    GetCombinations(players, teamSize)
  }

  predicate AllNonEmpty(cands: seq<Team>) {
    forall m :: 0 <= m < |cands| ==> |cands[m]| > 0
  }

  /** The score of every candidate, in enumeration order. */
  function Scores(cands: seq<Team>): (r: seq<int>)
    requires AllNonEmpty(cands)
    ensures |r| == |cands|
    ensures forall m {:trigger r[m]} :: 0 <= m < |cands| ==> r[m] == CalculateTeamScore(cands[m])
  {
    seq(|cands|, m requires 0 <= m < |cands| && AllNonEmpty(cands) => CalculateTeamScore(cands[m]))
  }

  /** `scores[best]` is the least of the first `n` scores, and no earlier
      score equals it. */
  predicate IsFirstMin(scores: seq<int>, n: nat, best: nat)
    requires n <= |scores|
  {
    && best < n
    && (forall j :: 0 <= j < n ==> scores[best] <= scores[j])
    && (forall j :: 0 <= j < best ==> scores[j] > scores[best])
  }

  /** The `foreach` of `SelectBestTeam` from candidate `i` on, over the
      candidates' scores. `i` is the number of candidates tried so far and
      `best` the index of `bestTeam` (`None` while `bestTeam` is null and
      `bestScore` is still `double.MaxValue`). The result is the final
      `bestTeam` index and the number of candidates that were scored. */
  function ScanFrom(scores: seq<int>, maxCombinations: nat, i: nat, best: Option<nat>): (r: (Option<nat>, nat))
    requires i <= |scores| && i <= maxCombinations
    requires best.None? <==> i == 0
    requires best.Some? ==> IsFirstMin(scores, i, best.value)
    ensures r.1 == Min(maxCombinations, |scores|)
    ensures r.0.None? <==> r.1 == 0
    ensures r.0.Some? ==> IsFirstMin(scores, r.1, r.0.value)
    decreases |scores| - i
  {
    if i == |scores| then (best, i)
    else if i + 1 > maxCombinations then (best, i)
    else
      var next := if best.None? || scores[i] < scores[best.value] then Some(i) else best;
      ScanFrom(scores, maxCombinations, i + 1, next)
  }

  /** The team chosen and how many candidates were scored to choose it. */
  datatype Choice = Choice(team: Team, scored: nat)

  /** `SelectBestTeam(players, teamSize)` with the budget as a parameter.
      Exactly min(budget, #candidates) candidates are scored; the team is
      the first of them with the least score; if none was scored it is the
      first `teamSize` players. On a list without repeats that is long
      enough, the team is always `teamSize` different players of the list. */
  function SelectBestTeam(players: seq<Player>, teamSize: nat, maxCombinations: nat): (c: Choice)
    requires teamSize >= 1
    ensures var cands := GetPossibleTeams(players, teamSize);
      && c.scored == Min(maxCombinations, |cands|)
      && (c.scored == 0 ==> c.team == players[..Min(teamSize, |players|)])
      && AllNonEmpty(cands)
      && (c.scored > 0 ==> exists b: nat :: IsFirstMin(Scores(cands), c.scored, b) && c.team == cands[b])
    ensures Distinct(players) && teamSize <= |players| && maxCombinations >= 1 ==> c.scored > 0
    ensures Distinct(players) && teamSize <= |players| ==> IsSelection(c.team, players, teamSize)
  {
    var cands := GetPossibleTeams(players, teamSize);
    var (best, scored) := ScanFrom(Scores(cands), maxCombinations, 0, None);
    assert Distinct(players) && teamSize <= |players| ==>
      IsSelection(players[..teamSize], players, teamSize) && players[..teamSize] in cands by {
      if Distinct(players) && teamSize <= |players| {
        FirstPlayersAreCandidate(players, teamSize);
      }
    }
    match best
    case None => Choice(players[..Min(teamSize, |players|)], scored)
    case Some(b) => Choice(cands[b], scored)
  }

  /** The fallback team is itself a candidate, so whenever the list is long
      enough and the budget is at least one, the fallback is not taken. */
  lemma FirstPlayersAreCandidate(players: seq<Player>, teamSize: nat)
    requires teamSize >= 1 && Distinct(players) && teamSize <= |players|
    ensures IsSelection(players[..teamSize], players, teamSize)
    ensures players[..teamSize] in GetPossibleTeams(players, teamSize)
  {
    var first := players[..teamSize];
    assert forall i :: 0 <= i < |first| ==> first[i] == players[i];
    CombinationsComplete(players, teamSize, first);
  }

  /** There is only one first least score. */
  lemma FirstMinUnique(scores: seq<int>, n: nat, b: nat, b': nat)
    requires n <= |scores| && IsFirstMin(scores, n, b) && IsFirstMin(scores, n, b')
    ensures b == b'
  {
    assert scores[b] <= scores[b'] && scores[b'] <= scores[b];
  }

  /** Two candidates with the same members score the same: the score does
      not depend on the order of the members. */
  lemma SameMembersSameScore(cands: seq<Team>, i: nat, j: nat)
    requires AllNonEmpty(cands) && i < |cands| && j < |cands|
    requires forall p :: p in cands[i] <==> p in cands[j]
    ensures Scores(cands)[i] == Scores(cands)[j]
  {
    ScoreIgnoresOrder(cands[i], cands[j]);
  }

  /** So a candidate that lists the same members as an earlier one is never
      the first least score: ties keep the earlier copy. */
  lemma LaterCopyNotChosen(cands: seq<Team>, n: nat, i: nat, j: nat, b: nat)
    requires AllNonEmpty(cands) && n <= |cands| && i < j < n
    requires forall p :: p in cands[i] <==> p in cands[j]
    requires IsFirstMin(Scores(cands), n, b)
    ensures b != j
  {
    SameMembersSameScore(cands, i, j);
  }

  /** Of two orderings of one team, the first is the first least score,
      however many of the two are scored. */
  lemma FirstOfTwo(a: Team, b: Team, n: nat)
    requires |a| > 0 && 1 <= n <= 2
    requires forall p :: p in a <==> p in b
    ensures AllNonEmpty([a, b])
    ensures IsFirstMin(Scores([a, b]), n, 0)
  {
    var cands := [a, b];
    assert a[0] in b;
    assert AllNonEmpty(cands) by {
      forall m | 0 <= m < 2 ensures |cands[m]| > 0 {
        assert m == 0 || m == 1;
      }
    }
    SameMembersSameScore(cands, 0, 1);
    var scores := Scores(cands);
    forall j | 0 <= j < n ensures scores[0] <= scores[j] {
      assert j == 0 || j == 1;
    }
  }

  /** The choice is determined by the scores: it is the candidate holding
      the first least score among those scored. */
  lemma ChosenIsFirstMin(players: seq<Player>, teamSize: nat, maxCombinations: nat, cands: seq<Team>, n: nat, k: nat)
    requires teamSize >= 1 && cands == GetPossibleTeams(players, teamSize)
    requires n == Min(maxCombinations, |cands|)
    requires AllNonEmpty(cands) && IsFirstMin(Scores(cands), n, k)
    ensures SelectBestTeam(players, teamSize, maxCombinations).team == cands[k]
  {
    var c := SelectBestTeam(players, teamSize, maxCombinations);
    var b: nat :| IsFirstMin(Scores(cands), c.scored, b) && c.team == cands[b];
    FirstMinUnique(Scores(cands), c.scored, b, k);
  }

  /** If the first score is already a least one, the scan keeps it. */
  lemma FirstMinAtZero(scores: seq<int>, n: nat, b: nat)
    requires 0 < n <= |scores| && IsFirstMin(scores, n, b)
    requires forall j :: 0 <= j < n ==> scores[0] <= scores[j]
    ensures b == 0
  {
    assert scores[0] <= scores[b] && scores[b] <= scores[0];
  }

  /** When the first player has waited longest, the first singleton
      candidate has a least score. */
  lemma SingletonScoresFromFirst(w: seq<Player>, cands: seq<Team>)
    requires |w| >= 1
    requires forall j :: 0 <= j < |w| ==> w[j].waitMs <= w[0].waitMs
    requires |cands| == |w| && forall j :: 0 <= j < |w| ==> cands[j] == [w[j]]
    ensures AllNonEmpty(cands)
    ensures forall j :: 0 <= j < |w| ==> Scores(cands)[0] <= Scores(cands)[j]
  {
    assert AllNonEmpty(cands);
    var scores := Scores(cands);
    forall j | 0 <= j < |w| ensures scores[0] <= scores[j] {
      SingletonScore(w[j]);
      SingletonScore(w[0]);
    }
  }

  /** For singleton teams the choice is the first player, whenever nobody
      has waited longer: a singleton's score is minus its waiting time, and
      the scan keeps the first strict minimum. */
  lemma SingletonTakesLongestWaiting(w: seq<Player>, maxCombinations: nat)
    requires |w| >= 1
    requires forall j :: 0 <= j < |w| ==> w[j].waitMs <= w[0].waitMs
    ensures SelectBestTeam(w, 1, maxCombinations).team == [w[0]]
  {
    var c := SelectBestTeam(w, 1, maxCombinations);
    var cands := GetPossibleTeams(w, 1);
    SingletonScoresFromFirst(w, cands);
    FirstMinChoice(cands, c.scored, c.team, w[..1]);
    assert cands[0] == [w[0]];
    assert w[..1] == [w[0]];
  }

  /** When the first candidate already has a least score, the scan keeps
      it: the choice is the first candidate, or the fallback if nothing was
      scored. */
  lemma FirstMinChoice(cands: seq<Team>, scored: nat, team: Team, fallback: Team)
    requires AllNonEmpty(cands) && scored <= |cands|
    requires scored > 0 ==> exists b: nat :: IsFirstMin(Scores(cands), scored, b) && team == cands[b]
    requires scored == 0 ==> team == fallback
    requires forall j :: 0 <= j < |cands| ==> Scores(cands)[0] <= Scores(cands)[j]
    ensures scored > 0 ==> team == cands[0]
    ensures scored == 0 ==> team == fallback
  {
    if scored > 0 {
      var scores := Scores(cands);
      var b: nat :| IsFirstMin(scores, scored, b) && team == cands[b];
      FirstMinAtZero(scores, scored, b);
    }
  }

  /** Over the sorted working list, the singleton choice is its head: the
      player who has waited longest, and among equal waits the first in
      the sort order. */
  lemma SelectSingletonTakesFirst(w: seq<Player>, maxCombinations: nat)
    requires |w| >= 1 && SortedByKey(w)
    ensures SelectBestTeam(w, 1, maxCombinations).team == [w[0]]
  {
    forall j | 0 <= j < |w| ensures w[j].waitMs <= w[0].waitMs {
      if j > 0 {
        assert KeyLeq(w[0], w[j]);
      }
    }
    SingletonTakesLongestWaiting(w, maxCombinations);
  }
}
