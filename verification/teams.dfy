/** Team metrics and the score a candidate team is ranked by (lower is
    better). A team is the ordered list of its players. */
module Teams {
  import opened Players

  type Team = seq<Player>

  /** Score weights, as integers: the source's weights 0.5 and 0.3 on
      spreads normalised by 1000, and 0.2 on the waiting time in seconds
      normalised by 60, all multiplied by 300000 (waiting time in ms). */
  const SkillWeight: int := 150
  const LagWeight: int := 90
  const WaitWeight: int := 1

  /** `Max` of a non-empty sequence (LINQ's `Max` throws on an empty one). */
  function MaxOf(xs: seq<int>): (m: int)
    requires |xs| > 0
    ensures m in xs
    ensures forall i :: 0 <= i < |xs| ==> xs[i] <= m
  {
    if |xs| == 1 then xs[0]
    else
      var m := MaxOf(xs[1..]);
      assert forall i :: 1 <= i < |xs| ==> xs[i] == xs[1..][i - 1];
      if xs[0] >= m then xs[0] else m
  }

  function MinOf(xs: seq<int>): (m: int)
    requires |xs| > 0
    ensures m in xs
    ensures forall i :: 0 <= i < |xs| ==> m <= xs[i]
  {
    if |xs| == 1 then xs[0]
    else
      var m := MinOf(xs[1..]);
      assert forall i :: 1 <= i < |xs| ==> xs[i] == xs[1..][i - 1];
      if xs[0] <= m then xs[0] else m
  }

  function Skills(t: Team): (r: seq<int>)
    ensures |r| == |t| && forall i :: 0 <= i < |t| ==> r[i] == t[i].skill
  {
    seq(|t|, i requires 0 <= i < |t| => t[i].skill)
  }

  function Lags(t: Team): (r: seq<int>)
    ensures |r| == |t| && forall i :: 0 <= i < |t| ==> r[i] == t[i].lag
  {
    seq(|t|, i requires 0 <= i < |t| => t[i].lag)
  }

  function Waits(t: Team): (r: seq<int>)
    ensures |r| == |t| && forall i :: 0 <= i < |t| ==> r[i] == t[i].waitMs
  {
    seq(|t|, i requires 0 <= i < |t| => t[i].waitMs)
  }

  /** `Team.SkillDifference`: the largest skill gap between two members. */
  function SkillDifference(t: Team): (d: int)
    requires |t| > 0
    ensures d >= 0
    ensures forall i, j :: 0 <= i < |t| && 0 <= j < |t| ==> t[i].skill - t[j].skill <= d
  {
    MaxOf(Skills(t)) - MinOf(Skills(t))
  }

  /** `Team.LagDifference`: the largest lag gap between two members. */
  function LagDifference(t: Team): (d: int)
    requires |t| > 0
    ensures d >= 0
    ensures forall i, j :: 0 <= i < |t| && 0 <= j < |t| ==> t[i].lag - t[j].lag <= d
  {
    MaxOf(Lags(t)) - MinOf(Lags(t))
  }

  // ---------------------------------------------------------------------
  // The source's `int` subtraction

  /** C# `int` arithmetic outside a `checked` context wraps modulo 2^32. */
  const IntMin: int := -0x8000_0000
  const IntMax: int := 0x7fff_ffff

  predicate IsInt32(x: int) {
    IntMin <= x <= IntMax
  }

  /** The `int` C# produces for the mathematical value `x`. */
  function WrapInt32(x: int): (r: int)
    ensures IsInt32(r)
    ensures IsInt32(x) ==> r == x
    ensures exists k :: x == r + k * 0x1_0000_0000
  {
    var r := (x - IntMin) % 0x1_0000_0000 + IntMin;
    assert x == r + ((x - IntMin) / 0x1_0000_0000) * 0x1_0000_0000;
    r
  }

  /** `Max(...) - Min(...)` over `int` values as the source evaluates it,
      in `int`, before the result is converted to `double`. */
  function SourceSpread(xs: seq<int>): (d: int)
    requires |xs| > 0
    ensures IsInt32(d)
    ensures MaxOf(xs) - MinOf(xs) <= IntMax ==> d == MaxOf(xs) - MinOf(xs)
  {
    WrapInt32(MaxOf(xs) - MinOf(xs))
  }

  /** While the spreads fit in an `int`, the source's wrapped subtraction
      gives exactly the spreads the model uses. */
  lemma SpreadsFitInt32(t: Team)
    requires |t| > 0
    requires SkillDifference(t) <= IntMax && LagDifference(t) <= IntMax
    ensures SourceSpread(Skills(t)) == SkillDifference(t)
    ensures SourceSpread(Lags(t)) == LagDifference(t)
  {
  }

  /** Beyond that they differ: a team of two players with skills
      `int.MaxValue` and `int.MinValue` gets a skill spread of -1 from the
      source, where the largest gap between them is 2^32 - 1. */
  lemma SpreadWraps(a: Player, b: Player)
    requires a.skill == IntMax && b.skill == IntMin
    ensures IsInt32(a.skill) && IsInt32(b.skill)
    ensures SourceSpread(Skills([a, b])) == -1
    ensures SkillDifference([a, b]) == 0xffff_ffff
  {
    var t := [a, b];
    assert Skills(t) == [IntMax, IntMin];
    PairSkill(a, b);
  }

  /** `Team.MaxWaitingTime`: the longest wait of any member. */
  function MaxWaitingTime(t: Team): (w: int)
    requires |t| > 0
    ensures forall i :: 0 <= i < |t| ==> t[i].waitMs <= w
  {
    MaxOf(Waits(t))
  }

  /** The metrics are attained: each spread is the gap between two actual
      members and the waiting time is that of an actual member, so with
      their bounds they are exactly the largest gap and the longest wait. */
  lemma SkillAttained(t: Team)
    requires |t| > 0
    ensures exists i, j :: 0 <= i < |t| && 0 <= j < |t| && t[i].skill - t[j].skill == SkillDifference(t)
  {
    var i :| 0 <= i < |t| && Skills(t)[i] == MaxOf(Skills(t));
    var j :| 0 <= j < |t| && Skills(t)[j] == MinOf(Skills(t));
    assert t[i].skill - t[j].skill == SkillDifference(t);
  }

  lemma LagAttained(t: Team)
    requires |t| > 0
    ensures exists i, j :: 0 <= i < |t| && 0 <= j < |t| && t[i].lag - t[j].lag == LagDifference(t)
  {
    var i :| 0 <= i < |t| && Lags(t)[i] == MaxOf(Lags(t));
    var j :| 0 <= j < |t| && Lags(t)[j] == MinOf(Lags(t));
    assert t[i].lag - t[j].lag == LagDifference(t);
  }

  lemma WaitAttained(t: Team)
    requires |t| > 0
    ensures exists i :: 0 <= i < |t| && t[i].waitMs == MaxWaitingTime(t)
  {
    var i :| 0 <= i < |t| && Waits(t)[i] == MaxOf(Waits(t));
    assert t[i].waitMs == MaxWaitingTime(t);
  }

  /** `CalculateTeamScore`, in units of 1/300000 of the source's score.
      The waiting bonus is the floor: the score reaches it exactly when
      every member has the same skill and the same lag. */
  function CalculateTeamScore(t: Team): (score: int)
    requires |t| > 0
    ensures score >= -MaxWaitingTime(t)
    ensures score == -MaxWaitingTime(t) <==> SkillDifference(t) == 0 && LagDifference(t) == 0
  {
    SkillWeight * SkillDifference(t) + LagWeight * LagDifference(t) - WaitWeight * MaxWaitingTime(t)
  }

  /** The source's score, in exact real arithmetic (no rounding): weights
      0.5, 0.3, 0.2; spreads divided by 1000; waiting seconds divided by 60.
      It is the integer score scaled down by 300000. */
  function SourceScore(t: Team): (r: real)
    requires |t| > 0
    ensures r == CalculateTeamScore(t) as real / 300000.0
  {
    var normalizedSkillDiff := SkillDifference(t) as real / 1000.0;
    var normalizedLagDiff := LagDifference(t) as real / 1000.0;
    var normalizedWaitingTime := (MaxWaitingTime(t) as real / 1000.0) / 60.0;
    0.5 * normalizedSkillDiff + 0.3 * normalizedLagDiff - 0.2 * normalizedWaitingTime
  }

  /** So both scores rank any two teams the same way, ties included. */
  lemma ScoreOrderAgrees(a: Team, b: Team)
    requires |a| > 0 && |b| > 0
    ensures CalculateTeamScore(a) < CalculateTeamScore(b) <==> SourceScore(a) < SourceScore(b)
    ensures CalculateTeamScore(a) == CalculateTeamScore(b) <==> SourceScore(a) == SourceScore(b)
  {
  }

  /** A wider spread never lowers the score, a longer wait never raises it. */
  lemma ScoreMonotone(a: Team, b: Team)
    requires |a| > 0 && |b| > 0
    requires SkillDifference(a) <= SkillDifference(b)
    requires LagDifference(a) <= LagDifference(b)
    requires MaxWaitingTime(a) >= MaxWaitingTime(b)
    ensures CalculateTeamScore(a) <= CalculateTeamScore(b)
  {
  }

  /** A single player has no spread: the score is the waiting bonus alone. */
  lemma SingletonScore(p: Player)
    ensures SkillDifference([p]) == 0 && LagDifference([p]) == 0
    ensures CalculateTeamScore([p]) == -(p.waitMs as int)
  {
  }

  function Abs(x: int): (r: nat)
    ensures r == x || r == -x
  {
    if x < 0 then -x else x
  }

  /** For a pair the spreads are the absolute differences and the waiting
      time is the longer of the two: the metrics' contracts pin them down. */
  lemma PairMetrics(a: Player, b: Player)
    ensures SkillDifference([a, b]) == Abs(a.skill - b.skill)
    ensures LagDifference([a, b]) == Abs(a.lag - b.lag)
    ensures MaxWaitingTime([a, b]) == if a.waitMs >= b.waitMs then a.waitMs else b.waitMs
    ensures CalculateTeamScore([a, b]) ==
      SkillWeight * Abs(a.skill - b.skill) + LagWeight * Abs(a.lag - b.lag)
      - WaitWeight * (if a.waitMs >= b.waitMs then a.waitMs else b.waitMs)
  {
    PairSkill(a, b);
    PairLag(a, b);
    PairWait(a, b);
  }

  lemma PairSkill(a: Player, b: Player)
    ensures SkillDifference([a, b]) == Abs(a.skill - b.skill)
  {
    var t := [a, b];
    SkillAttained(t);
    assert t[0] == a && t[1] == b;
    assert t[0].skill - t[1].skill <= SkillDifference(t) && t[1].skill - t[0].skill <= SkillDifference(t);
  }

  lemma PairLag(a: Player, b: Player)
    ensures LagDifference([a, b]) == Abs(a.lag - b.lag)
  {
    var t := [a, b];
    LagAttained(t);
    assert t[0] == a && t[1] == b;
    assert t[0].lag - t[1].lag <= LagDifference(t) && t[1].lag - t[0].lag <= LagDifference(t);
  }

  lemma PairWait(a: Player, b: Player)
    ensures MaxWaitingTime([a, b]) == if a.waitMs >= b.waitMs then a.waitMs else b.waitMs
  {
    var t := [a, b];
    WaitAttained(t);
    assert t[0] == a && t[1] == b;
  }

  /** The score depends on who is in the team, not on the order in which
      the candidate lists them. */
  lemma ScoreIgnoresOrder(a: Team, b: Team)
    requires |a| > 0 && |b| > 0
    requires forall p :: p in a <==> p in b
    ensures SkillDifference(a) == SkillDifference(b)
    ensures LagDifference(a) == LagDifference(b)
    ensures MaxWaitingTime(a) == MaxWaitingTime(b)
    ensures CalculateTeamScore(a) == CalculateTeamScore(b)
  {
    SkillBound(a, b);
    SkillBound(b, a);
    LagBound(a, b);
    LagBound(b, a);
    WaitBound(a, b);
    WaitBound(b, a);
  }

  lemma SkillBound(a: Team, b: Team)
    requires |a| > 0 && |b| > 0
    requires forall p :: p in a ==> p in b
    ensures SkillDifference(a) <= SkillDifference(b)
  {
    SkillAttained(a);
    var i, j :| 0 <= i < |a| && 0 <= j < |a| && a[i].skill - a[j].skill == SkillDifference(a);
    assert a[i] in b && a[j] in b;
    var i', j' :| 0 <= i' < |b| && 0 <= j' < |b| && b[i'] == a[i] && b[j'] == a[j];
  }

  lemma LagBound(a: Team, b: Team)
    requires |a| > 0 && |b| > 0
    requires forall p :: p in a ==> p in b
    ensures LagDifference(a) <= LagDifference(b)
  {
    LagAttained(a);
    var i, j :| 0 <= i < |a| && 0 <= j < |a| && a[i].lag - a[j].lag == LagDifference(a);
    assert a[i] in b && a[j] in b;
    var i', j' :| 0 <= i' < |b| && 0 <= j' < |b| && b[i'] == a[i] && b[j'] == a[j];
  }

  lemma WaitBound(a: Team, b: Team)
    requires |a| > 0 && |b| > 0
    requires forall p :: p in a ==> p in b
    ensures MaxWaitingTime(a) <= MaxWaitingTime(b)
  {
    WaitAttained(a);
    var i :| 0 <= i < |a| && a[i].waitMs == MaxWaitingTime(a);
    assert a[i] in b;
    var i' :| 0 <= i' < |b| && b[i'] == a[i];
  }
}
