/** The candidate enumeration of `GetCombinations(list, length)`. Despite
    its name it yields ordered selections: for length 1 every element as a
    singleton, and for a longer length every shorter candidate extended by
    each element of `list` it does not already contain, in list order. */
module Combinations {
  import opened Seqs

  /** `c` is an ordered selection of `k` different elements of `list`. */
  predicate IsSelection<T(==)>(c: seq<T>, list: seq<T>, k: nat) {
    |c| == k && Distinct(c) && forall i :: 0 <= i < |c| ==> c[i] in list
  }

  /** `list.Select(t => new List<Player> { t })`. */
  function Singletons<T>(list: seq<T>): (r: seq<seq<T>>)
    ensures |r| == |list|
    ensures forall i :: 0 <= i < |r| ==> r[i] == [list[i]]
  {
    if |list| == 0 then [] else [[list[0]]] + Singletons(list[1..])
  }

  /** The extensions of one shorter candidate `t`:
      `list.Where(e => !t.Contains(e))`, each appended to `t`, scanning
      `list` from position `from`. */
  function Extensions<T(==)>(t: seq<T>, list: seq<T>, from: nat): (r: seq<seq<T>>)
    ensures from <= |list| ==> |r| <= |list| - from
    decreases |list| - from
  {
    if from >= |list| then []
    else (if list[from] in t then [] else [t + [list[from]]]) + Extensions(t, list, from + 1)
  }

  /** `SelectMany` over the shorter candidates, in their order. */
  function ExtendAll<T(==)>(ts: seq<seq<T>>, list: seq<T>): (r: seq<seq<T>>)
  {
    if |ts| == 0 then [] else Extensions(ts[0], list, 0) + ExtendAll(ts[1..], list)
  }

  /** `GetCombinations(list, length)`, eagerly. Every candidate is an
      ordered selection of `length` different elements of `list`; for
      length 1 the candidates are the elements as singletons, in order. */
  function GetCombinations<T(==)>(list: seq<T>, length: nat): (r: seq<seq<T>>)
    requires length >= 1
    ensures forall m :: 0 <= m < |r| ==> IsSelection(r[m], list, length)
    ensures length == 1 ==> |r| == |list| && forall i :: 0 <= i < |list| ==> r[i] == [list[i]]
    decreases length
  {
    if length == 1 then Singletons(list)
    else
      var shorter := GetCombinations(list, length - 1);
      ExtendAllShape(shorter, list, length - 1);
      ExtendAll(shorter, list)
  }

  // ---------------------------------------------------------------------
  // Shape

  /** Every extension of `t` is `t` plus one element of `list` from
      position `from` on that `t` does not contain. */
  lemma {:induction false} ExtensionsMember<T>(t: seq<T>, list: seq<T>, from: nat, m: nat)
    requires m < |Extensions(t, list, from)|
    ensures exists i :: from <= i < |list| && list[i] !in t && Extensions(t, list, from)[m] == t + [list[i]]
    decreases |list| - from
  {
    if from < |list| {
      var head := if list[from] in t then [] else [t + [list[from]]];
      var rest := Extensions(t, list, from + 1);
      if m >= |head| {
        assert Extensions(t, list, from)[m] == rest[m - |head|];
        ExtensionsMember(t, list, from + 1, m - |head|);
      }
    }
  }

  /** Every candidate of `ExtendAll(ts, list)` is some `ts[j]` plus an
      element of `list` that `ts[j]` does not contain. */
  lemma {:induction false} ExtendAllMember<T>(ts: seq<seq<T>>, list: seq<T>, m: nat)
    requires m < |ExtendAll(ts, list)|
    ensures exists j, i :: 0 <= j < |ts| && 0 <= i < |list| && list[i] !in ts[j]
                        && ExtendAll(ts, list)[m] == ts[j] + [list[i]]
  {
    var e := Extensions(ts[0], list, 0);
    if m < |e| {
      assert ExtendAll(ts, list)[m] == e[m];
      ExtensionsMember(ts[0], list, 0, m);
    } else {
      assert ExtendAll(ts, list)[m] == ExtendAll(ts[1..], list)[m - |e|];
      ExtendAllMember(ts[1..], list, m - |e|);
      var j, i :| 0 <= j < |ts[1..]| && 0 <= i < |list| && list[i] !in ts[1..][j]
               && ExtendAll(ts[1..], list)[m - |e|] == ts[1..][j] + [list[i]];
      assert ts[1..][j] == ts[j + 1];
    }
  }

  lemma ExtendAllShape<T>(ts: seq<seq<T>>, list: seq<T>, k: nat)
    requires forall j :: 0 <= j < |ts| ==> IsSelection(ts[j], list, k)
    ensures forall m :: 0 <= m < |ExtendAll(ts, list)| ==> IsSelection(ExtendAll(ts, list)[m], list, k + 1)
  {
    forall m | 0 <= m < |ExtendAll(ts, list)|
      ensures IsSelection(ExtendAll(ts, list)[m], list, k + 1)
    {
      ExtendAllMember(ts, list, m);
      var j, i :| 0 <= j < |ts| && 0 <= i < |list| && list[i] !in ts[j]
               && ExtendAll(ts, list)[m] == ts[j] + [list[i]];
      AppendFresh(ts[j], list[i]);
    }
  }

  // ---------------------------------------------------------------------
  // Completeness: every ordered selection is enumerated

  lemma {:induction false} ExtensionsContain<T>(t: seq<T>, list: seq<T>, from: nat, i: nat)
    requires from <= i < |list| && list[i] !in t
    ensures t + [list[i]] in Extensions(t, list, from)
    decreases |list| - from
  {
    if i > from {
      ExtensionsContain(t, list, from + 1, i);
    }
  }

  lemma {:induction false} ExtendAllContain<T>(ts: seq<seq<T>>, list: seq<T>, j: nat, i: nat)
    requires j < |ts| && i < |list| && list[i] !in ts[j]
    ensures ts[j] + [list[i]] in ExtendAll(ts, list)
  {
    if j == 0 {
      ExtensionsContain(ts[0], list, 0, i);
    } else {
      assert ts[1..][j - 1] == ts[j];
      ExtendAllContain(ts[1..], list, j - 1, i);
    }
  }

  /** Conversely to the shape contract of `GetCombinations`: every ordered
      selection of `k` different elements of `list` is a candidate. */
  lemma {:induction false} CombinationsComplete<T>(list: seq<T>, k: nat, c: seq<T>)
    requires k >= 1 && IsSelection(c, list, k)
    ensures c in GetCombinations(list, k)
    decreases k
  {
    if k == 1 {
      var i :| 0 <= i < |list| && list[i] == c[0];
      assert c == [list[i]];
      assert GetCombinations(list, 1)[i] == c;
    } else {
      var prefix := c[..k - 1];
      assert IsSelection(prefix, list, k - 1) by {
        forall a, b | 0 <= a < b < |prefix| ensures prefix[a] != prefix[b] {
          assert prefix[a] == c[a] && prefix[b] == c[b];
        }
      }
      CombinationsComplete(list, k - 1, prefix);
      var ts := GetCombinations(list, k - 1);
      var j :| 0 <= j < |ts| && ts[j] == prefix;
      var i :| 0 <= i < |list| && list[i] == c[k - 1];
      assert c[k - 1] !in prefix by {
        forall a | 0 <= a < |prefix| ensures prefix[a] != c[k - 1] {
          assert prefix[a] == c[a];
        }
      }
      ExtendAllContain(ts, list, j, i);
      assert c == prefix + [list[i]];
    }
  }

  /** Membership in the enumeration, both directions. */
  lemma CombinationsMembership<T>(list: seq<T>, k: nat, c: seq<T>)
    requires k >= 1
    ensures c in GetCombinations(list, k) <==> IsSelection(c, list, k)
  {
    if IsSelection(c, list, k) {
      CombinationsComplete(list, k, c);
    }
  }

  // ---------------------------------------------------------------------
  // Count: n * (n - 1) * ... * (n - k + 1) candidates

  /** The falling factorial n * (n - 1) * ... * (n - k + 1); zero when k > n. */
  function Falling(n: nat, k: nat): (r: nat)
    ensures r > 0 <==> k <= n
  {
    if k == 0 then 1 else if k > n then 0 else Falling(n, k - 1) * (n - k + 1)
  }

  lemma {:induction false} DistinctSetSize<T>(t: seq<T>)
    requires Distinct(t)
    ensures |set x | x in t| == |t|
  {
    if |t| > 0 {
      TailDistinct(t);
      DistinctSetSize(t[1..]);
      assert (set x | x in t) == {t[0]} + (set x | x in t[1..]) by {
        assert t == [t[0]] + t[1..];
      }
    }
  }

  lemma {:induction false} SetSizeAtMost<T>(t: seq<T>)
    ensures |set x | x in t| <= |t|
  {
    if |t| > 0 {
      SetSizeAtMost(t[1..]);
      assert (set x | x in t) == {t[0]} + (set x | x in t[1..]) by {
        assert t == [t[0]] + t[1..];
      }
    }
  }

  /** Pigeonhole: a selection of `k` different elements of `list` needs
      `k <= |list|`. */
  lemma SelectionFits<T>(c: seq<T>, list: seq<T>, k: nat)
    requires IsSelection(c, list, k)
    ensures k <= |list|
  {
    DistinctSetSize(c);
    SetSizeAtMost(list);
    assert (set x | x in c) <= (set x | x in list);
    SubsetSize(set x | x in c, set x | x in list);
  }

  lemma {:induction false} SubsetSize<T>(a: set<T>, b: set<T>)
    requires a <= b
    ensures |a| <= |b|
  {
    if a != {} {
      var x :| x in a;
      SubsetSize(a - {x}, b - {x});
    }
  }

  /** The extensions of `t` plus the members of `t` met in `list[from..]`
      account for every position of `list[from..]`. */
  lemma {:induction false} ExtensionsCount<T>(t: seq<T>, list: seq<T>, from: nat)
    requires Distinct(list) && from <= |list|
    ensures |Extensions(t, list, from)| + |set x | x in list[from..] && x in t| == |list| - from
    decreases |list| - from
  {
    if from == |list| {
      assert (set x | x in list[from..] && x in t) == {};
    } else {
      ExtensionsCount(t, list, from + 1);
      var here := list[from];
      assert list[from..] == [here] + list[from + 1..];
      var tail := list[from + 1..];
      assert here !in tail by {
        forall b | 0 <= b < |tail| ensures tail[b] != here {
          assert tail[b] == list[from + 1 + b];
        }
      }
      var s0 := set x | x in list[from..] && x in t;
      var s1 := set x | x in list[from + 1..] && x in t;
      if here in t {
        assert s0 == {here} + s1;
      } else {
        assert s0 == s1;
      }
    }
  }

  /** A selection of `k` elements of `list` has `|list| - k` extensions. */
  lemma ExtensionsOfSelection<T>(t: seq<T>, list: seq<T>, k: nat)
    requires Distinct(list) && IsSelection(t, list, k)
    ensures k <= |list|
    ensures |Extensions(t, list, 0)| == |list| - k
  {
    SelectionFits(t, list, k);
    ExtensionsCount(t, list, 0);
    assert list[0..] == list;
    assert (set x | x in list && x in t) == (set x | x in t);
    DistinctSetSize(t);
  }

  lemma {:induction false} ExtendAllCount<T>(ts: seq<seq<T>>, list: seq<T>, k: nat)
    requires Distinct(list) && k <= |list|
    requires forall j :: 0 <= j < |ts| ==> IsSelection(ts[j], list, k)
    ensures |ExtendAll(ts, list)| == |ts| * (|list| - k)
  {
    if |ts| > 0 {
      ExtensionsOfSelection(ts[0], list, k);
      ExtendAllCount(ts[1..], list, k);
      assert |ExtendAll(ts, list)| == |Extensions(ts[0], list, 0)| + |ExtendAll(ts[1..], list)|;
      MulPred(|ts|, |list| - k);
    }
  }

  lemma MulPred(a: nat, n: int)
    requires a > 0
    ensures a * n == (a - 1) * n + n
  {
  }

  /** Over a list without repeats there are n * (n - 1) * ... * (n - k + 1)
      candidates; in particular none when `k > |list|`. */
  lemma {:induction false} CombinationsCount<T>(list: seq<T>, k: nat)
    requires k >= 1 && Distinct(list)
    ensures |GetCombinations(list, k)| == Falling(|list|, k)
    ensures k > |list| ==> GetCombinations(list, k) == []
    decreases k
  {
    if k > 1 {
      var ts := GetCombinations(list, k - 1);
      CombinationsCount(list, k - 1);
      assert GetCombinations(list, k) == ExtendAll(ts, list);
      if k - 1 <= |list| {
        ExtendAllCount(ts, list, k - 1);
        FallingStep(|list|, k);
      } else {
        assert ts == [];
      }
    } else {
      assert Falling(|list|, 1) == |list|;
    }
  }

  lemma FallingStep(n: nat, k: nat)
    requires 1 <= k <= n + 1
    ensures Falling(n, k) == Falling(n, k - 1) * (n - (k - 1))
  {
  }

  /** With repeats allowed in `list`, still no candidate is longer than the
      list has elements. */
  lemma CombinationsEmptyWhenTooLong<T>(list: seq<T>, k: nat)
    requires k >= 1 && k > |list|
    ensures GetCombinations(list, k) == []
  {
    var r := GetCombinations(list, k);
    if |r| > 0 {
      SelectionFits(r[0], list, k);
    }
  }

  // ---------------------------------------------------------------------
  // Order: lexicographic in the positions of the chosen elements

  /** The positions in `list` of the elements of a candidate. */
  function Positions<T(==)>(c: seq<T>, list: seq<T>): (r: seq<nat>)
    ensures |r| == |c|
    ensures forall m :: 0 <= m < |c| ==> r[m] == IndexOf(list, c[m])
  {
    seq(|c|, m requires 0 <= m < |c| => IndexOf(list, c[m]))
  }

  /** Strict lexicographic order on position sequences. */
  predicate LexLess(a: seq<nat>, b: seq<nat>) {
    |a| > 0 && |b| > 0 && (a[0] < b[0] || (a[0] == b[0] && LexLess(a[1..], b[1..])))
  }

  /** Candidates strictly increase in the lexicographic order of their positions. */
  predicate InLexOrder<T(==)>(cs: seq<seq<T>>, list: seq<T>) {
    forall i, j :: 0 <= i < j < |cs| ==> LexLess(Positions(cs[i], list), Positions(cs[j], list))
  }

  lemma {:induction false} LexIrreflexive(a: seq<nat>)
    ensures !LexLess(a, a)
  {
    if |a| > 0 {
      LexIrreflexive(a[1..]);
    }
  }

  /** Same prefix, smaller last position. */
  lemma {:induction false} LexLastLess(p: seq<nat>, u: nat, v: nat)
    requires u < v
    ensures LexLess(p + [u], p + [v])
  {
    if |p| > 0 {
      assert (p + [u])[1..] == p[1..] + [u];
      assert (p + [v])[1..] == p[1..] + [v];
      LexLastLess(p[1..], u, v);
    }
  }

  /** Appending to both sides keeps a strict order of equal-length prefixes. */
  lemma {:induction false} LexAppend(p: seq<nat>, q: seq<nat>, u: nat, v: nat)
    requires LexLess(p, q)
    ensures LexLess(p + [u], q + [v])
  {
    assert (p + [u])[0] == p[0] && (q + [v])[0] == q[0];
    if p[0] == q[0] && !(p[0] < q[0]) {
      assert (p + [u])[1..] == p[1..] + [u];
      assert (q + [v])[1..] == q[1..] + [v];
      LexAppend(p[1..], q[1..], u, v);
    }
  }

  lemma PositionsAppend<T>(t: seq<T>, x: T, list: seq<T>)
    ensures Positions(t + [x], list) == Positions(t, list) + [IndexOf(list, x)]
  {
    var l, r := Positions(t + [x], list), Positions(t, list) + [IndexOf(list, x)];
    forall m | 0 <= m < |l| ensures l[m] == r[m] {
      if m < |t| {
        assert (t + [x])[m] == t[m];
      }
    }
  }

  lemma DistinctIndexOf<T>(list: seq<T>, i: nat)
    requires Distinct(list) && i < |list|
    ensures IndexOf(list, list[i]) == i
  {
  }

  lemma LexConcat<T>(a: seq<seq<T>>, b: seq<seq<T>>, list: seq<T>)
    requires InLexOrder(a, list) && InLexOrder(b, list)
    requires forall i, j :: 0 <= i < |a| && 0 <= j < |b| ==> LexLess(Positions(a[i], list), Positions(b[j], list))
    ensures InLexOrder(a + b, list)
  {
    var c := a + b;
    forall i, j | 0 <= i < j < |c| ensures LexLess(Positions(c[i], list), Positions(c[j], list)) {
      if j < |a| {
        assert c[i] == a[i] && c[j] == a[j];
      } else if i < |a| {
        assert c[i] == a[i] && c[j] == b[j - |a|];
      } else {
        assert c[i] == b[i - |a|] && c[j] == b[j - |a|];
      }
    }
  }

  /** The extensions of `t` from position `from` on end in elements at
      positions `from` or later. */
  lemma ExtensionsLastFrom<T>(t: seq<T>, list: seq<T>, from: nat, m: nat)
    requires Distinct(list) && m < |Extensions(t, list, from)|
    ensures |Extensions(t, list, from)[m]| == |t| + 1
    ensures Positions(Extensions(t, list, from)[m], list) == Positions(t, list) + [Positions(Extensions(t, list, from)[m], list)[|t|]]
    ensures from <= Positions(Extensions(t, list, from)[m], list)[|t|] < |list|
  {
    ExtensionsMember(t, list, from, m);
    var i :| from <= i < |list| && list[i] !in t && Extensions(t, list, from)[m] == t + [list[i]];
    PositionsAppend(t, list[i], list);
    DistinctIndexOf(list, i);
  }

  lemma {:induction false} ExtensionsLex<T>(t: seq<T>, list: seq<T>, from: nat)
    requires Distinct(list)
    ensures InLexOrder(Extensions(t, list, from), list)
    decreases |list| - from
  {
    if from < |list| {
      ExtensionsLex(t, list, from + 1);
      var rest := Extensions(t, list, from + 1);
      if list[from] !in t {
        var head := [t + [list[from]]];
        PositionsAppend(t, list[from], list);
        DistinctIndexOf(list, from);
        forall j | 0 <= j < |rest|
          ensures LexLess(Positions(head[0], list), Positions(rest[j], list))
        {
          ExtensionsLastFrom(t, list, from + 1, j);
          LexLastLess(Positions(t, list), from, Positions(rest[j], list)[|t|]);
        }
        LexConcat(head, rest, list);
      } else {
        assert Extensions(t, list, from) == rest;
      }
    }
  }

  lemma {:induction false} ExtendAllLex<T>(ts: seq<seq<T>>, list: seq<T>, k: nat)
    requires Distinct(list) && InLexOrder(ts, list)
    requires forall j :: 0 <= j < |ts| ==> |ts[j]| == k
    ensures InLexOrder(ExtendAll(ts, list), list)
  {
    if |ts| > 0 {
      var e := Extensions(ts[0], list, 0);
      var rest := ExtendAll(ts[1..], list);
      assert InLexOrder(ts[1..], list) by {
        forall i, j | 0 <= i < j < |ts[1..]|
          ensures LexLess(Positions(ts[1..][i], list), Positions(ts[1..][j], list))
        {
          assert ts[1..][i] == ts[i + 1] && ts[1..][j] == ts[j + 1];
        }
      }
      ExtendAllLex(ts[1..], list, k);
      ExtensionsLex(ts[0], list, 0);
      forall a, b | 0 <= a < |e| && 0 <= b < |rest|
        ensures LexLess(Positions(e[a], list), Positions(rest[b], list))
      {
        ExtensionsMember(ts[0], list, 0, a);
        var x :| 0 <= x < |list| && list[x] !in ts[0] && e[a] == ts[0] + [list[x]];
        ExtendAllMember(ts[1..], list, b);
        var j, y :| 0 <= j < |ts[1..]| && 0 <= y < |list| && list[y] !in ts[1..][j]
                 && rest[b] == ts[1..][j] + [list[y]];
        assert ts[1..][j] == ts[j + 1];
        PositionsAppend(ts[0], list[x], list);
        PositionsAppend(ts[j + 1], list[y], list);
        LexAppend(Positions(ts[0], list), Positions(ts[j + 1], list), IndexOf(list, list[x]), IndexOf(list, list[y]));
      }
      LexConcat(e, rest, list);
    }
  }

  /** Over a list without repeats the enumeration is in strictly increasing
      lexicographic order of positions; so no candidate appears twice. */
  lemma {:induction false} CombinationsLexOrder<T>(list: seq<T>, k: nat)
    requires k >= 1 && Distinct(list)
    ensures InLexOrder(GetCombinations(list, k), list)
    ensures Distinct(GetCombinations(list, k))
    decreases k
  {
    var r := GetCombinations(list, k);
    if k == 1 {
      forall i, j | 0 <= i < j < |r| ensures LexLess(Positions(r[i], list), Positions(r[j], list)) {
        DistinctIndexOf(list, i);
        DistinctIndexOf(list, j);
        assert Positions(r[i], list) == [i] && Positions(r[j], list) == [j];
      }
    } else {
      CombinationsLexOrder(list, k - 1);
      ExtendAllLex(GetCombinations(list, k - 1), list, k - 1);
    }
    forall i, j | 0 <= i < j < |r| ensures r[i] != r[j] {
      LexIrreflexive(Positions(r[i], list));
    }
  }
}
