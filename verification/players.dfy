/** Players and the ordering a formation pass applies to its snapshot:
    waiting time descending, then skill ascending, then lag ascending
    (`OrderByDescending(...).ThenBy(...).ThenBy(...)`, a stable sort). */
module Players {

  /** A queued player. The waiting time is frozen at snapshot time, in
      milliseconds, instead of being re-read from the clock. */
  datatype Player = Player(id: int, skill: int, lag: int, waitMs: nat)

  /** The sort key of a player: two players with the same key are
      unordered by the sort and keep their snapshot order. */
  predicate SameKey(a: Player, b: Player) {
    a.waitMs == b.waitMs && a.skill == b.skill && a.lag == b.lag
  }

  /** `a` may come before `b` in the sorted list. */
  predicate KeyLeq(a: Player, b: Player) {
    || a.waitMs > b.waitMs
    || (a.waitMs == b.waitMs && a.skill < b.skill)
    || (a.waitMs == b.waitMs && a.skill == b.skill && a.lag <= b.lag)
  }

  predicate SortedByKey(s: seq<Player>) {
    forall i, j :: 0 <= i < j < |s| ==> KeyLeq(s[i], s[j])
  }

  /** Inserts `p` in front of the first element it may precede; so `p`
      lands before every element with the same key. */
  function Insert(p: Player, s: seq<Player>): (r: seq<Player>)
    ensures multiset(r) == multiset(s) + multiset{p}
  {
    if |s| == 0 || KeyLeq(p, s[0]) then [p] + s
    else
      assert s == [s[0]] + s[1..];
      [s[0]] + Insert(p, s[1..])
  }

  /** Inserting into a sorted list keeps it sorted. */
  lemma {:induction false} InsertSorted(p: Player, s: seq<Player>)
    requires SortedByKey(s)
    ensures SortedByKey(Insert(p, s))
  {
    if |s| > 0 && !KeyLeq(p, s[0]) {
      var tail := s[1..];
      assert SortedByKey(tail) by {
        forall i, j | 0 <= i < j < |tail| ensures KeyLeq(tail[i], tail[j]) {
          assert tail[i] == s[i + 1] && tail[j] == s[j + 1];
        }
      }
      InsertSorted(p, tail);
      var rest := Insert(p, tail);
      assert forall j :: 0 <= j < |tail| ==> KeyLeq(s[0], tail[j]) by {
        forall j | 0 <= j < |tail| ensures KeyLeq(s[0], tail[j]) {
          assert tail[j] == s[j + 1];
        }
      }
      InsertBelow(s[0], p, tail);
      var r := [s[0]] + rest;
      forall i, j | 0 <= i < j < |r| ensures KeyLeq(r[i], r[j]) {
        assert r[j] == rest[j - 1];
        if i > 0 {
          assert r[i] == rest[i - 1];
        }
      }
    }
  }

  /** An element that may precede `p` and all of `t` may precede all of
      `Insert(p, t)`. */
  lemma InsertBelow(x: Player, p: Player, t: seq<Player>)
    requires KeyLeq(x, p)
    requires forall j :: 0 <= j < |t| ==> KeyLeq(x, t[j])
    ensures forall k :: 0 <= k < |Insert(p, t)| ==> KeyLeq(x, Insert(p, t)[k])
  {
    var rest := Insert(p, t);
    forall k | 0 <= k < |rest| ensures KeyLeq(x, rest[k]) {
      assert rest[k] in multiset(rest);
      if rest[k] != p {
        assert rest[k] in multiset(t);
        var j :| 0 <= j < |t| && t[j] == rest[k];
      }
    }
  }

  /** The sorted working list of a formation pass. */
  function SortPlayers(s: seq<Player>): (r: seq<Player>)
    ensures SortedByKey(r)
    ensures multiset(r) == multiset(s)
  {
    if |s| == 0 then []
    else
      assert s == [s[0]] + s[1..];
      var rest := SortPlayers(s[1..]);
      InsertSorted(s[0], rest);
      Insert(s[0], rest)
  }

  /** Sorting a list that is already in key order leaves it as it is. */
  lemma SortedFixed(s: seq<Player>)
    requires SortedByKey(s)
    ensures SortPlayers(s) == s
  {
    forall q ensures WithKeyOf(SortPlayers(s), q) == WithKeyOf(s, q) {
      SortStable(s, q);
    }
    SortedUnique(SortPlayers(s), s);
  }

  /** Every suffix of a sorted list is sorted. */
  lemma SortedSuffix(s: seq<Player>, k: nat)
    requires SortedByKey(s) && k <= |s|
    ensures SortedByKey(s[k..])
  {
    var t := s[k..];
    forall i, j | 0 <= i < j < |t| ensures KeyLeq(t[i], t[j]) {
      assert t[i] == s[k + i] && t[j] == s[k + j];
    }
  }

  /** The players of `s` whose key equals the key of `q`, in their order in `s`. */
  function WithKeyOf(s: seq<Player>, q: Player): (r: seq<Player>) {
    if |s| == 0 then []
    else (if SameKey(s[0], q) then [s[0]] else []) + WithKeyOf(s[1..], q)
  }

  lemma {:induction false} InsertStable(p: Player, s: seq<Player>, q: Player)
    ensures WithKeyOf(Insert(p, s), q) == (if SameKey(p, q) then [p] else []) + WithKeyOf(s, q)
  {
    if |s| == 0 || KeyLeq(p, s[0]) {
      assert ([p] + s)[1..] == s;
    } else {
      InsertStable(p, s[1..], q);
      var rest := Insert(p, s[1..]);
      assert ([s[0]] + rest)[1..] == rest;
    }
  }

  /** Stability: among players with equal keys the sorted list keeps the
      snapshot order (LINQ's ordering operators are stable). */
  lemma {:induction false} SortStable(s: seq<Player>, q: Player)
    ensures WithKeyOf(SortPlayers(s), q) == WithKeyOf(s, q)
  {
    if |s| > 0 {
      SortStable(s[1..], q);
      InsertStable(s[0], SortPlayers(s[1..]), q);
    }
  }

  /** The sorted list is the unique sorted permutation up to the order of
      equal-keyed players, and that order is fixed by stability: so two
      snapshots that agree on every key class sort to the same list. */
  lemma {:induction false} SortDeterminedByKeyClasses(a: seq<Player>, b: seq<Player>)
    requires multiset(a) == multiset(b)
    requires forall q :: WithKeyOf(a, q) == WithKeyOf(b, q)
    ensures SortPlayers(a) == SortPlayers(b)
  {
    forall q ensures WithKeyOf(SortPlayers(a), q) == WithKeyOf(SortPlayers(b), q) {
      SortStable(a, q);
      SortStable(b, q);
    }
    SortedUnique(SortPlayers(a), SortPlayers(b));
  }

  /** Two sorted lists with the same players and the same order inside
      every key class are equal. */
  lemma {:induction false} SortedUnique(x: seq<Player>, y: seq<Player>)
    requires SortedByKey(x) && SortedByKey(y)
    requires multiset(x) == multiset(y)
    requires forall q :: WithKeyOf(x, q) == WithKeyOf(y, q)
    ensures x == y
  {
    if |x| == 0 {
      assert |y| == |multiset(y)| == 0;
    } else {
      assert |y| == |multiset(y)| == |x|;
      SameHead(x, y);
      SameTailMultiset(x, y);
      forall q ensures WithKeyOf(x[1..], q) == WithKeyOf(y[1..], q) {
        SameTailClass(x, y, q);
      }
      SortedUnique(x[1..], y[1..]);
      assert x == [x[0]] + x[1..] && y == [y[0]] + y[1..];
    }
  }

  lemma SameTailMultiset(x: seq<Player>, y: seq<Player>)
    requires |x| > 0 && |y| > 0 && x[0] == y[0]
    requires multiset(x) == multiset(y)
    ensures multiset(x[1..]) == multiset(y[1..])
  {
    assert x == [x[0]] + x[1..];
    assert y == [y[0]] + y[1..];
    assert multiset(x[1..]) == multiset(x) - multiset{x[0]};
    assert multiset(y[1..]) == multiset(y) - multiset{y[0]};
  }

  lemma SameHead(x: seq<Player>, y: seq<Player>)
    requires |x| > 0 && |y| > 0
    requires SortedByKey(x) && SortedByKey(y)
    requires multiset(x) == multiset(y)
    requires WithKeyOf(x, x[0]) == WithKeyOf(y, x[0])
    ensures x[0] == y[0]
  {
    assert x[0] in multiset(y);
    assert y[0] in multiset(x);
    var i :| 0 <= i < |y| && y[i] == x[0];
    var j :| 0 <= j < |x| && x[j] == y[0];
    assert KeyLeq(y[0], x[0]) && KeyLeq(x[0], y[0]);
    assert WithKeyOf(x, x[0])[0] == x[0];
    assert WithKeyOf(y, x[0])[0] == y[0];
  }

  lemma SameTailClass(x: seq<Player>, y: seq<Player>, q: Player)
    requires |x| > 0 && |y| > 0 && x[0] == y[0]
    requires WithKeyOf(x, q) == WithKeyOf(y, q)
    ensures WithKeyOf(x[1..], q) == WithKeyOf(y[1..], q)
  {
    var h := if SameKey(x[0], q) then [x[0]] else [];
    assert WithKeyOf(x, q) == h + WithKeyOf(x[1..], q);
    assert WithKeyOf(y, q) == h + WithKeyOf(y[1..], q);
    assert WithKeyOf(x[1..], q) == (h + WithKeyOf(x[1..], q))[|h|..];
    assert WithKeyOf(y[1..], q) == (h + WithKeyOf(y[1..], q))[|h|..];
  }
}
