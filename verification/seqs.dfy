/** Sequence helpers shared by the matchmaking model: distinctness, the
    order-preserving filter `Without`, flattening, and a model of
    `List<T>.Remove`, which drops the first occurrence of an element. */
module Seqs {

  datatype Option<T> = None | Some(value: T)

  /** No element occurs twice. */
  predicate Distinct<T(==)>(s: seq<T>) {
    forall i, j :: 0 <= i < j < |s| ==> s[i] != s[j]
  }

  /** No element of `a` occurs in `b`. */
  predicate Disjoint<T(==)>(a: seq<T>, b: seq<T>) {
    forall i :: 0 <= i < |a| ==> a[i] !in b
  }

  function Min(a: int, b: int): (m: int)
    ensures m <= a && m <= b && (m == a || m == b)
  {
    if a <= b then a else b
  }

  /** The elements of `s` that do not occur in `xs`, in their order in `s`.
      This is the reference against which removal is judged. */
  function Without<T(==,!new)>(s: seq<T>, xs: seq<T>): (r: seq<T>)
    ensures |r| <= |s|
    ensures forall x :: x in r <==> x in s && x !in xs
  {
    if |s| == 0 then []
    else if s[0] in xs then
      assert s == [s[0]] + s[1..];
      Without(s[1..], xs)
    else
      assert s == [s[0]] + s[1..];
      [s[0]] + Without(s[1..], xs)
  }

  /** `Without` keeps every surviving element as often as it occurred. */
  lemma {:induction false} WithoutCount<T(!new)>(s: seq<T>, xs: seq<T>)
    ensures forall x {:trigger multiset(Without(s, xs))[x]} ::
      multiset(Without(s, xs))[x] == if x in xs then 0 else multiset(s)[x]
  {
    if |s| > 0 {
      WithoutCount(s[1..], xs);
      assert s == [s[0]] + s[1..];
    }
  }

  /** Concatenation of a sequence of sequences. */
  function Flatten<T>(ss: seq<seq<T>>): (r: seq<T>)
    ensures forall i, x :: 0 <= i < |ss| && x in ss[i] ==> x in r
  {
    if |ss| == 0 then [] else ss[0] + Flatten(ss[1..])
  }

  /** Position of the first occurrence of `x` in `list`; `|list|` if absent. */
  function IndexOf<T(==)>(list: seq<T>, x: T): (i: nat)
    ensures i <= |list|
    ensures i < |list| <==> x in list
    ensures i < |list| ==> list[i] == x
    ensures forall j :: 0 <= j < i ==> list[j] != x
  {
    if |list| == 0 then 0
    else if list[0] == x then 0
    else
      var i := IndexOf(list[1..], x);
      assert forall j :: 1 <= j < |list| ==> list[j] == list[1..][j - 1];
      1 + i
  }

  /** Appending an element a sequence without repeats does not contain keeps it without repeats. */
  lemma AppendFresh<T>(t: seq<T>, x: T)
    requires Distinct(t) && x !in t
    ensures Distinct(t + [x])
  {
    var c := t + [x];
    forall a, b | 0 <= a < b < |c| ensures c[a] != c[b] {
      if b == |t| {
        assert c[a] == t[a];
      } else {
        assert c[a] == t[a] && c[b] == t[b];
      }
    }
  }

  /** `List<T>.Remove(x)`: removes the first occurrence of `x`, if any,
      and keeps every other element in its order. */
  function RemoveFirst<T(==)>(s: seq<T>, x: T): (r: seq<T>)
    ensures multiset(r) == multiset(s) - multiset{x}
    ensures x in s ==> |r| == |s| - 1 && r == s[..IndexOf(s, x)] + s[IndexOf(s, x) + 1..]
    ensures x !in s ==> r == s
  {
    if |s| == 0 then []
    else if s[0] == x then
      RemoveHead(s);
      s[1..]
    else
      var t := RemoveFirst(s[1..], x);
      KeepHead(s, x, t);
      [s[0]] + t
  }

  /** The first occurrence is the head. */
  lemma RemoveHead<T>(s: seq<T>)
    requires |s| > 0
    ensures multiset(s[1..]) == multiset(s) - multiset{s[0]}
    ensures s[1..] == s[..IndexOf(s, s[0])] + s[IndexOf(s, s[0]) + 1..]
  {
    HeadSplit(s);
    assert s[..0] == [];
  }

  /** A head that is not `x` stays in front of the tail's removal. */
  lemma KeepHead<T>(s: seq<T>, x: T, t: seq<T>)
    requires |s| > 0 && s[0] != x
    requires multiset(t) == multiset(s[1..]) - multiset{x}
    requires x in s[1..] ==> t == s[1..][..IndexOf(s[1..], x)] + s[1..][IndexOf(s[1..], x) + 1..]
    requires x !in s[1..] ==> t == s[1..]
    ensures multiset([s[0]] + t) == multiset(s) - multiset{x}
    ensures x in s ==> [s[0]] + t == s[..IndexOf(s, x)] + s[IndexOf(s, x) + 1..]
    ensures x !in s ==> [s[0]] + t == s
  {
    HeadSplit(s);
    assert multiset([s[0]] + t) == multiset{s[0]} + multiset(t);
    AddOther(s[0], multiset(s[1..]), x);
    if x in s {
      SpliceTail(s, x);
    }
  }

  /** A non-empty sequence is its head followed by its tail. */
  lemma HeadSplit<T>(s: seq<T>)
    requires |s| > 0
    ensures [s[0]] + s[1..] == s
    ensures multiset(s) == multiset{s[0]} + multiset(s[1..])
  {
    assert s == [s[0]] + s[1..];
  }

  /** Cutting out the first `x` commutes with keeping a head that is not `x`. */
  lemma SpliceTail<T>(s: seq<T>, x: T)
    requires |s| > 0 && s[0] != x && x in s
    ensures x in s[1..]
    ensures s[..IndexOf(s, x)] + s[IndexOf(s, x) + 1..]
         == [s[0]] + (s[1..][..IndexOf(s[1..], x)] + s[1..][IndexOf(s[1..], x) + 1..])
  {
    assert IndexOf(s, x) == IndexOf(s[1..], x) + 1;
    SpliceShift(s, IndexOf(s[1..], x));
  }

  lemma SpliceShift<T>(s: seq<T>, i: nat)
    requires i + 1 < |s|
    ensures s[..i + 1] + s[i + 2..] == [s[0]] + (s[1..][..i] + s[1..][i + 1..])
  {
    assert s[..i + 1] == [s[0]] + s[1..][..i];
    assert s[i + 2..] == s[1..][i + 1..];
  }

  /** The reference for a run of removals: walking `s` from the front, an
      element is dropped while `m` still holds a copy of it, and every
      other element is kept in its order. So the first `m[x]` occurrences
      of each `x` go. */
  function DropFirst<T(==)>(s: seq<T>, m: multiset<T>): (r: seq<T>)
    ensures multiset(r) == multiset(s) - m
  {
    if |s| == 0 then []
    else
      assert s == [s[0]] + s[1..];
      if m[s[0]] > 0 then DropFirst(s[1..], m - multiset{s[0]})
      else [s[0]] + DropFirst(s[1..], m)
  }

  /** `foreach (var x in xs) list.Remove(x)`: the first occurrences go, as
      many of each value as `xs` lists, and the rest keep their order. */
  function RemoveEach<T(==)>(s: seq<T>, xs: seq<T>): (r: seq<T>)
    ensures multiset(r) == multiset(s) - multiset(xs)
    ensures r == DropFirst(s, multiset(xs))
    decreases |xs|
  {
    if |xs| == 0 then
      DropNothing(s);
      s
    else
      assert xs == [xs[0]] + xs[1..];
      RemoveFirstDrops(s, xs[0]);
      DropTwice(s, multiset{xs[0]}, multiset(xs[1..]));
      RemoveEach(RemoveFirst(s, xs[0]), xs[1..])
  }

  /** Removing the head once leaves the tail. */
  lemma RemoveEachHead<T>(s: seq<T>)
    requires |s| > 0
    ensures RemoveEach(s, [s[0]]) == s[1..]
  {
    assert RemoveEach(s, [s[0]]) == RemoveEach(RemoveFirst(s, s[0]), []);
  }

  lemma {:induction false} DropNothing<T>(s: seq<T>)
    ensures DropFirst(s, multiset{}) == s
  {
    if |s| > 0 {
      DropNothing(s[1..]);
    }
  }

  /** One removal is the reference with a single copy of `x`. */
  lemma {:induction false} RemoveFirstDrops<T>(s: seq<T>, x: T)
    ensures RemoveFirst(s, x) == DropFirst(s, multiset{x})
  {
    if |s| > 0 {
      if s[0] == x {
        assert multiset{x} - multiset{s[0]} == multiset{};
        DropNothing(s[1..]);
      } else {
        RemoveFirstDrops(s[1..], x);
      }
    }
  }

  /** Dropping with `a` and then with `b` is dropping with `a + b`. */
  lemma {:induction false} DropTwice<T>(s: seq<T>, a: multiset<T>, b: multiset<T>)
    ensures DropFirst(DropFirst(s, a), b) == DropFirst(s, a + b)
  {
    if |s| > 0 {
      var x, t := s[0], s[1..];
      if a[x] > 0 {
        DropTwice(t, a - multiset{x}, b);
        TakeOne(a, b, x);
        assert DropFirst(s, a + b) == DropFirst(t, a + b - multiset{x});
      } else {
        var d := DropFirst(t, a);
        assert DropFirst(s, a) == [x] + d;
        assert ([x] + d)[0] == x && ([x] + d)[1..] == d;
        if b[x] > 0 {
          DropTwice(t, a, b - multiset{x});
          TakeOne(b, a, x);
          assert DropFirst(s, a + b) == DropFirst(t, a + b - multiset{x});
        } else {
          DropTwice(t, a, b);
          assert DropFirst(s, a + b) == [x] + DropFirst(t, a + b);
        }
      }
    }
  }

  /** Taking a copy of `x` out of either operand of a sum that holds it
      there takes it out of the sum. */
  lemma TakeOne<T>(a: multiset<T>, b: multiset<T>, x: T)
    requires a[x] > 0
    ensures a - multiset{x} + b == a + b - multiset{x}
    ensures b + (a - multiset{x}) == b + a - multiset{x}
    ensures a + b == b + a
  {
  }

  /** Adding `y` and taking out a different `x` commute. */
  lemma AddOther<T>(y: T, m: multiset<T>, x: T)
    requires y != x
    ensures multiset{y} + (m - multiset{x}) == (multiset{y} + m) - multiset{x}
  {
  }

  lemma FlattenAppend<T>(ss: seq<seq<T>>, t: seq<T>)
    ensures Flatten(ss + [t]) == Flatten(ss) + t
  {
    if |ss| == 0 {
      assert ss + [t] == [t];
    } else {
      assert (ss + [t])[1..] == ss[1..] + [t];
      FlattenAppend(ss[1..], t);
    }
  }

  lemma {:induction false} WithoutDistinct<T(!new)>(s: seq<T>, xs: seq<T>)
    requires Distinct(s)
    ensures Distinct(Without(s, xs))
  {
    if |s| > 0 {
      TailDistinct(s);
      WithoutDistinct(s[1..], xs);
      if s[0] !in xs {
        var r := Without(s[1..], xs);
        assert s[0] !in r;
        forall i, j | 0 <= i < j < |[s[0]] + r| ensures ([s[0]] + r)[i] != ([s[0]] + r)[j] {
          if i > 0 {
            assert ([s[0]] + r)[i] == r[i - 1] && ([s[0]] + r)[j] == r[j - 1];
          } else {
            assert ([s[0]] + r)[j] == r[j - 1];
          }
        }
      }
    }
  }

  /** The tail of a sequence without repeats has none either, and does not
      contain the head. */
  lemma TailDistinct<T>(s: seq<T>)
    requires |s| > 0 && Distinct(s)
    ensures Distinct(s[1..]) && s[0] !in s[1..]
  {
    var tail := s[1..];
    forall i, j | 0 <= i < j < |tail| ensures tail[i] != tail[j] {
      assert tail[i] == s[i + 1] && tail[j] == s[j + 1];
    }
    forall j | 0 <= j < |tail| ensures tail[j] != s[0] {
      assert tail[j] == s[j + 1];
    }
  }

  /** Removing `a` then `b` is removing `a + b`. */
  lemma {:induction false} WithoutWithout<T(!new)>(s: seq<T>, a: seq<T>, b: seq<T>)
    ensures Without(Without(s, a), b) == Without(s, a + b)
  {
    if |s| > 0 {
      WithoutWithout(s[1..], a, b);
      if s[0] !in a {
        var w := Without(s[1..], a);
        assert ([s[0]] + w)[1..] == w;
      }
    }
  }

  /** Without a repeated element, `List<T>.Remove(x)` is the filter that
      drops `x` and keeps every other element in its original order. */
  lemma {:induction false} RemoveFirstDistinct<T(!new)>(s: seq<T>, x: T)
    requires Distinct(s)
    ensures RemoveFirst(s, x) == Without(s, [x])
  {
    if |s| > 0 {
      TailDistinct(s);
      if s[0] == x {
        WithoutNoneRemoved(s[1..], [x]);
      } else {
        RemoveFirstDistinct(s[1..], x);
      }
    }
  }

  /** Filtering out elements that do not occur changes nothing. */
  lemma {:induction false} WithoutNoneRemoved<T(!new)>(s: seq<T>, xs: seq<T>)
    requires forall x :: x in xs ==> x !in s
    ensures Without(s, xs) == s
  {
    if |s| > 0 {
      assert s[0] in s;
      WithoutNoneRemoved(s[1..], xs);
      assert s == [s[0]] + s[1..];
    }
  }

  /** The removal loop of a formation pass, on a queue without repeated
      entries: exactly the listed players go, and every other entry (whether
      or not it was part of the snapshot) stays, in its original order. */
  lemma {:induction false} RemoveEachDistinct<T(!new)>(s: seq<T>, xs: seq<T>)
    requires Distinct(s)
    ensures RemoveEach(s, xs) == Without(s, xs)
    decreases |xs|
  {
    if |xs| == 0 {
      WithoutNoneRemoved(s, xs);
    } else {
      var x, rest := xs[0], xs[1..];
      var s1 := RemoveFirst(s, x);
      calc {
        RemoveEach(s, xs);
        RemoveEach(s1, rest);
        { RemoveFirstDistinct(s, x); WithoutDistinct(s, [x]); RemoveEachDistinct(s1, rest); }
        Without(s1, rest);
        { RemoveFirstDistinct(s, x); }
        Without(Without(s, [x]), rest);
        { WithoutWithout(s, [x], rest); assert [x] + rest == xs; }
        Without(s, xs);
      }
    }
  }

  /** With no repeated element, removing a sub-list takes away exactly its length. */
  lemma WithoutLength<T(!new)>(s: seq<T>, xs: seq<T>)
    requires Distinct(s) && Distinct(xs)
    requires forall x :: x in xs ==> x in s
    ensures |Without(s, xs)| == |s| - |xs|
  {
    WithoutCount(s, xs);
    DistinctMultiset(s);
    DistinctMultiset(xs);
    var ms, mx, mw := multiset(s), multiset(xs), multiset(Without(s, xs));
    assert mx <= ms by {
      forall x | x in mx ensures mx[x] <= ms[x] {
        assert x in xs;
      }
    }
    assert mw == ms - mx by {
      forall x ensures mw[x] == (ms - mx)[x] {
        if x in xs {
          assert mx[x] == 1 && ms[x] == 1;
        }
      }
    }
    assert (ms - mx) + mx == ms;
  }

  /** A sequence without repeated elements has multiplicity at most one everywhere. */
  lemma {:induction false} DistinctMultiset<T>(s: seq<T>)
    requires Distinct(s)
    ensures forall x {:trigger multiset(s)[x]} :: multiset(s)[x] <= 1
    ensures forall x {:trigger multiset(s)[x]} :: x in s ==> multiset(s)[x] == 1
  {
    if |s| > 0 {
      TailDistinct(s);
      DistinctMultiset(s[1..]);
      assert s == [s[0]] + s[1..];
      assert multiset(s) == multiset{s[0]} + multiset(s[1..]);
    }
  }

  /** Conversely, multiplicity at most one everywhere means no repeated element. */
  lemma MultisetDistinct<T>(s: seq<T>)
    requires forall x {:trigger multiset(s)[x]} :: multiset(s)[x] <= 1
    ensures Distinct(s)
  {
    forall i, j | 0 <= i < j < |s| ensures s[i] != s[j] {
      RepeatCounts(s, i, j);
    }
  }

  lemma RepeatCounts<T>(s: seq<T>, i: nat, j: nat)
    requires i < j < |s|
    ensures s[i] == s[j] ==> multiset(s)[s[i]] >= 2
  {
    if s[i] == s[j] {
      assert s == s[..i] + [s[i]] + s[i + 1..j] + [s[j]] + s[j + 1..];
    }
  }

  /** A list without repeats whose elements all occur in `s` is a
      sub-multiset of `s`. */
  lemma SubMultiset<T>(xs: seq<T>, s: seq<T>)
    requires Distinct(xs)
    requires forall i :: 0 <= i < |xs| ==> xs[i] in s
    ensures multiset(xs) <= multiset(s)
  {
    DistinctMultiset(xs);
    forall x | x in multiset(xs) ensures multiset(xs)[x] <= multiset(s)[x] {
      var i :| 0 <= i < |xs| && xs[i] == x;
    }
  }

  /** Filtering the same elements out of two permutations of each other
      leaves permutations of each other. */
  lemma WithoutSameMultiset<T(!new)>(a: seq<T>, b: seq<T>, xs: seq<T>)
    requires multiset(a) == multiset(b)
    ensures multiset(Without(a, xs)) == multiset(Without(b, xs))
  {
    WithoutCount(a, xs);
    WithoutCount(b, xs);
    var ma, mb := multiset(Without(a, xs)), multiset(Without(b, xs));
    forall x ensures ma[x] == mb[x] {
    }
  }
}
