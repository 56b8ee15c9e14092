/**
 Sequence operations of the JavaScript library that the migrator relies on: a stable
 comparator sort, `map` followed by dropping the absent results, and `reduce` with a sum.
 The main result is that sorting what was collected does not depend on the order in which
 it was collected, provided the comparator tells the collected values apart.
*/
module Sequences {

  datatype Option<+T> = None | Some(value: T)

  /** The first `limit` members, or all: `slice(0, limit)`. */
  function Take<T>(s: seq<T>, limit: nat): seq<T> {
    if limit < |s| then s[..limit] else s
  }

  ghost predicate TotalPreorder<T(!new)>(atMost: (T, T) -> bool) {
    && (forall x, y :: atMost(x, y) || atMost(y, x))
    && (forall x, y, z :: atMost(x, y) && atMost(y, z) ==> atMost(x, z))
  }

  ghost predicate Sorted<T>(atMost: (T, T) -> bool, s: seq<T>) {
    forall i, j :: 0 <= i < j < |s| ==> atMost(s[i], s[j])
  }

  /** Two members that compare equal are equal. */
  ghost predicate Distinguishes<T>(atMost: (T, T) -> bool, s: seq<T>) {
    forall x, y :: x in s && y in s && atMost(x, y) && atMost(y, x) ==> x == y
  }

  function Insert<T>(atMost: (T, T) -> bool, x: T, s: seq<T>): seq<T> {
    if s == [] || atMost(x, s[0]) then [x] + s else [s[0]] + Insert(atMost, x, s[1..])
  }

  /** `Array.prototype.sort`: a stable sort by a comparator. */
  function Sort<T>(atMost: (T, T) -> bool, s: seq<T>): seq<T> {
    if s == [] then [] else Insert(atMost, s[0], Sort(atMost, s[1..]))
  }

  lemma {:induction false} InsertPermutes<T>(atMost: (T, T) -> bool, x: T, s: seq<T>)
    ensures multiset(Insert(atMost, x, s)) == multiset{x} + multiset(s)
  {
    if s == [] || atMost(x, s[0]) {
    } else {
      InsertPermutes(atMost, x, s[1..]);
      assert s == [s[0]] + s[1..];
    }
  }

  lemma {:induction false} InsertSorts<T(!new)>(atMost: (T, T) -> bool, x: T, s: seq<T>)
    requires TotalPreorder(atMost) && Sorted(atMost, s)
    ensures Sorted(atMost, Insert(atMost, x, s))
  {
    if s == [] {
    } else if atMost(x, s[0]) {
      forall k | 0 <= k < |s| ensures atMost(x, s[k]) {
        assert k == 0 || atMost(s[0], s[k]);
      }
    } else {
      InsertSorts(atMost, x, s[1..]);
      var r := Insert(atMost, x, s[1..]);
      forall k | 0 <= k < |r| ensures atMost(s[0], r[k]) {
        InsertMember(atMost, x, s[1..], r[k]);
        if r[k] != x {
          var j :| 0 <= j < |s[1..]| && s[1..][j] == r[k];
          assert s[j + 1] == r[k];
        }
      }
    }
  }

  lemma {:induction false} SortSorts<T(!new)>(atMost: (T, T) -> bool, s: seq<T>)
    requires TotalPreorder(atMost)
    ensures Sorted(atMost, Sort(atMost, s))
    ensures multiset(Sort(atMost, s)) == multiset(s)
    ensures |Sort(atMost, s)| == |s|
  {
    if s == [] {
    } else {
      SortSorts(atMost, s[1..]);
      InsertSorts(atMost, s[0], Sort(atMost, s[1..]));
      InsertPermutes(atMost, s[0], Sort(atMost, s[1..]));
      assert s == [s[0]] + s[1..];
    }
    assert |multiset(Sort(atMost, s))| == |multiset(s)|;
  }

  lemma SortedHead<T>(atMost: (T, T) -> bool, s: seq<T>, x: T)
    requires Sorted(atMost, s) && x in s
    ensures x == s[0] || atMost(s[0], x)
  {
    var i :| 0 <= i < |s| && s[i] == x;
    assert i == 0 || atMost(s[0], s[i]);
  }

  lemma TailMultiset<T>(s: seq<T>)
    requires s != []
    ensures multiset(s[1..]) == multiset(s) - multiset{s[0]}
  {
    assert s == [s[0]] + s[1..];
  }

  lemma {:induction false} SortedIsUnique<T>(atMost: (T, T) -> bool, s: seq<T>, t: seq<T>)
    requires Sorted(atMost, s) && Sorted(atMost, t) && multiset(s) == multiset(t)
    requires Distinguishes(atMost, s)
    ensures s == t
  {
    assert |multiset(s)| == |s| && |multiset(t)| == |t|;
    if s == [] {
    } else {
      assert s[0] == t[0] by {
        assert s[0] in multiset(t) && t[0] in multiset(s);
        SortedHead(atMost, s, t[0]);
        SortedHead(atMost, t, s[0]);
      }
      TailMultiset(s);
      TailMultiset(t);
      assert Distinguishes(atMost, s[1..]) by {
        assert forall x :: x in s[1..] ==> x in s;
      }
      SortedIsUnique(atMost, s[1..], t[1..]);
      assert s == [s[0]] + s[1..] && t == [t[0]] + t[1..];
    }
  }

  /** The sorted form of a collection does not depend on the order it was collected in. */
  lemma SortIsCanonical<T(!new)>(atMost: (T, T) -> bool, s: seq<T>, t: seq<T>)
    requires TotalPreorder(atMost) && multiset(s) == multiset(t) && Distinguishes(atMost, s)
    ensures Sort(atMost, s) == Sort(atMost, t)
  {
    SortSorts(atMost, s);
    SortSorts(atMost, t);
    forall x | x in Sort(atMost, s) ensures x in s {
      assert x in multiset(Sort(atMost, s));
    }
    SortedIsUnique(atMost, Sort(atMost, s), Sort(atMost, t));
  }

  /** Strictly ascending: no later element is at most an earlier one. */
  ghost predicate StrictlySorted<T>(atMost: (T, T) -> bool, s: seq<T>) {
    forall i, j :: 0 <= i < j < |s| ==> !atMost(s[j], s[i])
  }

  /** The comparator tells all positions apart. */
  ghost predicate Apart<T>(atMost: (T, T) -> bool, s: seq<T>) {
    forall i, j :: 0 <= i < j < |s| ==> !(atMost(s[i], s[j]) && atMost(s[j], s[i]))
  }

  lemma {:induction false} InsertStrict<T(!new)>(atMost: (T, T) -> bool, x: T, s: seq<T>)
    requires TotalPreorder(atMost) && StrictlySorted(atMost, s)
    requires forall y :: y in s ==> !(atMost(x, y) && atMost(y, x))
    ensures StrictlySorted(atMost, Insert(atMost, x, s))
  {
    if s == [] {
    } else if atMost(x, s[0]) {
      forall k | 0 <= k < |s| ensures !atMost(s[k], x) {
        assert k == 0 || !atMost(s[k], s[0]);
        assert atMost(s[0], s[k]) && s[k] in s;
      }
    } else {
      InsertStrict(atMost, x, s[1..]);
      var r := Insert(atMost, x, s[1..]);
      forall k | 0 <= k < |r| ensures !atMost(r[k], s[0]) {
        InsertMember(atMost, x, s[1..], r[k]);
        if r[k] != x {
          var j :| 0 <= j < |s[1..]| && s[1..][j] == r[k];
          assert s[j + 1] == r[k];
        }
      }
    }
  }

  lemma {:induction false} InsertMember<T>(atMost: (T, T) -> bool, x: T, s: seq<T>, y: T)
    ensures y in Insert(atMost, x, s) <==> y == x || y in s
  {
    if s == [] || atMost(x, s[0]) {
    } else {
      InsertMember(atMost, x, s[1..], y);
      assert s == [s[0]] + s[1..];
    }
  }

  lemma {:induction false} SortMember<T>(atMost: (T, T) -> bool, s: seq<T>, y: T)
    ensures y in Sort(atMost, s) <==> y in s
  {
    if s == [] {
    } else {
      SortMember(atMost, s[1..], y);
      InsertMember(atMost, s[0], Sort(atMost, s[1..]), y);
      assert s == [s[0]] + s[1..];
    }
  }

  lemma {:induction false} SortStrict<T(!new)>(atMost: (T, T) -> bool, s: seq<T>)
    requires TotalPreorder(atMost) && Apart(atMost, s)
    ensures StrictlySorted(atMost, Sort(atMost, s))
  {
    if s == [] {
    } else {
      SortStrict(atMost, s[1..]);
      forall y | y in Sort(atMost, s[1..]) ensures !(atMost(s[0], y) && atMost(y, s[0])) {
        SortMember(atMost, s[1..], y);
        var j :| 0 <= j < |s[1..]| && s[1..][j] == y;
        assert s[j + 1] == y;
      }
      InsertStrict(atMost, s[0], Sort(atMost, s[1..]));
    }
  }

  function Filter<T>(p: T -> bool, s: seq<T>): seq<T> {
    if s == [] then []
    else (if p(s[0]) then [s[0]] else []) + Filter(p, s[1..])
  }

  lemma FilterCons<T>(p: T -> bool, x: T, s: seq<T>)
    ensures Filter(p, [x] + s) == (if p(x) then [x] else []) + Filter(p, s)
  {
    assert ([x] + s)[1..] == s;
  }

  /** All members of the class compare equal. */
  ghost predicate TiedClass<T(!new)>(atMost: (T, T) -> bool, tied: T -> bool) {
    forall y, z :: tied(y) && tied(z) ==> atMost(y, z)
  }

  lemma {:induction false} InsertStable<T(!new)>(atMost: (T, T) -> bool, x: T, s: seq<T>, tied: T -> bool)
    requires TiedClass(atMost, tied)
    ensures Filter(tied, Insert(atMost, x, s)) == (if tied(x) then [x] else []) + Filter(tied, s)
  {
    if s == [] || atMost(x, s[0]) {
      FilterCons(tied, x, s);
    } else {
      var rest := Insert(atMost, x, s[1..]);
      InsertStable(atMost, x, s[1..], tied);
      FilterCons(tied, s[0], rest);
      if tied(x) {
        assert !tied(s[0]);
        assert [] + Filter(tied, rest) == Filter(tied, rest);
      } else {
        assert [] + Filter(tied, s[1..]) == Filter(tied, s[1..]);
      }
    }
  }

  /** Sorting is stable: members that compare equal keep their order. */
  lemma {:induction false} SortStable<T(!new)>(atMost: (T, T) -> bool, s: seq<T>, tied: T -> bool)
    requires TiedClass(atMost, tied)
    ensures Filter(tied, Sort(atMost, s)) == Filter(tied, s)
  {
    if s == [] {
    } else {
      SortStable(atMost, s[1..], tied);
      InsertStable(atMost, s[0], Sort(atMost, s[1..]), tied);
    }
  }

  /** Apply `f` in order and keep the results that are present. */
  function Collect<S, T>(f: S -> Option<T>, s: seq<S>): seq<T> {
    if s == [] then []
    else (match f(s[0]) case None => [] case Some(x) => [x]) + Collect(f, s[1..])
  }

  lemma {:induction false} CollectAppend<S, T>(f: S -> Option<T>, s: seq<S>, t: seq<S>)
    ensures Collect(f, s + t) == Collect(f, s) + Collect(f, t)
  {
    if s == [] {
      assert s + t == t;
    } else {
      assert (s + t)[1..] == s[1..] + t;
      CollectAppend(f, s[1..], t);
    }
  }

  lemma CollectOne<S, T>(f: S -> Option<T>, x: S)
    ensures Collect(f, [x]) == match f(x) case None => [] case Some(y) => [y]
  {
    assert [x][1..] == [];
    assert Collect(f, [x][1..]) == [];
  }

  /** `if (x) s.push(x)` */
  function Push<T>(s: seq<T>, x: Option<T>): seq<T> {
    match x case None => s case Some(y) => s + [y]
  }

  lemma CollectPush<S, T>(f: S -> Option<T>, s: seq<S>, x: S)
    ensures Collect(f, s + [x]) == Push(Collect(f, s), f(x))
  {
    CollectAppend(f, s, [x]);
    CollectOne(f, x);
  }

  lemma {:induction false} CollectMember<S, T>(f: S -> Option<T>, s: seq<S>, y: T)
    ensures y in Collect(f, s) <==> exists x :: x in s && f(x) == Some(y)
  {
    if s == [] {
    } else {
      CollectMember(f, s[1..], y);
      assert s == [s[0]] + s[1..];
      if exists x :: x in s && f(x) == Some(y) {
        var x :| x in s && f(x) == Some(y);
        assert x == s[0] || x in s[1..];
      }
    }
  }

  lemma {:induction false} CollectCongruent<S, T>(f: S -> Option<T>, g: S -> Option<T>, s: seq<S>)
    requires forall x :: x in s ==> f(x) == g(x)
    ensures Collect(f, s) == Collect(g, s)
  {
    if s == [] {
    } else {
      assert s[0] in s;
      CollectCongruent(f, g, s[1..]);
    }
  }

  /** If no result is absent, collecting is `map`. */
  lemma {:induction false} CollectTotal<S, T>(f: S -> Option<T>, s: seq<S>)
    requires forall x :: x in s ==> f(x).Some?
    ensures |Collect(f, s)| == |s|
    ensures forall i :: 0 <= i < |s| ==> f(s[i]) == Some(Collect(f, s)[i])
  {
    if s == [] {
    } else {
      CollectTotal(f, s[1..]);
      assert s[0] in s;
      assert forall i :: 1 <= i < |s| ==> s[i] == s[1..][i - 1];
    }
  }

  /** Filtering the results is filtering what they are the results of. */
  lemma {:induction false} FilterCollect<S, T>(f: S -> Option<T>, p: T -> bool, q: S -> bool, s: seq<S>)
    requires forall x :: x in s ==> f(x).Some? && p(f(x).value) == q(x)
    ensures Filter(p, Collect(f, s)) == Collect(f, Filter(q, s))
  {
    if s == [] {
    } else {
      assert s[0] in s;
      FilterCollect(f, p, q, s[1..]);
      FilterCons(p, f(s[0]).value, Collect(f, s[1..]));
      var kept := Filter(q, s[1..]);
      assert ([s[0]] + kept)[1..] == kept;
      assert [] + kept == kept && [] + Collect(f, kept) == Collect(f, kept);
    }
  }

  /** A member can be moved to the front without changing the multiset. */
  lemma SplitAt<S>(s: seq<S>, x: S) returns (l: seq<S>, r: seq<S>)
    requires x in s
    ensures s == l + [x] + r
    ensures multiset(l + r) == multiset(s) - multiset{x}
  {
    var i :| 0 <= i < |s| && s[i] == x;
    l, r := s[..i], s[i + 1..];
    assert s == l + [x] + r;
  }

  lemma {:induction false} CollectPermutation<S, T>(f: S -> Option<T>, s: seq<S>, t: seq<S>)
    requires multiset(s) == multiset(t)
    ensures multiset(Collect(f, s)) == multiset(Collect(f, t))
    decreases |s|
  {
    assert |multiset(s)| == |s| && |multiset(t)| == |t|;
    if s == [] {
      assert t == [];
    } else {
      assert s == [s[0]] + s[1..];
      assert s[0] in multiset(t);
      var l, r := SplitAt(t, s[0]);
      assert multiset(s[1..]) == multiset(s) - multiset{s[0]};
      CollectPermutation(f, s[1..], l + r);
      CollectAppend(f, l, r);
      CollectAppend(f, l + [s[0]], r);
      CollectAppend(f, l, [s[0]]);
      CollectOne(f, s[0]);
    }
  }

  /** `reduce` with addition. */
  function Sum<S>(f: S -> int, s: seq<S>): int {
    if s == [] then 0 else f(s[0]) + Sum(f, s[1..])
  }

  lemma {:induction false} SumAppend<S>(f: S -> int, s: seq<S>, t: seq<S>)
    ensures Sum(f, s + t) == Sum(f, s) + Sum(f, t)
  {
    if s == [] {
      assert s + t == t;
    } else {
      assert (s + t)[1..] == s[1..] + t;
      SumAppend(f, s[1..], t);
    }
  }

  lemma SumOne<S>(f: S -> int, x: S)
    ensures Sum(f, [x]) == f(x)
  {
    assert [x][1..] == [];
    assert Sum(f, [x][1..]) == 0;
  }

  lemma {:induction false} SumCongruent<S>(f: S -> int, g: S -> int, s: seq<S>)
    requires forall x :: f(x) == g(x)
    ensures Sum(f, s) == Sum(g, s)
  {
    if s == [] {
    } else {
      SumCongruent(f, g, s[1..]);
    }
  }

  lemma {:induction false} SumPermutation<S>(f: S -> int, s: seq<S>, t: seq<S>)
    requires multiset(s) == multiset(t)
    ensures Sum(f, s) == Sum(f, t)
    decreases |s|
  {
    assert |multiset(s)| == |s| && |multiset(t)| == |t|;
    if s == [] {
      assert t == [];
    } else {
      assert s == [s[0]] + s[1..];
      assert s[0] in multiset(t);
      var l, r := SplitAt(t, s[0]);
      assert multiset(s[1..]) == multiset(s) - multiset{s[0]};
      SumPermutation(f, s[1..], l + r);
      SumAppend(f, l, r);
      SumAppend(f, l + [s[0]], r);
      SumAppend(f, l, [s[0]]);
      SumOne(f, s[0]);
    }
  }

  /** Summing what was collected: absent results count for nothing. */
  lemma {:induction false} SumCollect<S, T>(f: S -> Option<T>, g: T -> int, h: S -> int, s: seq<S>)
    requires forall x :: x in s ==> h(x) == match f(x) case None => 0 case Some(y) => g(y)
    ensures Sum(g, Collect(f, s)) == Sum(h, s)
  {
    if s == [] {
    } else {
      assert s == [s[0]] + s[1..];
      SumCollect(f, g, h, s[1..]);
      match f(s[0])
      case None => assert [] + Collect(f, s[1..]) == Collect(f, s[1..]);
      case Some(y) => assert ([y] + Collect(f, s[1..]))[1..] == Collect(f, s[1..]);
    }
  }

  /** Collecting keeps what tells positions apart, if the results are told apart by it too. */
  lemma {:induction false} CollectApart<S, T>(
      f: S -> Option<T>, apart: (S, S) -> bool, atMost: (T, T) -> bool, s: seq<S>)
    requires forall i, j :: 0 <= i < j < |s| ==> apart(s[i], s[j])
    requires forall x, y :: x in s && y in s && apart(x, y) && f(x).Some? && f(y).Some? ==>
      !(atMost(f(x).value, f(y).value) && atMost(f(y).value, f(x).value))
    ensures Apart(atMost, Collect(f, s))
  {
    if s == [] {
    } else {
      CollectApart(f, apart, atMost, s[1..]);
      var rest := Collect(f, s[1..]);
      if f(s[0]).Some? {
        forall j | 0 <= j < |rest|
          ensures !(atMost(f(s[0]).value, rest[j]) && atMost(rest[j], f(s[0]).value)) {
          CollectMember(f, s[1..], rest[j]);
          var y :| y in s[1..] && f(y) == Some(rest[j]);
          var k :| 0 <= k < |s[1..]| && s[1..][k] == y;
          assert s[k + 1] == y && apart(s[0], s[k + 1]);
        }
      }
    }
  }
}
