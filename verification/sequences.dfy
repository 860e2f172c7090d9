/** Sequence helpers shared by every listing: filtering (LINQ `Where`),
    duplicate-freedom, and the enumeration of an id-keyed table. */
module Sequences {

  /** No element occurs twice. */
  predicate Distinct<T(==)>(s: seq<T>)
  {
    forall i, j :: 0 <= i < j < |s| ==> s[i] != s[j]
  }

  /** LINQ `Where`: keeps, in order, the elements satisfying `p`. */
  function Filter<T(==,!new)>(p: T -> bool, s: seq<T>): (r: seq<T>)
    ensures |r| <= |s|
    ensures forall x :: x in r <==> x in s && p(x)
    ensures forall x :: multiset(r)[x] == if p(x) then multiset(s)[x] else 0
    ensures Distinct(s) ==> Distinct(r)
  {
    if s == [] then []
    else
      var rest := Filter(p, s[1..]);
      var r := if p(s[0]) then [s[0]] + rest else rest;
      FilterStep(p, s, rest, r);
      r
  }

  /** The step of `Filter`: what holds of the filtered tail `rest` carries
      over to `r`, the result for the whole of `s`. */
  lemma FilterStep<T(!new)>(p: T -> bool, s: seq<T>, rest: seq<T>, r: seq<T>)
    requires s != []
    requires |rest| <= |s| - 1
    requires forall x :: x in rest <==> x in s[1..] && p(x)
    requires forall x :: multiset(rest)[x] == if p(x) then multiset(s[1..])[x] else 0
    requires Distinct(s[1..]) ==> Distinct(rest)
    requires r == if p(s[0]) then [s[0]] + rest else rest
    ensures |r| <= |s|
    ensures forall x :: x in r <==> x in s && p(x)
    ensures forall x :: multiset(r)[x] == if p(x) then multiset(s)[x] else 0
    ensures Distinct(s) ==> Distinct(r)
  {
    assert s == [s[0]] + s[1..];
    assert multiset(s) == multiset{s[0]} + multiset(s[1..]);
    if Distinct(s) {
      assert Distinct(s[1..]) && s[0] !in s[1..];
      if p(s[0]) {
        ConsDistinct(s[0], rest);
      }
    }
  }

  /** Filtering two arrangements of one collection gives two arrangements
      of one collection. */
  lemma FilterSameMultiset<T(!new)>(p: T -> bool, a: seq<T>, b: seq<T>)
    requires multiset(a) == multiset(b)
    ensures multiset(Filter(p, a)) == multiset(Filter(p, b))
  {
    var fa := Filter(p, a);
    var fb := Filter(p, b);
    forall x ensures multiset(fa)[x] == multiset(fb)[x] {
    }
  }

  /** Putting a new element in front keeps a sequence duplicate-free. */
  lemma ConsDistinct<T>(x: T, s: seq<T>)
    requires Distinct(s) && x !in s
    ensures Distinct([x] + s)
  {
    var r := [x] + s;
    forall i, j | 0 <= i < j < |r| ensures r[i] != r[j] {
      assert r[j] == s[j - 1];
      if i > 0 {
        assert r[i] == s[i - 1];
      }
    }
  }

  /** A duplicate-free sequence has as many elements as the set of its
      elements. */
  lemma {:induction false} DistinctCard<T>(s: seq<T>)
    requires Distinct(s)
    ensures |set x | x in s| == |s|
  {
    if s != [] {
      var t := s[1..];
      assert Distinct(t);
      DistinctCard(t);
      assert s[0] !in t;
      assert (set x | x in s) == {s[0]} + (set x | x in t) by {
        assert s == [s[0]] + t;
      }
    }
  }

  /** A duplicate-free sequence listing exactly the members of `S` has
      `|S|` elements. */
  lemma DistinctListingCard<T>(s: seq<T>, S: set<T>)
    requires Distinct(s)
    requires forall x :: x in s <==> x in S
    ensures |s| == |S|
  {
    DistinctCard(s);
    assert (set x | x in s) == S;
  }

  /** `k` is the least member of `ks`. */
  predicate IsLeast(k: nat, ks: set<nat>)
  {
    k in ks && forall j :: j in ks ==> k <= j
  }

  /** Every non-empty finite set of naturals has a least element. */
  lemma {:induction false} MinExists(ks: set<nat>)
    requires ks != {}
    ensures exists k :: IsLeast(k, ks)
    decreases |ks|
  {
    var x :| x in ks;
    var rest := ks - {x};
    if rest != {} {
      assert |rest| < |ks|;
      MinExists(rest);
      var m :| IsLeast(m, rest);
      var least := if x < m then x else m;
      forall j | j in ks ensures least <= j {
        if j != x {
          assert j in rest;
        }
      }
      assert IsLeast(least, ks);
    } else {
      forall j | j in ks ensures x <= j {
        assert j !in rest;
      }
      assert IsLeast(x, ks);
    }
  }

  /** The least element of a non-empty set of naturals. */
  function MinOf(ks: set<nat>): (k: nat)
    requires ks != {}
    ensures k in ks && forall j :: j in ks ==> k <= j
  {
    MinExists(ks);
    var k :| IsLeast(k, ks);
    k
  }

  /** The members of `ks` listed in strictly increasing order. */
  function KeysAscending(ks: set<nat>): (r: seq<nat>)
    ensures |r| == |ks|
    ensures forall k :: k in r <==> k in ks
    ensures forall i, j :: 0 <= i < j < |r| ==> r[i] < r[j]
    decreases |ks|
  {
    if ks == {} then []
    else
      var k := MinOf(ks);
      var rest := KeysAscending(ks - {k});
      KeysStep(ks, k, rest);
      [k] + rest
  }

  /** The step of `KeysAscending`: the least key in front of the ascending
      listing of the other keys lists all keys in ascending order. */
  lemma KeysStep(ks: set<nat>, k: nat, rest: seq<nat>)
    requires IsLeast(k, ks)
    requires |rest| == |ks - {k}|
    requires forall x :: x in rest <==> x in ks - {k}
    requires forall i, j :: 0 <= i < j < |rest| ==> rest[i] < rest[j]
    ensures |[k] + rest| == |ks|
    ensures forall x :: x in [k] + rest <==> x in ks
    ensures forall i, j :: 0 <= i < j < |[k] + rest| ==> ([k] + rest)[i] < ([k] + rest)[j]
  {
    var r := [k] + rest;
    forall i, j | 0 <= i < j < |r| ensures r[i] < r[j] {
      assert r[j] == rest[j - 1] && r[j] in ks - {k};
      if i > 0 {
        assert r[i] == rest[i - 1];
      }
    }
  }

  /** The rows of an id-keyed table, enumerated in increasing key order.
      Which enumeration is used does not matter to the listings, because they
      sort the rows by a total order afterwards. */
  function Rows<T(==,!new)>(m: map<nat, T>): (r: seq<T>)
    ensures |r| == |m|
    ensures forall x :: x in r <==> x in m.Values
    ensures (forall a, b :: a in m && b in m && a != b ==> m[a] != m[b]) ==> Distinct(r)
  {
    var ks := KeysAscending(m.Keys);
    var r := ValuesAt(m, ks);
    RowsFacts(m, ks, r);
    r
  }

  /** The values stored under the keys `ks`, in the order of `ks`. */
  function ValuesAt<T>(m: map<nat, T>, ks: seq<nat>): (r: seq<T>)
    requires forall k :: k in ks ==> k in m
    ensures |r| == |ks|
    ensures forall i :: 0 <= i < |r| ==> r[i] == m[ks[i]]
  {
    if ks == [] then [] else [m[ks[0]]] + ValuesAt(m, ks[1..])
  }

  /** What `Rows` promises, from the ascending key listing `ks` and the
      values `r` read at those keys. */
  lemma RowsFacts<T(!new)>(m: map<nat, T>, ks: seq<nat>, r: seq<T>)
    requires |ks| == |m.Keys|
    requires forall k :: k in ks <==> k in m.Keys
    requires forall i, j :: 0 <= i < j < |ks| ==> ks[i] < ks[j]
    requires |r| == |ks|
    requires forall i :: 0 <= i < |r| ==> r[i] == m[ks[i]]
    ensures |r| == |m|
    ensures forall x :: x in r <==> x in m.Values
    ensures (forall a, b :: a in m && b in m && a != b ==> m[a] != m[b]) ==> Distinct(r)
  {
    assert |m.Keys| == |m|;
    forall x | x in m.Values ensures x in r {
      var k :| k in m && m[k] == x;
      var i :| 0 <= i < |ks| && ks[i] == k;
      assert r[i] == x;
    }
    forall x | x in r ensures x in m.Values {
      var i :| 0 <= i < |r| && r[i] == x;
      assert ks[i] in m;
    }
    if forall a, b :: a in m && b in m && a != b ==> m[a] != m[b] {
      forall i, j | 0 <= i < j < |r| ensures r[i] != r[j] {
        assert ks[i] < ks[j];
        assert ks[i] in m && ks[j] in m;
      }
    }
  }

  /** Two positions holding the same value make it occur at least twice. */
  lemma DuplicateCount<T>(s: seq<T>, i: int, j: int)
    requires 0 <= i < j < |s| && s[i] == s[j]
    ensures multiset(s)[s[i]] >= 2
  {
    assert s == s[..i] + [s[i]] + s[i + 1..j] + [s[j]] + s[j + 1..];
  }

  /** In a duplicate-free sequence every value occurs at most once. */
  lemma {:induction false} DistinctCount<T>(s: seq<T>, x: T)
    requires Distinct(s)
    ensures multiset(s)[x] <= 1
  {
    if s != [] {
      assert s == [s[0]] + s[1..];
      assert Distinct(s[1..]);
      DistinctCount(s[1..], x);
      if x == s[0] {
        assert x !in s[1..];
        assert multiset(s[1..])[x] == 0;
      }
    }
  }
}
