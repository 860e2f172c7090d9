/** Ordering of listings (LINQ `OrderBy`/`ThenBy`), generic in the element
    type and in the strict order used. */
module Sorting {
  import opened Sequences

  ghost predicate Irreflexive<T(!new)>(lt: (T, T) -> bool)
  {
    forall x :: !lt(x, x)
  }

  ghost predicate Transitive<T(!new)>(lt: (T, T) -> bool)
  {
    forall x, y, z :: lt(x, y) && lt(y, z) ==> lt(x, z)
  }

  /** `lt` is a strict partial order on all of `T`. */
  ghost predicate StrictOrder<T(!new)>(lt: (T, T) -> bool)
  {
    Irreflexive(lt) && Transitive(lt)
  }

  /** Any two different elements of `s` are ordered by `lt`. */
  ghost predicate TotalOn<T>(lt: (T, T) -> bool, s: seq<T>)
  {
    forall x, y :: x in s && y in s && x != y ==> lt(x, y) || lt(y, x)
  }

  /** Strictly increasing under `lt`. */
  predicate SortedBy<T(==)>(lt: (T, T) -> bool, s: seq<T>)
  {
    forall i, j :: 0 <= i < j < |s| ==> lt(s[i], s[j])
  }

  /** Inserts `x` in front of the first element it does not follow. */
  function Insert<T(==)>(lt: (T, T) -> bool, x: T, s: seq<T>): (r: seq<T>)
    ensures multiset(r) == multiset(s) + multiset{x}
  {
    if s == [] then [x]
    else if lt(s[0], x) then
      assert s == [s[0]] + s[1..];
      [s[0]] + Insert(lt, x, s[1..])
    else [x] + s
  }

  /** Insertion sort: a permutation of `s` ordered by `lt`. */
  function Sort<T(==)>(lt: (T, T) -> bool, s: seq<T>): (r: seq<T>)
    ensures multiset(r) == multiset(s)
  {
    if s == [] then []
    else
      assert s == [s[0]] + s[1..];
      Insert(lt, s[0], Sort(lt, s[1..]))
  }

  /** Putting in front of an increasing sequence an element that precedes
      all of it keeps the sequence increasing. */
  lemma ConsSorted<T>(lt: (T, T) -> bool, h: T, t: seq<T>)
    requires SortedBy(lt, t)
    requires forall y :: y in t ==> lt(h, y)
    ensures SortedBy(lt, [h] + t)
  {
    var r := [h] + t;
    forall i, j | 0 <= i < j < |r| ensures lt(r[i], r[j]) {
      assert r[j] == t[j - 1];
      if i > 0 {
        assert r[i] == t[i - 1];
      }
    }
  }

  /** The tail of an increasing sequence is increasing. */
  lemma TailSorted<T>(lt: (T, T) -> bool, s: seq<T>)
    requires s != [] && SortedBy(lt, s)
    ensures SortedBy(lt, s[1..])
  {
    forall i, j | 0 <= i < j < |s| - 1 ensures lt(s[1..][i], s[1..][j]) {
      assert s[1..][i] == s[i + 1] && s[1..][j] == s[j + 1];
    }
  }

  lemma {:induction false} InsertSorted<T(!new)>(lt: (T, T) -> bool, x: T, s: seq<T>)
    requires Transitive(lt)
    requires SortedBy(lt, s)
    requires forall y :: y in s ==> lt(x, y) || lt(y, x)
    requires x !in s
    ensures SortedBy(lt, Insert(lt, x, s))
  {
    if s != [] {
      var t := s[1..];
      if lt(s[0], x) {
        TailSorted(lt, s);
        assert forall y :: y in t ==> y in s;
        InsertSorted(lt, x, t);
        var it := Insert(lt, x, t);
        forall y | y in it ensures lt(s[0], y) {
          assert y in multiset(it);
          if y != x {
            var k :| 0 <= k < |t| && t[k] == y;
            assert s[k + 1] == y;
          }
        }
        ConsSorted(lt, s[0], it);
      } else {
        assert lt(x, s[0]) by {
          assert s[0] in s;
        }
        forall y | y in s ensures lt(x, y) {
          var k :| 0 <= k < |s| && s[k] == y;
          if k > 0 {
            assert lt(s[0], s[k]);
          }
        }
        ConsSorted(lt, x, s);
      }
    }
  }

  /** Sorting a duplicate-free sequence whose elements are pairwise ordered
      yields a strictly increasing sequence. */
  lemma {:induction false} SortSorted<T(!new)>(lt: (T, T) -> bool, s: seq<T>)
    requires Transitive(lt)
    requires TotalOn(lt, s)
    requires Distinct(s)
    ensures SortedBy(lt, Sort(lt, s))
  {
    if s != [] {
      var t := s[1..];
      assert s == [s[0]] + t;
      assert TotalOn(lt, t) && Distinct(t);
      SortSorted(lt, t);
      var st := Sort(lt, t);
      assert s[0] !in t;
      forall y | y in st ensures lt(s[0], y) || lt(y, s[0]) {
        assert y in multiset(st);
        assert y in t;
      }
      assert s[0] !in multiset(t);
      InsertSorted(lt, s[0], st);
    }
  }

  /** A strictly increasing sequence has no duplicates. */
  lemma SortedDistinct<T(!new)>(lt: (T, T) -> bool, s: seq<T>)
    requires Irreflexive(lt)
    requires SortedBy(lt, s)
    ensures Distinct(s)
  {
    forall i, j | 0 <= i < j < |s| ensures s[i] != s[j] {
      assert lt(s[i], s[j]);
    }
  }

  /** The first element of an increasing sequence precedes every other one. */
  lemma HeadLeast<T>(lt: (T, T) -> bool, a: seq<T>, x: T)
    requires SortedBy(lt, a)
    requires x in multiset(a)
    ensures x == a[0] || lt(a[0], x)
  {
    var k :| 0 <= k < |a| && a[k] == x;
    if k > 0 {
      assert lt(a[0], a[k]);
    }
  }

  /** Under a strict order there is only one increasing arrangement of a
      given collection: the order of a listing depends on its contents alone,
      never on the order the rows were read in. */
  lemma {:induction false} SortedUnique<T(!new)>(lt: (T, T) -> bool, a: seq<T>, b: seq<T>)
    requires StrictOrder(lt)
    requires SortedBy(lt, a) && SortedBy(lt, b)
    requires multiset(a) == multiset(b)
    ensures a == b
  {
    if a != [] {
      assert |b| == |multiset(b)| == |multiset(a)| == |a|;
      SameHead(lt, a, b);
      SameTail(a, b);
      TailSorted(lt, a);
      TailSorted(lt, b);
      SortedUnique(lt, a[1..], b[1..]);
      assert a == [a[0]] + a[1..] && b == [b[0]] + b[1..];
    }
  }

  /** Two increasing arrangements of one collection start alike. */
  lemma SameHead<T(!new)>(lt: (T, T) -> bool, a: seq<T>, b: seq<T>)
    requires StrictOrder(lt)
    requires a != [] && b != []
    requires SortedBy(lt, a) && SortedBy(lt, b)
    requires multiset(a) == multiset(b)
    ensures a[0] == b[0]
  {
    assert a[0] in multiset(b) && b[0] in multiset(a);
    HeadLeast(lt, b, a[0]);
    HeadLeast(lt, a, b[0]);
  }

  /** Removing the same head from two arrangements of one collection leaves
      arrangements of one collection. */
  lemma SameTail<T>(a: seq<T>, b: seq<T>)
    requires a != [] && b != [] && a[0] == b[0]
    requires multiset(a) == multiset(b)
    ensures multiset(a[1..]) == multiset(b[1..])
  {
    assert a == [a[0]] + a[1..] && b == [b[0]] + b[1..];
    assert multiset(a[1..]) == multiset(a) - multiset{a[0]};
    assert multiset(b[1..]) == multiset(b) - multiset{b[0]};
  }

  /** Sorting two arrangements of the same duplicate-free collection gives
      the same sequence. */
  lemma SortCanonical<T(!new)>(lt: (T, T) -> bool, a: seq<T>, b: seq<T>)
    requires StrictOrder(lt)
    requires TotalOn(lt, a) && Distinct(a)
    requires multiset(a) == multiset(b)
    ensures Sort(lt, a) == Sort(lt, b)
  {
    SortSorted(lt, a);
    assert TotalOn(lt, b) by {
      forall x, y | x in b && y in b && x != y ensures lt(x, y) || lt(y, x) {
        assert x in multiset(a) && y in multiset(a);
      }
    }
    assert Distinct(b) by {
      forall i, j | 0 <= i < j < |b| ensures b[i] != b[j] {
        if b[i] == b[j] {
          DuplicateCount(b, i, j);
          assert multiset(a)[b[i]] >= 2;
          DistinctCount(a, b[i]);
        }
      }
    }
    SortSorted(lt, b);
    SortedUnique(lt, Sort(lt, a), Sort(lt, b));
  }

  /** Sorting keeps exactly the elements it was given. */
  lemma SortSameElements<T>(lt: (T, T) -> bool, s: seq<T>)
    ensures forall x :: x in Sort(lt, s) <==> x in s
  {
    var r := Sort(lt, s);
    forall x ensures x in r <==> x in s {
      assert x in r <==> x in multiset(r);
      assert x in s <==> x in multiset(s);
    }
  }
}
