// The stable sort the pages call with a numeric comparator
// (`(a, b) => key(a) - key(b)`), as an insertion sort on sequences.

module Sorting {
  import opened Common

  /** Ascending by key. */
  predicate SortedBy<T>(s: seq<T>, key: T -> int) {
    forall i, j :: 0 <= i < j < |s| ==> key(s[i]) <= key(s[j])
  }

  /** x placed before the first element whose key is not smaller. */
  function InsertBy<T>(x: T, s: seq<T>, key: T -> int): (r: seq<T>)
    ensures multiset(r) == multiset(s) + multiset{x}
    ensures SortedBy(s, key) ==> SortedBy(r, key)
  {
    if s == [] || key(x) <= key(s[0]) then
      assert SortedBy(s, key) ==> SortedBy([x] + s, key) by {
        if SortedBy(s, key) {
          LeadLeast(x, s, key);
          ConsSortedBy(x, s, key);
        }
      }
      [x] + s
    else
      var rest := InsertBy(x, s[1..], key);
      assert s == [s[0]] + s[1..];
      assert SortedBy(s, key) ==> SortedBy([s[0]] + rest, key) by {
        if SortedBy(s, key) {
          HeadLeast(s, key);
          forall y | y in rest ensures key(s[0]) <= key(y) {
            assert y in multiset(rest);
          }
          ConsSortedBy(s[0], rest, key);
        }
      }
      [s[0]] + rest
  }

  /** A key no larger than the head of an ascending list is no larger than any of it. */
  lemma LeadLeast<T>(x: T, s: seq<T>, key: T -> int)
    requires SortedBy(s, key) && (s == [] || key(x) <= key(s[0]))
    ensures forall y :: y in s ==> key(x) <= key(y)
  {
    forall y | y in s ensures key(x) <= key(y) {
      var j :| 0 <= j < |s| && s[j] == y;
      assert j == 0 || key(s[0]) <= key(s[j]);
    }
  }

  lemma HeadLeast<T>(s: seq<T>, key: T -> int)
    requires s != [] && SortedBy(s, key)
    ensures forall y :: y in multiset(s[1..]) ==> key(s[0]) <= key(y)
  {
    forall y | y in multiset(s[1..]) ensures key(s[0]) <= key(y) {
      var j :| 0 <= j < |s[1..]| && s[1..][j] == y;
      assert s[j + 1] == y;
    }
  }

  lemma ConsSortedBy<T>(h: T, rest: seq<T>, key: T -> int)
    requires SortedBy(rest, key) && forall y :: y in rest ==> key(h) <= key(y)
    ensures SortedBy([h] + rest, key)
  {
    forall i, j | 0 <= i < j < |[h] + rest| ensures key(([h] + rest)[i]) <= key(([h] + rest)[j]) {
      if i == 0 {
        assert rest[j - 1] in rest;
      }
    }
  }

  /** The elements of s reordered ascending by key. */
  function SortBy<T>(s: seq<T>, key: T -> int): (r: seq<T>)
    ensures multiset(r) == multiset(s)
    ensures SortedBy(r, key)
  {
    if s == [] then []
    else
      assert s == [s[0]] + s[1..];
      InsertBy(s[0], SortBy(s[1..], key), key)
  }

  /** The elements whose key is k. */
  function KeyIs<T>(key: T -> int, k: int): T -> bool {
    (y: T) => key(y) == k
  }

  /** Inserting x into an ascending list leaves every other key's elements
    * as they were and puts x first among those with its own key. */
  lemma {:induction false} InsertByStable<T(!new)>(x: T, t: seq<T>, key: T -> int, k: int)
    requires SortedBy(t, key)
    ensures Filter(InsertBy(x, t, key), KeyIs(key, k)) == (if key(x) == k then [x] else []) + Filter(t, KeyIs(key, k))
    decreases |t|
  {
    var p := KeyIs(key, k);
    if t == [] || key(x) <= key(t[0]) {
      FilterCons(x, t, p);
    } else {
      var rest := InsertBy(x, t[1..], key);
      assert InsertBy(x, t, key) == [t[0]] + rest;
      InsertByStable(x, t[1..], key, k);
      FilterCons(t[0], rest, p);
      assert t == [t[0]] + t[1..];
      FilterCons(t[0], t[1..], p);
      assert !(p(x) && p(t[0]));
      SwapSingles(if p(t[0]) then [t[0]] else [], if p(x) then [x] else [], Filter(t[1..], p));
    }
  }

  /** The sort is stable: the elements sharing any one key come out in their
    * input order. */
  lemma {:induction false} SortByStable<T(!new)>(s: seq<T>, key: T -> int, k: int)
    ensures Filter(SortBy(s, key), KeyIs(key, k)) == Filter(s, KeyIs(key, k))
    decreases |s|
  {
    if s != [] {
      var sorted := SortBy(s[1..], key);
      assert SortBy(s, key) == InsertBy(s[0], sorted, key);
      SortByStable(s[1..], key, k);
      InsertByStable(s[0], sorted, key, k);
    }
  }

  /** A permutation keeps the length and the set of elements. */
  lemma PermutationMembers<T>(r: seq<T>, s: seq<T>)
    requires multiset(r) == multiset(s)
    ensures |r| == |s|
    ensures forall x :: x in r <==> x in s
  {
    assert |r| == |multiset(r)| == |multiset(s)| == |s|;
    forall x ensures x in r <==> x in s {
      assert x in r <==> x in multiset(r);
      assert x in s <==> x in multiset(s);
    }
  }
}
