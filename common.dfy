// String and collection helpers shared by every page of the model: the
// JavaScript string methods the pages call (trim, toLowerCase, includes,
// startsWith, endsWith, split('@')[0], replace of the first match) written
// out over seq<char>.

module Common {

  datatype Option<T> = None | Some(value: T)

  /** Characters removed by String.prototype.trim: white space and line terminators. */
  predicate IsWhitespace(c: char) {
    c == ' ' || c == '\t' || c == '\n' || c == '\r' || c == '\U{000B}' || c == '\U{000C}'
    || c == '\U{00A0}' || c == '\U{1680}' || ('\U{2000}' <= c <= '\U{200A}')
    || c == '\U{2028}' || c == '\U{2029}' || c == '\U{202F}' || c == '\U{205F}'
    || c == '\U{3000}' || c == '\U{FEFF}'
  }

  /** Characters a regular-expression `.` does not match. */
  predicate IsLineTerminator(c: char) {
    c == '\n' || c == '\r' || c == '\U{2028}' || c == '\U{2029}'
  }

  predicate AllWhitespace(s: string) {
    forall i :: 0 <= i < |s| ==> IsWhitespace(s[i])
  }

  /** s with its leading white space removed. */
  function TrimStart(s: string): (r: string)
    ensures |r| <= |s| && r == s[|s| - |r|..]
    ensures AllWhitespace(s[..|s| - |r|])
    ensures r == [] || !IsWhitespace(r[0])
  {
    if s != [] && IsWhitespace(s[0]) then TrimStart(s[1..]) else s
  }

  /** s with its trailing white space removed. */
  function TrimEnd(s: string): (r: string)
    ensures |r| <= |s| && r == s[..|r|]
    ensures AllWhitespace(s[|r|..])
    ensures r == [] || !IsWhitespace(r[|r| - 1])
  {
    if s != [] && IsWhitespace(s[|s| - 1]) then TrimEnd(s[..|s| - 1]) else s
  }

  /** String.prototype.trim. */
  function Trim(s: string): string {
    TrimEnd(TrimStart(s))
  }

  /** `!s.trim()` in the source: the string is empty or white space only. */
  predicate IsBlank(s: string) {
    AllWhitespace(s)
  }

  /** Blank is what `!s.trim()` tests: trimming leaves nothing exactly when
    * every character is white space. */
  lemma BlankIffAllWhitespace(s: string)
    ensures Trim(s) == [] <==> IsBlank(s)
  {
    var t := TrimStart(s);
    if !AllWhitespace(s) {
      var i :| 0 <= i < |s| && !IsWhitespace(s[i]);
      assert s[i] == t[i - (|s| - |t|)];
    }
  }

  /** trim removes white space at both ends only: the result is a slice of s
    * with white space on either side and none at its own ends. */
  lemma TrimShape(s: string) returns (i: nat, j: nat)
    ensures i <= j <= |s| && Trim(s) == s[i..j]
    ensures AllWhitespace(s[..i]) && AllWhitespace(s[j..])
    ensures Trim(s) == [] || (!IsWhitespace(Trim(s)[0]) && !IsWhitespace(Trim(s)[|Trim(s)| - 1]))
  {
    var t := TrimStart(s);
    var r := TrimEnd(t);
    i := |s| - |t|;
    j := i + |r|;
    assert r == t[..|r|] && t == s[i..];
    SliceOfSlice(s, i, j);
    assert r != [] ==> r[0] == t[0];
  }

  lemma SliceOfSlice<T>(s: seq<T>, i: int, j: int)
    requires 0 <= i <= j <= |s|
    ensures s[i..][..j - i] == s[i..j] && s[i..][j - i..] == s[j..]
  {
  }

  predicate IsAsciiUpper(c: char) { 'A' <= c <= 'Z' }
  predicate IsAsciiLower(c: char) { 'a' <= c <= 'z' }
  predicate IsAsciiDigit(c: char) { '0' <= c <= '9' }

  function LowerChar(c: char): char {
    if IsAsciiUpper(c) then (c as int + 32) as char else c
  }

  function UpperChar(c: char): char {
    if IsAsciiLower(c) then (c as int - 32) as char else c
  }

  /** String.prototype.toLowerCase, over the ASCII letters. */
  function ToLower(s: string): (r: string)
    ensures |r| == |s|
  {
    seq(|s|, i requires 0 <= i < |s| => LowerChar(s[i]))
  }

  predicate StartsWith(s: string, p: string) {
    |p| <= |s| && s[..|p|] == p
  }

  predicate EndsWith(s: string, p: string) {
    |p| <= |s| && s[|s| - |p|..] == p
  }

  /** String.prototype.includes: t occurs in s at some position. */
  predicate Contains(s: string, t: string)
    decreases |s|
  {
    StartsWith(s, t) || (s != [] && Contains(s[1..], t))
  }

  /** `s.split(c)[0]`: the text before the first c, or all of s when there is none. */
  function BeforeFirst(s: string, c: char): (r: string)
    ensures |r| <= |s| && r == s[..|r|]
    ensures c !in r
    ensures |r| < |s| ==> s[|r|] == c
  {
    if s == [] || s[0] == c then [] else [s[0]] + BeforeFirst(s[1..], c)
  }

  /** `s.replace(c, "")` with a string pattern: only the first c is removed. */
  function RemoveFirst(s: string, c: char): (r: string)
    ensures c in s ==> |r| == |s| - 1
    ensures c !in s ==> r == s
    ensures c in s ==> r == BeforeFirst(s, c) + s[|BeforeFirst(s, c)| + 1..]
  {
    if s == [] then []
    else if s[0] == c then s[1..]
    else
      var t := s[1..];
      var rest := RemoveFirst(t, c);
      assert s == [s[0]] + t;
      assert c in s ==> c in t;
      if c !in t then [s[0]] + rest
      else
        var b := BeforeFirst(t, c);
        assert BeforeFirst(s, c) == [s[0]] + b;
        assert t[|b| + 1..] == s[|b| + 2..];
        ConcatAssoc([s[0]], b, t[|b| + 1..]);
        [s[0]] + rest
  }

  lemma ConcatAssoc<T>(x: seq<T>, y: seq<T>, z: seq<T>)
    ensures x + (y + z) == (x + y) + z
  {
  }

  /** Array.prototype.filter with a predicate on elements, keeping order. */
  function Filter<T(!new)>(s: seq<T>, p: T -> bool): (r: seq<T>)
    ensures |r| <= |s|
    ensures forall x :: x in r <==> x in s && p(x)
  {
    if s == [] then [] else (if p(s[0]) then [s[0]] else []) + Filter(s[1..], p)
  }

  /** r is s with some elements dropped and the rest kept in order. */
  predicate Subsequence<T(==)>(r: seq<T>, s: seq<T>)
    decreases |s|
  {
    r == [] || (s != [] && ((r[0] == s[0] && Subsequence(r[1..], s[1..])) || Subsequence(r, s[1..])))
  }

  /** filter keeps the order of what it keeps. */
  lemma {:induction false} FilterKeepsOrder<T(!new)>(s: seq<T>, p: T -> bool)
    ensures Subsequence(Filter(s, p), s)
    decreases |s|
  {
    if s != [] {
      FilterKeepsOrder(s[1..], p);
      var r := Filter(s, p);
      if p(s[0]) {
        assert r[0] == s[0] && r[1..] == Filter(s[1..], p);
      } else {
        assert r == Filter(s[1..], p);
      }
    }
  }

  /** Two lists of which one is empty can be swapped in front of a third. */
  lemma SwapSingles<T>(a: seq<T>, b: seq<T>, f: seq<T>)
    requires a == [] || b == []
    ensures a + (b + f) == b + (a + f)
  {
  }

  /** filter on a list with a known first element. */
  lemma FilterCons<T(!new)>(x: T, t: seq<T>, p: T -> bool)
    ensures Filter([x] + t, p) == (if p(x) then [x] else []) + Filter(t, p)
  {
    assert ([x] + t)[1..] == t;
  }

  /** The first kept element is the earliest element the predicate accepts. */
  lemma {:induction false} FilterFirst<T(!new)>(s: seq<T>, p: T -> bool) returns (k: nat)
    requires Filter(s, p) != []
    ensures k < |s| && Filter(s, p)[0] == s[k] && p(s[k])
    ensures forall j :: 0 <= j < k ==> !p(s[j])
    decreases |s|
  {
    if p(s[0]) {
      k := 0;
    } else {
      assert Filter(s, p) == Filter(s[1..], p);
      var k1 := FilterFirst(s[1..], p);
      k := k1 + 1;
      assert s[k] == s[1..][k1];
      assert forall j :: 1 <= j < k ==> s[j] == s[1..][j - 1];
    }
  }

  /** r is what `s.filter(p)` returns: every element of s that passes p, as
    * often as it occurs in s, in the order of s, and nothing else. */
  ghost predicate FilteredFrom<T(!new)>(r: seq<T>, s: seq<T>, p: T -> bool) {
    Subsequence(r, s) && forall x :: multiset(r)[x] == if p(x) then multiset(s)[x] else 0
  }

  lemma FilterIsFiltered<T(!new)>(s: seq<T>, p: T -> bool)
    ensures FilteredFrom(Filter(s, p), s, p)
  {
    FilterKeepsOrder(s, p);
    FilterCounts(s, p);
  }

  /** filter keeps every passing element as often as s holds it. */
  lemma {:induction false} FilterCounts<T(!new)>(s: seq<T>, p: T -> bool)
    ensures forall x :: multiset(Filter(s, p))[x] == if p(x) then multiset(s)[x] else 0
    decreases |s|
  {
    if s != [] {
      FilterCounts(s[1..], p);
      assert s == [s[0]] + s[1..];
    }
  }

  /** A subsequence takes no element more often than s holds it. */
  lemma {:induction false} SubsequenceMultiset<T>(r: seq<T>, s: seq<T>)
    requires Subsequence(r, s)
    ensures multiset(r) <= multiset(s)
    decreases |s|
  {
    if r != [] {
      assert s == [s[0]] + s[1..];
      if r[0] == s[0] && Subsequence(r[1..], s[1..]) {
        SubsequenceMultiset(r[1..], s[1..]);
        assert r == [r[0]] + r[1..];
      } else {
        SubsequenceMultiset(r, s[1..]);
      }
    }
  }

  /** FilteredFrom pins its sequence down: two results of the same filter
    * are equal, so any sequence it describes is `Filter(s, p)` itself. */
  lemma {:induction false} FilteredFromUnique<T(!new)>(r1: seq<T>, r2: seq<T>, s: seq<T>, p: T -> bool)
    requires FilteredFrom(r1, s, p) && FilteredFrom(r2, s, p)
    ensures r1 == r2
    decreases |s|
  {
    if s == [] {
    } else {
      var x := s[0];
      assert s == [x] + s[1..];
      var tail1 := FilteredTail(r1, s, p);
      var tail2 := FilteredTail(r2, s, p);
      FilteredFromUnique(tail1, tail2, s[1..], p);
    }
  }

  /** Peels the first element of s off a filter result: what remains is the
    * filter of the rest, and the head was kept exactly when it passes p. */
  lemma FilteredTail<T(!new)>(r: seq<T>, s: seq<T>, p: T -> bool) returns (tail: seq<T>)
    requires s != [] && FilteredFrom(r, s, p)
    ensures FilteredFrom(tail, s[1..], p)
    ensures p(s[0]) ==> r == [s[0]] + tail
    ensures !p(s[0]) ==> r == tail
  {
    var x := s[0];
    assert s == [x] + s[1..];
    if p(x) {
      assert multiset(r)[x] >= 1;
      assert |multiset(r)| > 0;
      if !(r[0] == x && Subsequence(r[1..], s[1..])) {
        SubsequenceMultiset(r, s[1..]);
        assert false;
      }
      tail := r[1..];
      assert r == [x] + tail;
      assert forall y :: multiset(tail)[y] == multiset(r)[y] - (if y == x then 1 else 0);
    } else {
      if r != [] {
        assert r[0] in multiset(r);
        assert r[0] != x;
      }
      tail := r;
      assert r == [] || Subsequence(r, s[1..]);
      forall y | p(y) ensures multiset(tail)[y] == multiset(s[1..])[y] {
        assert y != x;
      }
    }
  }

  /** A filter every element passes keeps the whole sequence. */
  lemma {:induction false} FilterAll<T(!new)>(s: seq<T>, p: T -> bool)
    requires forall x :: x in s ==> p(x)
    ensures Filter(s, p) == s
    decreases |s|
  {
    if s != [] {
      assert s[0] in s;
      assert forall x :: x in s[1..] ==> x in s;
      FilterAll(s[1..], p);
    }
  }

  /** s with every occurrence of x removed (`s.filter(y => y !== x)`). */
  function Without<T(==,!new)>(s: seq<T>, x: T): (r: seq<T>)
    ensures |r| <= |s|
    ensures forall y :: y in r <==> y in s && y != x
    ensures x !in s ==> r == s
    ensures FilteredFrom(r, s, (y: T) => y != x)
  {
    if s == [] then []
    else
      var rest := Without(s[1..], x);
      assert s == [s[0]] + s[1..];
      if s[0] == x then rest
      else
        var r := [s[0]] + rest;
        assert r[0] == s[0] && r[1..] == rest;
        r
  }

  /** `s.filter((_, i) => i !== k)`. */
  function RemoveAt<T>(s: seq<T>, k: int): (r: seq<T>)
    ensures 0 <= k < |s| ==> r == s[..k] + s[k + 1..]
    ensures !(0 <= k < |s|) ==> r == s
  {
    if 0 <= k < |s| then s[..k] + s[k + 1..] else s
  }
}
