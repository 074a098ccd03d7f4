// The inline formatter shared by chat bubbles, group chat and the feed
// (parseMarkdownToHTML): escape the five HTML-significant characters, then
// turn `**x**`, `*x*` and `__x__` into <strong>, <em> and <u>, each as one
// global pass of a lazy, line-bounded pair match. The feed variant then links
// `#word` runs.

module InlineFormat {
  import opened Common

  // ---------------------------------------------------------------- escaping

  /** The entity that replaces one character; other characters stand for themselves. */
  function Entity(c: char): string {
    if c == '&' then "&amp;"
    else if c == '<' then "&lt;"
    else if c == '>' then "&gt;"
    else if c == '"' then "&quot;"
    else if c == '\'' then "&#039;"
    else [c]
  }

  /** Reference definition of escaping: every character replaced by its entity, once. */
  function EscapeEach(s: string): string {
    if s == [] then [] else Entity(s[0]) + EscapeEach(s[1..])
  }

  /** `s.replace(/c/g, r)` for a single-character pattern. */
  function ReplaceChar(s: string, c: char, r: string): string {
    if s == [] then [] else (if s[0] == c then r else [s[0]]) + ReplaceChar(s[1..], c, r)
  }

  /** The escaping chain as written: five global replaces, `&` first. */
  function EscapeChain(s: string): string {
    ReplaceChar(ReplaceChar(ReplaceChar(ReplaceChar(ReplaceChar(
      s, '&', "&amp;"), '<', "&lt;"), '>', "&gt;"), '"', "&quot;"), '\'', "&#039;")
  }

  lemma {:induction false} ReplaceCharConcat(a: string, b: string, c: char, r: string)
    ensures ReplaceChar(a + b, c, r) == ReplaceChar(a, c, r) + ReplaceChar(b, c, r)
  {
    if a == [] {
      assert a + b == b;
    } else {
      var h := if a[0] == c then r else [a[0]];
      ReplaceCharStep(a + b, c, r, h, a[1..] + b);
      ReplaceCharStep(a, c, r, h, a[1..]);
      ReplaceCharConcat(a[1..], b, c, r);
      ConcatAssoc(h, ReplaceChar(a[1..], c, r), ReplaceChar(b, c, r));
    }
  }

  /** One step of the replace, once the replaced first character and the rest are known. */
  lemma ReplaceCharStep(t: string, c: char, r: string, h: string, rest: string)
    requires t != [] && h == (if t[0] == c then r else [t[0]]) && t[1..] == rest
    ensures ReplaceChar(t, c, r) == h + ReplaceChar(rest, c, r)
  {
  }

  lemma {:induction false} ReplaceCharAbsent(s: string, c: char, r: string)
    requires c !in s
    ensures ReplaceChar(s, c, r) == s
  {
    if s != [] {
      ReplaceCharAbsent(s[1..], c, r);
    }
  }

  lemma EscapeChainConcat(a: string, b: string)
    ensures EscapeChain(a + b) == EscapeChain(a) + EscapeChain(b)
  {
    var a1, b1 := ReplaceChar(a, '&', "&amp;"), ReplaceChar(b, '&', "&amp;");
    ReplaceCharConcat(a, b, '&', "&amp;");
    var a2, b2 := ReplaceChar(a1, '<', "&lt;"), ReplaceChar(b1, '<', "&lt;");
    ReplaceCharConcat(a1, b1, '<', "&lt;");
    var a3, b3 := ReplaceChar(a2, '>', "&gt;"), ReplaceChar(b2, '>', "&gt;");
    ReplaceCharConcat(a2, b2, '>', "&gt;");
    var a4, b4 := ReplaceChar(a3, '"', "&quot;"), ReplaceChar(b3, '"', "&quot;");
    ReplaceCharConcat(a3, b3, '"', "&quot;");
    ReplaceCharConcat(a4, b4, '\'', "&#039;");
  }

  lemma ReplaceCharSingle(c: char, d: char, r: string)
    ensures ReplaceChar([c], d, r) == if c == d then r else [c]
  {
    assert [c][1..] == [];
  }

  /** The remaining replaces of the chain leave an entity that contains none of their characters. */
  lemma ChainTail(e: string, from: int)
    requires 1 <= from <= 4
    requires from <= 1 ==> '<' !in e
    requires from <= 2 ==> '>' !in e
    requires from <= 3 ==> '"' !in e
    requires '\'' !in e
    ensures from == 1 ==> ReplaceChar(ReplaceChar(ReplaceChar(ReplaceChar(e, '<', "&lt;"), '>', "&gt;"), '"', "&quot;"), '\'', "&#039;") == e
    ensures from == 2 ==> ReplaceChar(ReplaceChar(ReplaceChar(e, '>', "&gt;"), '"', "&quot;"), '\'', "&#039;") == e
    ensures from == 3 ==> ReplaceChar(ReplaceChar(e, '"', "&quot;"), '\'', "&#039;") == e
    ensures from == 4 ==> ReplaceChar(e, '\'', "&#039;") == e
  {
    if from <= 1 { ReplaceCharAbsent(e, '<', "&lt;"); }
    if from <= 2 { ReplaceCharAbsent(e, '>', "&gt;"); }
    if from <= 3 { ReplaceCharAbsent(e, '"', "&quot;"); }
    ReplaceCharAbsent(e, '\'', "&#039;");
  }

  /** On one character the chain produces exactly that character's entity. */
  lemma EscapeChainChar(c: char)
    ensures EscapeChain([c]) == Entity(c)
  {
    var s1 := ReplaceChar([c], '&', "&amp;");
    ReplaceCharSingle(c, '&', "&amp;");
    if c == '&' {
      ChainTail("&amp;", 1);
      return;
    }
    var s2 := ReplaceChar(s1, '<', "&lt;");
    ReplaceCharSingle(c, '<', "&lt;");
    if c == '<' {
      ChainTail("&lt;", 2);
      return;
    }
    var s3 := ReplaceChar(s2, '>', "&gt;");
    ReplaceCharSingle(c, '>', "&gt;");
    if c == '>' {
      ChainTail("&gt;", 3);
      return;
    }
    ReplaceCharSingle(c, '"', "&quot;");
    if c == '"' {
      ChainTail("&quot;", 4);
      return;
    }
    ReplaceCharSingle(c, '\'', "&#039;");
  }

  /** Because `&` is replaced first and no later entity contains `<`, `>`, `"` or `'`,
      the chain escapes each character exactly once: no entity is escaped twice. */
  lemma {:induction false} EscapeChainIsEntityWise(s: string)
    ensures EscapeChain(s) == EscapeEach(s)
  {
    if s != [] {
      assert s == [s[0]] + s[1..];
      EscapeChainConcat([s[0]], s[1..]);
      EscapeChainChar(s[0]);
      EscapeChainIsEntityWise(s[1..]);
    }
  }

  /** Decoding of the five entities, the inverse of escaping. */
  function Unescape(t: string): string
    decreases |t|
  {
    if t == [] then []
    else if StartsWith(t, "&amp;") then "&" + Unescape(t[5..])
    else if StartsWith(t, "&lt;") then "<" + Unescape(t[4..])
    else if StartsWith(t, "&gt;") then ">" + Unescape(t[4..])
    else if StartsWith(t, "&quot;") then "\"" + Unescape(t[6..])
    else if StartsWith(t, "&#039;") then "'" + Unescape(t[6..])
    else [t[0]] + Unescape(t[1..])
  }

  lemma UnescapeEntity(c: char, rest: string)
    ensures Unescape(Entity(c) + rest) == [c] + Unescape(rest)
  {
    var e := Entity(c);
    var t := e + rest;
    assert t[..|e|] == e && t[|e|..] == rest;
    if c == '&' {
      assert StartsWith(t, "&amp;");
    } else if c == '<' {
      assert !StartsWith(t, "&amp;") by { assert t[1] == 'l'; }
      assert StartsWith(t, "&lt;");
    } else if c == '>' {
      assert !StartsWith(t, "&amp;") by { assert t[1] == 'g'; }
      assert !StartsWith(t, "&lt;") by { assert t[1] == 'g'; }
      assert StartsWith(t, "&gt;");
    } else if c == '"' {
      assert !StartsWith(t, "&amp;") && !StartsWith(t, "&lt;") && !StartsWith(t, "&gt;") by { assert t[1] == 'q'; }
      assert StartsWith(t, "&quot;");
    } else if c == '\'' {
      assert !StartsWith(t, "&amp;") && !StartsWith(t, "&lt;") && !StartsWith(t, "&gt;") && !StartsWith(t, "&quot;") by { assert t[1] == '#'; }
      assert StartsWith(t, "&#039;");
    } else {
      assert t[0] == c;
      assert !StartsWith(t, "&amp;") && !StartsWith(t, "&lt;") && !StartsWith(t, "&gt;") && !StartsWith(t, "&quot;") && !StartsWith(t, "&#039;");
      assert t[1..] == rest;
    }
  }

  /** Escaping loses nothing: the original text is recovered from the escaped one. */
  lemma {:induction false} UnescapeEscape(s: string)
    ensures Unescape(EscapeEach(s)) == s
  {
    if s != [] {
      UnescapeEntity(s[0], EscapeEach(s[1..]));
      UnescapeEscape(s[1..]);
    }
  }

  // ------------------------------------------------------- pair replacement

  /** A closing marker m starts at k in t and the lazy `(.*?)` before it crosses no line break. */
  predicate CloseAt(t: string, m: string, k: int) {
    0 <= k <= |t| && StartsWith(t[k..], m) && forall j :: 0 <= j < k ==> !IsLineTerminator(t[j])
  }

  /** Where the lazy match closes: the first k where m starts with no line break before it. */
  function FindClose(t: string, m: string): (r: Option<nat>)
    requires |m| > 0
    ensures r.Some? ==> r.value + |m| <= |t| && t[r.value..r.value + |m|] == m
    decreases |t|
  {
    if StartsWith(t, m) then Some(0)
    else if t == [] || IsLineTerminator(t[0]) then None
    else
      match FindClose(t[1..], m)
      case None => None
      case Some(k) => assert t[1..][k..k + |m|] == t[k + 1..k + 1 + |m|]; Some(k + 1)
  }

  /** FindClose finds exactly the first position the lazy `(.*?)m` can close at, and None when there is none. */
  lemma {:induction false} FindCloseCorrect(t: string, m: string)
    requires |m| > 0
    ensures var r := FindClose(t, m);
      (r.Some? ==> CloseAt(t, m, r.value) && forall j :: 0 <= j < r.value ==> !CloseAt(t, m, j))
      && (r.None? ==> forall k :: 0 <= k <= |t| ==> !CloseAt(t, m, k))
    decreases |t|
  {
    if StartsWith(t, m) {
      assert t[0..] == t;
    } else if t == [] {
    } else if IsLineTerminator(t[0]) {
      assert !CloseAt(t, m, 0) by { assert t[0..] == t; }
    } else {
      FindCloseCorrect(t[1..], m);
      CloseShift(t, m);
      assert !CloseAt(t, m, 0) by { assert t[0..] == t; }
    }
  }

  lemma CloseShift(t: string, m: string)
    requires t != [] && !IsLineTerminator(t[0])
    ensures forall k :: 1 <= k <= |t| ==> (CloseAt(t, m, k) <==> CloseAt(t[1..], m, k - 1))
  {
    forall k | 1 <= k <= |t|
      ensures CloseAt(t, m, k) <==> CloseAt(t[1..], m, k - 1)
    {
      assert t[k..] == t[1..][k - 1..];
      if forall j :: 0 <= j < k - 1 ==> !IsLineTerminator(t[1..][j]) {
        forall j | 0 <= j < k ensures !IsLineTerminator(t[j]) {
          if j > 0 { assert t[j] == t[1..][j - 1]; }
        }
      }
    }
  }

  /** Where a pair opening at the front of t closes: the length of the
    * enclosed text, or None when t does not open a pair. */
  function PairAt(t: string, m: string): (r: Option<nat>)
    requires |m| > 0
    ensures r.Some? ==> |m| + r.value + |m| <= |t|
  {
    if StartsWith(t, m) then FindClose(t[|m|..], m) else None
  }

  /** What one step of the pass emits at the front of t: the wrapped text of
    * a pair, or the first character copied. */
  function Emitted(t: string, m: string, open: string, close: string): string
    requires |m| > 0 && t != []
  {
    match PairAt(t, m)
    case Some(k) => open + t[|m|..|m| + k] + close
    case None => [t[0]]
  }

  /** How much of t that step consumes: the whole pair, or one character. */
  function Consumed(t: string, m: string): (n: nat)
    requires |m| > 0 && t != []
    ensures 1 <= n <= |t|
  {
    match PairAt(t, m)
    case Some(k) => |m| + k + |m|
    case None => 1
  }

  /** One global pass of `/m(.*?)m/g` with replacement `open$1close`. */
  function ReplacePairs(t: string, m: string, open: string, close: string): string
    requires |m| > 0
    decreases |t|
  {
    if t == [] then []
    else Emitted(t, m, open, close) + ReplacePairs(t[Consumed(t, m)..], m, open, close)
  }

  /** One step of the pass, once what it emits and what it leaves are known. */
  lemma ReplacePairsStep(t: string, m: string, open: string, close: string, emitted: string, rest: string)
    requires |m| > 0 && t != []
    requires Emitted(t, m, open, close) == emitted && t[Consumed(t, m)..] == rest
    ensures ReplacePairs(t, m, open, close) == emitted + ReplacePairs(rest, m, open, close)
  {
  }

  /** The copy case of ReplacePairs: no pair opens at the front. */
  lemma UnfoldPlain(t: string, m: string, open: string, close: string)
    requires |m| > 0 && t != [] && !(StartsWith(t, m) && FindClose(t[|m|..], m).Some?)
    ensures ReplacePairs(t, m, open, close) == [t[0]] + ReplacePairs(t[1..], m, open, close)
  {
    assert PairAt(t, m).None?;
    ReplacePairsStep(t, m, open, close, [t[0]], t[1..]);
  }

  /** A prefix free of the marker's first character is copied unchanged. */
  lemma {:induction false} ReplacePairsSkip(p: string, u: string, m: string, open: string, close: string)
    requires |m| > 0 && m[0] !in p
    ensures ReplacePairs(p + u, m, open, close) == p + ReplacePairs(u, m, open, close)
  {
    if p == [] {
      assert p + u == u;
    } else {
      var t := p + u;
      assert t[0] == p[0] && t[1..] == p[1..] + u;
      CopyStep(t, m, open, close);
      ReplacePairsStep(t, m, open, close, [p[0]], p[1..] + u);
      ReplacePairsSkip(p[1..], u, m, open, close);
      PrependSame(p[0], p[1..], ReplacePairs(u, m, open, close), p, ReplacePairs(p[1..] + u, m, open, close));
    }
  }

  /** A text whose first character does not start the marker only has that character copied. */
  lemma CopyStep(t: string, m: string, open: string, close: string)
    requires |m| > 0 && t != [] && t[0] != m[0]
    ensures Emitted(t, m, open, close) == [t[0]] && Consumed(t, m) == 1
  {
    assert |m| <= |t| ==> t[..|m|][0] == t[0];
  }

  /** Putting a character back in front of a text's tail, as a standalone step. */
  lemma PrependSame(c: char, a: string, b: string, p: string, r: string)
    requires p == [c] + a && r == a + b
    ensures [c] + r == p + b
  {
  }

  /** Text without the marker's first character is left as it is. */
  lemma ReplacePairsAbsent(t: string, m: string, open: string, close: string)
    requires |m| > 0 && m[0] !in t
    ensures ReplacePairs(t, m, open, close) == t
  {
    ReplacePairsSkip(t, [], m, open, close);
    assert t + [] == t;
  }

  /** A marked span with no marker character and no line break inside is wrapped, using the shortest pair. */
  lemma {:induction false} ReplacePairsWrap(x: string, rest: string, m: string, open: string, close: string)
    requires |m| > 0 && m[0] !in x
    requires forall i :: 0 <= i < |x| ==> !IsLineTerminator(x[i])
    ensures ReplacePairs(m + x + m + rest, m, open, close)
         == open + x + close + ReplacePairs(rest, m, open, close)
  {
    MarkedPairStep(x, rest, m, open, close);
    ReplacePairsStep(m + x + m + rest, m, open, close, open + x + close, rest);
  }

  /** What the step at a marked span emits and leaves. */
  lemma MarkedPairStep(x: string, rest: string, m: string, open: string, close: string)
    requires |m| > 0 && m[0] !in x
    requires forall i :: 0 <= i < |x| ==> !IsLineTerminator(x[i])
    ensures m + x + m + rest != []
    ensures Emitted(m + x + m + rest, m, open, close) == open + x + close
    ensures (m + x + m + rest)[Consumed(m + x + m + rest, m)..] == rest
  {
    var t := m + x + m + rest;
    MarkedSlices(x, rest, m);
    FirstClose(x, rest, m);
    assert PairAt(t, m) == Some(|x|);
  }

  /** The pieces of a marked span, as ReplacePairs slices them. */
  lemma {:induction false} MarkedSlices(x: string, rest: string, m: string)
    ensures StartsWith(m + x + m + rest, m)
    ensures (m + x + m + rest)[|m|..] == x + m + rest
    ensures (m + x + m + rest)[|m|..|m| + |x|] == x
    ensures (m + x + m + rest)[|m| + |x| + |m|..] == rest
  {
    var t := m + x + m + rest;
    assert t[..|m|] == m;
  }

  /** The lazy match closes at the first marker after a marker-free span. */
  lemma {:induction false} FirstClose(x: string, rest: string, m: string)
    requires |m| > 0 && m[0] !in x
    requires forall i :: 0 <= i < |x| ==> !IsLineTerminator(x[i])
    ensures FindClose(x + m + rest, m) == Some(|x|)
  {
    var u := x + m + rest;
    assert CloseAt(u, m, |x|) by { assert u[|x|..] == m + rest; }
    FindCloseCorrect(u, m);
    forall j | 0 <= j < |x| ensures !CloseAt(u, m, j) {
      assert u[j] == x[j];
    }
  }

  // ----------------------------------------------------- the message formatter

  /** parseMarkdownToHTML of the chat bubble (and of the group chat, which repeats it). */
  function FormatMessage(s: string): string {
    var escaped := EscapeChain(s);
    var bold := ReplacePairs(escaped, "**", "<strong>", "</strong>");
    var italic := ReplacePairs(bold, "*", "<em>", "</em>");
    ReplacePairs(italic, "__", "<u>", "</u>")
  }

  predicate IsRaw(c: char) {
    c == '<' || c == '>' || c == '"' || c == '\''
  }

  predicate NoRaw(t: string) {
    forall i :: 0 <= i < |t| ==> !IsRaw(t[i])
  }

  /** The text is a sequence of the given tags and non-raw characters. */
  predicate Clean(t: string, tags: seq<string>)
    decreases |t|
  {
    t == []
    || (!IsRaw(t[0]) && Clean(t[1..], tags))
    || (exists j :: 0 <= j < |tags| && 0 < |tags[j]| && StartsWith(t, tags[j]) && Clean(t[|tags[j]|..], tags))
  }

  /** A character that no tag contains and that is not raw. */
  predicate Free(c: char, tags: seq<string>) {
    !IsRaw(c) && forall j :: 0 <= j < |tags| ==> c !in tags[j]
  }

  const Tags: seq<string> := ["<strong>", "</strong>", "<em>", "</em>", "<u>", "</u>"]

  lemma {:induction false} CleanNoTags(t: string)
    requires Clean(t, [])
    ensures NoRaw(t)
  {
    if t != [] {
      CleanNoTags(t[1..]);
      assert forall i :: 1 <= i < |t| ==> t[i] == t[1..][i - 1];
    }
  }

  lemma {:induction false} NoRawClean(t: string, tags: seq<string>)
    requires NoRaw(t)
    ensures Clean(t, tags)
  {
    if t != [] {
      NoRawClean(t[1..], tags);
    }
  }

  lemma TagClean(tags: seq<string>, j: int)
    requires 0 <= j < |tags| && 0 < |tags[j]|
    ensures Clean(tags[j], tags)
  {
    assert StartsWith(tags[j], tags[j]);
    assert tags[j][|tags[j]|..] == [];
  }

  lemma {:induction false} CleanConcat(a: string, b: string, tags: seq<string>)
    requires Clean(a, tags) && Clean(b, tags)
    ensures Clean(a + b, tags)
    decreases |a|
  {
    if a == [] {
      assert a + b == b;
    } else if !IsRaw(a[0]) && Clean(a[1..], tags) {
      CleanConcat(a[1..], b, tags);
      assert (a + b)[1..] == a[1..] + b;
    } else {
      var j :| 0 <= j < |tags| && 0 < |tags[j]| && StartsWith(a, tags[j]) && Clean(a[|tags[j]|..], tags);
      CleanConcat(a[|tags[j]|..], b, tags);
      assert (a + b)[|tags[j]|..] == a[|tags[j]|..] + b;
      assert (a + b)[..|tags[j]|] == a[..|tags[j]|];
    }
  }

  /** A clean text splits cleanly around any free character. */
  lemma {:induction false} CleanSplit(t: string, i: int, tags: seq<string>)
    requires Clean(t, tags) && 0 <= i < |t| && Free(t[i], tags)
    ensures Clean(t[..i], tags) && Clean(t[i + 1..], tags)
    decreases |t|
  {
    if !IsRaw(t[0]) && Clean(t[1..], tags) {
      if i == 0 {
        assert t[..0] == [];
      } else {
        CleanSplit(t[1..], i - 1, tags);
        SliceShift(t, 1, i);
      }
    } else {
      var j :| 0 <= j < |tags| && 0 < |tags[j]| && StartsWith(t, tags[j]) && Clean(t[|tags[j]|..], tags);
      var n := |tags[j]|;
      FreeAfterTag(t, i, tags[j], tags);
      CleanSplit(t[n..], i - n, tags);
      SliceShift(t, n, i);
      CleanTagFirst(t[..i], tags[j], tags);
    }
  }

  /** A tag followed by clean text is clean. */
  lemma CleanTagFirst(u: string, tag: string, tags: seq<string>)
    requires tag in tags && 0 < |tag| && StartsWith(u, tag) && Clean(u[|tag|..], tags)
    ensures Clean(u, tags)
  {
  }

  /** A free character cannot lie inside a tag the text starts with. */
  lemma FreeAfterTag(t: string, i: int, tag: string, tags: seq<string>)
    requires tag in tags && StartsWith(t, tag) && 0 <= i < |t| && Free(t[i], tags)
    ensures i >= |tag|
  {
  }

  lemma SliceShift<T>(t: seq<T>, k: int, i: int)
    requires 0 <= k <= i < |t|
    ensures t[k..][i - k + 1..] == t[i + 1..] && t[..i][k..] == t[k..][..i - k]
  {
  }

  lemma CleanDropFree(t: string, n: int, tags: seq<string>)
    requires Clean(t, tags) && 0 <= n <= |t|
    requires forall i :: 0 <= i < n ==> Free(t[i], tags)
    ensures Clean(t[n..], tags)
    decreases n
  {
    if n > 0 {
      CleanSplit(t, 0, tags);
      CleanDropFree(t[1..], n - 1, tags);
      assert t[1..][n - 1..] == t[n..];
    }
  }

  /** The pieces of a matched pair: the text between the markers and the text after them are clean. */
  lemma PairPiecesClean(t: string, m: string, k: int, tags: seq<string>)
    requires |m| > 0 && forall i :: 0 <= i < |m| ==> Free(m[i], tags)
    requires Clean(t, tags) && StartsWith(t, m) && 0 <= k && |m| + k + |m| <= |t|
    requires t[|m| + k..|m| + k + |m|] == m
    ensures Clean(t[|m|..|m| + k], tags) && Clean(t[|m| + k + |m|..], tags)
  {
    InnerClean(t, m, k, tags);
    AfterClean(t, m, k, tags);
  }

  lemma InnerClean(t: string, m: string, k: int, tags: seq<string>)
    requires |m| > 0 && forall i :: 0 <= i < |m| ==> Free(m[i], tags)
    requires Clean(t, tags) && StartsWith(t, m) && 0 <= k && |m| + k < |t| && t[|m| + k] == m[0]
    ensures Clean(t[|m|..|m| + k], tags)
  {
    CleanDropFree(t, |m|, tags);
    var u := t[|m|..];
    CleanSplit(u, k, tags);
    CleanSame(u[..k], t[|m|..|m| + k], tags);
  }

  lemma AfterClean(t: string, m: string, k: int, tags: seq<string>)
    requires |m| > 0 && forall i :: 0 <= i < |m| ==> Free(m[i], tags)
    requires Clean(t, tags) && 0 <= k && |m| + k + |m| <= |t|
    requires t[|m| + k..|m| + k + |m|] == m
    ensures Clean(t[|m| + k + |m|..], tags)
  {
    var j := |m| + k;
    assert t[j] == m[0];
    CleanSplit(t, j, tags);
    var v := t[j + 1..];
    forall i | 0 <= i < |m| - 1 ensures Free(v[i], tags) {
      assert v[i] == t[j..j + |m|][i + 1];
    }
    CleanDropFree(v, |m| - 1, tags);
    CleanSame(v[|m| - 1..], t[|m| + k + |m|..], tags);
  }

  /** Cleanliness carries over to an equal text (a congruence step kept apart from the slicing). */
  lemma CleanSame(a: string, b: string, tags: seq<string>)
    requires Clean(a, tags) && a == b
    ensures Clean(b, tags)
  {
  }

  lemma Clean3(a: string, b: string, c: string, d: string, tags: seq<string>)
    requires Clean(a, tags) && Clean(b, tags) && Clean(c, tags) && Clean(d, tags)
    ensures Clean(a + b + c + d, tags)
  {
    CleanConcat(c, d, tags);
    CleanConcat(b, c + d, tags);
    CleanConcat(a, b + (c + d), tags);
    assert a + b + c + d == a + (b + (c + d));
  }

  /** The matched-pair case of ReplacePairs, with the closing marker located in t. */
  lemma UnfoldPair(t: string, m: string, k: nat, open: string, close: string)
    requires |m| > 0 && t != [] && StartsWith(t, m) && FindClose(t[|m|..], m) == Some(k)
    ensures |m| + k + |m| <= |t| && t[|m| + k..|m| + k + |m|] == m
    ensures ReplacePairs(t, m, open, close)
         == open + t[|m|..|m| + k] + close + ReplacePairs(t[|m| + k + |m|..], m, open, close)
  {
    CloseSlice(t, m, k);
    assert PairAt(t, m) == Some(k);
    PairStep(t, m, k, open, close);
  }

  lemma CloseSlice(t: string, m: string, k: nat)
    requires |m| > 0 && |m| + k + |m| <= |t| && t[|m|..][k..k + |m|] == m
    ensures t[|m| + k..|m| + k + |m|] == m
  {
    assert t[|m|..][k..k + |m|] == t[|m| + k..|m| + k + |m|];
  }

  lemma PairStep(t: string, m: string, k: nat, open: string, close: string)
    requires |m| > 0 && t != [] && PairAt(t, m) == Some(k)
    ensures ReplacePairs(t, m, open, close)
         == open + t[|m|..|m| + k] + close + ReplacePairs(t[|m| + k + |m|..], m, open, close)
  {
    ReplacePairsStep(t, m, open, close, open + t[|m|..|m| + k] + close, t[|m| + k + |m|..]);
  }

  lemma PairCaseClean(t: string, m: string, k: nat, jo: int, jc: int, tags: seq<string>)
    requires |m| > 0 && t != [] && StartsWith(t, m) && FindClose(t[|m|..], m) == Some(k)
    requires 0 <= jo < |tags| && 0 < |tags[jo]| && 0 <= jc < |tags| && 0 < |tags[jc]|
    requires |m| + k + |m| <= |t| && Clean(t[|m|..|m| + k], tags)
    requires Clean(ReplacePairs(t[|m| + k + |m|..], m, tags[jo], tags[jc]), tags)
    ensures Clean(ReplacePairs(t, m, tags[jo], tags[jc]), tags)
  {
    UnfoldPair(t, m, k, tags[jo], tags[jc]);
    TagClean(tags, jo);
    TagClean(tags, jc);
    Clean3(tags[jo], t[|m|..|m| + k], tags[jc], ReplacePairs(t[|m| + k + |m|..], m, tags[jo], tags[jc]), tags);
  }

  /** Replacing marker pairs by tags keeps a text clean, when the marker's characters are free
      and the inserted tags are among the allowed ones. */
  lemma {:induction false} ReplacePairsClean(t: string, m: string, jo: int, jc: int, tags: seq<string>)
    requires |m| > 0 && forall i :: 0 <= i < |m| ==> Free(m[i], tags)
    requires 0 <= jo < |tags| && 0 < |tags[jo]| && 0 <= jc < |tags| && 0 < |tags[jc]|
    requires Clean(t, tags)
    ensures Clean(ReplacePairs(t, m, tags[jo], tags[jc]), tags)
    decreases |t|
  {
    var open, close := tags[jo], tags[jc];
    if t == [] {
    } else if StartsWith(t, m) && FindClose(t[|m|..], m).Some? {
      var k := FindClose(t[|m|..], m).value;
      UnfoldPair(t, m, k, open, close);
      PairPiecesClean(t, m, k, tags);
      ReplacePairsClean(t[|m| + k + |m|..], m, jo, jc, tags);
      PairCaseClean(t, m, k, jo, jc, tags);
    } else if !IsRaw(t[0]) && Clean(t[1..], tags) {
      ReplacePairsClean(t[1..], m, jo, jc, tags);
      NoRawClean([t[0]], tags);
      CleanConcat([t[0]], ReplacePairs(t[1..], m, open, close), tags);
    } else {
      var j :| 0 <= j < |tags| && 0 < |tags[j]| && StartsWith(t, tags[j]) && Clean(t[|tags[j]|..], tags);
      var tag := tags[j];
      assert m[0] !in tag by { assert Free(m[0], tags); }
      assert t == tag + t[|tag|..];
      ReplacePairsSkip(tag, t[|tag|..], m, open, close);
      ReplacePairsClean(t[|tag|..], m, jo, jc, tags);
      TagClean(tags, j);
      CleanConcat(tag, ReplacePairs(t[|tag|..], m, open, close), tags);
    }
  }

  lemma {:induction false} EscapeNoRaw(s: string)
    ensures NoRaw(EscapeEach(s))
  {
    if s != [] {
      EscapeNoRaw(s[1..]);
      var e := Entity(s[0]);
      assert NoRaw(e);
    }
  }

  lemma MarkersFree()
    ensures Free('*', Tags) && Free('_', Tags)
  {
    forall j | 0 <= j < |Tags| ensures '*' !in Tags[j] && '_' !in Tags[j] {
      assert Tags[j] in {"<strong>", "</strong>", "<em>", "</em>", "<u>", "</u>"};
    }
  }

  /** The only raw `<`, `>`, `"` or `'` in a formatted message are those of the inserted tags:
      user text cannot inject markup. */
  lemma FormatMessageClean(s: string)
    ensures Clean(FormatMessage(s), Tags)
  {
    MarkersFree();
    var star, under := "*", "__";
    var double := "**";
    assert forall i :: 0 <= i < |double| ==> double[i] == '*';
    assert forall i :: 0 <= i < |under| ==> under[i] == '_';
    EscapeChainIsEntityWise(s);
    EscapeNoRaw(s);
    var escaped := EscapeEach(s);
    NoRawClean(escaped, Tags);
    assert Tags[0] == "<strong>" && Tags[1] == "</strong>" && Tags[2] == "<em>";
    assert Tags[3] == "</em>" && Tags[4] == "<u>" && Tags[5] == "</u>";
    var bold := ReplacePairs(escaped, double, "<strong>", "</strong>");
    ReplacePairsClean(escaped, double, 0, 1, Tags);
    var italic := ReplacePairs(bold, star, "<em>", "</em>");
    ReplacePairsClean(bold, star, 2, 3, Tags);
    ReplacePairsClean(italic, under, 4, 5, Tags);
  }

  lemma {:induction false} EscapeKeepsAbsent(s: string, c: char)
    requires c !in s && c != '&' && c != ';' && c != '#' && !IsAsciiLower(c) && !IsAsciiDigit(c)
    ensures c !in EscapeEach(s)
  {
    if s != [] {
      EscapeKeepsAbsent(s[1..], c);
    }
  }

  /** Text with no `*` and no `_` comes back escaped and otherwise untouched. */
  lemma FormatMessagePlain(s: string)
    requires '*' !in s && '_' !in s
    ensures FormatMessage(s) == EscapeEach(s)
  {
    EscapeChainIsEntityWise(s);
    EscapeKeepsAbsent(s, '*');
    EscapeKeepsAbsent(s, '_');
    ReplacePairsAbsent(EscapeEach(s), "**", "<strong>", "</strong>");
    ReplacePairsAbsent(EscapeEach(s), "*", "<em>", "</em>");
    ReplacePairsAbsent(EscapeEach(s), "__", "<u>", "</u>");
  }

  /** Characters that neither escaping nor any marker rule touches. */
  predicate Inert(c: char) {
    c != '&' && !IsRaw(c) && c != '*' && c != '_' && !IsLineTerminator(c)
  }

  predicate AllInert(x: string) {
    forall i :: 0 <= i < |x| ==> Inert(x[i])
  }

  /** Text that escaping leaves as it is. */
  predicate Plain(x: string) {
    forall i :: 0 <= i < |x| ==> x[i] != '&' && !IsRaw(x[i])
  }

  lemma {:induction false} EscapePlain(x: string)
    requires Plain(x)
    ensures EscapeEach(x) == x
  {
    if x != [] {
      EscapePlain(x[1..]);
    }
  }

  /** The formatter on text that needs no escaping, once the result of each marker pass is known. */
  lemma FormatSteps(s: string, bold: string, italic: string, r: string)
    requires Plain(s)
    requires ReplacePairs(s, "**", "<strong>", "</strong>") == bold
    requires ReplacePairs(bold, "*", "<em>", "</em>") == italic
    requires ReplacePairs(italic, "__", "<u>", "</u>") == r
    ensures FormatMessage(s) == r
  {
    EscapeChainIsEntityWise(s);
    EscapePlain(s);
  }

  /** The italic and underline passes leave text without `*` and `_` alone. */
  lemma LaterPassesAbsent(t: string)
    requires '*' !in t && '_' !in t
    ensures ReplacePairs(ReplacePairs(t, "*", "<em>", "</em>"), "__", "<u>", "</u>") == t
  {
    ReplacePairsAbsent(t, "*", "<em>", "</em>");
    ReplacePairsAbsent(t, "__", "<u>", "</u>");
  }

  /** A tag pair around inert text holds no marker character. */
  lemma WrappedInert(open: string, x: string, close: string)
    requires AllInert(x)
    requires '*' !in open && '_' !in open && '*' !in close && '_' !in close
    ensures '*' !in open + x + close && '_' !in open + x + close
  {
    var w := open + x + close;
    forall i | 0 <= i < |w| ensures w[i] != '*' && w[i] != '_' {
      if i < |open| { assert w[i] == open[i]; }
      else if i < |open| + |x| { assert w[i] == x[i - |open|]; }
      else { assert w[i] == close[i - |open| - |x|]; }
    }
  }

  lemma MarkedPlain(m: string, x: string)
    requires AllInert(x) && forall i :: 0 <= i < |m| ==> m[i] == '*' || m[i] == '_'
    ensures Plain(m + x + m)
  {
    var s := m + x + m;
    forall i | 0 <= i < |s| ensures s[i] != '&' && !IsRaw(s[i]) {
      if i < |m| { assert s[i] == m[i]; }
      else if i < |m| + |x| { assert s[i] == x[i - |m|]; }
      else { assert s[i] == m[i - |m| - |x|]; }
    }
  }

  /** One marker pass over a single marked span of inert text. */
  lemma WrapPass(x: string, m: string, open: string, close: string)
    requires AllInert(x) && |m| > 0 && (m[0] == '*' || m[0] == '_')
    ensures ReplacePairs(m + x + m, m, open, close) == open + x + close
  {
    assert m[0] !in x by {
      forall i | 0 <= i < |x| ensures x[i] != m[0] {
        assert Inert(x[i]);
      }
    }
    assert m + x + m == m + x + m + [];
    ReplacePairsWrap(x, [], m, open, close);
    assert open + x + close + [] == open + x + close;
  }

  /** `**x**` becomes `<strong>x</strong>`; the bold rule runs first, so no `<em>` appears. */
  lemma FormatBold(x: string)
    requires AllInert(x)
    ensures FormatMessage("**" + x + "**") == "<strong>" + x + "</strong>"
  {
    var bold := "<strong>" + x + "</strong>";
    WrapPass(x, "**", "<strong>", "</strong>");
    WrappedInert("<strong>", x, "</strong>");
    ReplacePairsAbsent(bold, "*", "<em>", "</em>");
    ReplacePairsAbsent(bold, "__", "<u>", "</u>");
    MarkedPlain("**", x);
    FormatSteps("**" + x + "**", bold, bold, bold);
  }

  /** A prefix of text after a `*`-free run: the bold pass cannot start inside `*x*`. */
  lemma BoldPassSkipsSingle(x: string)
    requires AllInert(x) && x != []
    ensures ReplacePairs("*" + x + "*", "**", "<strong>", "</strong>") == "*" + x + "*"
  {
    var s := "*" + x + "*";
    assert Inert(x[0]) && s[1] == x[0];
    assert PairAt(s, "**") == None;
    assert s[0] == '*' && s[1..] == x + "*";
    ReplacePairsStep(s, "**", "<strong>", "</strong>", "*", x + "*");
    assert '*' !in x by {
      forall i | 0 <= i < |x| ensures x[i] != '*' {
        assert Inert(x[i]);
      }
    }
    ReplacePairsSkip(x, "*", "**", "<strong>", "</strong>");
    LoneStar();
  }

  lemma LoneStar()
    ensures ReplacePairs("*", "**", "<strong>", "</strong>") == "*"
  {
    assert "*"[1..] == [];
  }

  /** `*x*` becomes `<em>x</em>`. */
  lemma FormatItalic(x: string)
    requires AllInert(x) && x != []
    ensures FormatMessage("*" + x + "*") == "<em>" + x + "</em>"
  {
    ItalicPasses(x);
    FormatSteps("*" + x + "*", "*" + x + "*", "<em>" + x + "</em>", "<em>" + x + "</em>");
  }

  /** What each marker pass does to `*x*`. */
  lemma ItalicPasses(x: string)
    requires AllInert(x) && x != []
    ensures Plain("*" + x + "*")
    ensures ReplacePairs("*" + x + "*", "**", "<strong>", "</strong>") == "*" + x + "*"
    ensures ReplacePairs("*" + x + "*", "*", "<em>", "</em>") == "<em>" + x + "</em>"
    ensures ReplacePairs("<em>" + x + "</em>", "__", "<u>", "</u>") == "<em>" + x + "</em>"
  {
    BoldPassSkipsSingle(x);
    WrapPass(x, "*", "<em>", "</em>");
    ItalicUnderline(x);
    MarkedPlain("*", x);
  }

  lemma ItalicUnderline(x: string)
    requires AllInert(x)
    ensures ReplacePairs("<em>" + x + "</em>", "__", "<u>", "</u>") == "<em>" + x + "</em>"
  {
    WrappedInert("<em>", x, "</em>");
    ReplacePairsAbsent("<em>" + x + "</em>", "__", "<u>", "</u>");
  }

  /** `__x__` becomes `<u>x</u>`. */
  lemma FormatUnderline(x: string)
    requires AllInert(x)
    ensures FormatMessage("__" + x + "__") == "<u>" + x + "</u>"
  {
    UnderlinePasses(x);
    FormatSteps("__" + x + "__", "__" + x + "__", "__" + x + "__", "<u>" + x + "</u>");
  }

  /** What each marker pass does to `__x__`: only the last one changes it. */
  lemma UnderlinePasses(x: string)
    requires AllInert(x)
    ensures Plain("__" + x + "__")
    ensures ReplacePairs("__" + x + "__", "**", "<strong>", "</strong>") == "__" + x + "__"
    ensures ReplacePairs("__" + x + "__", "*", "<em>", "</em>") == "__" + x + "__"
    ensures ReplacePairs("__" + x + "__", "__", "<u>", "</u>") == "<u>" + x + "</u>"
  {
    var s := "__" + x + "__";
    assert '*' !in s by {
      forall i | 0 <= i < |s| ensures s[i] != '*' {
        if 2 <= i < 2 + |x| { assert s[i] == x[i - 2]; }
      }
    }
    ReplacePairsAbsent(s, "**", "<strong>", "</strong>");
    ReplacePairsAbsent(s, "*", "<em>", "</em>");
    WrapPass(x, "__", "<u>", "</u>");
    MarkedPlain("__", x);
  }

  /** `x` newline `y`, with x and y inert: no marker, no escapable character. */
  lemma BrokenBody(x: string, y: string)
    requires AllInert(x) && AllInert(y)
    ensures var body := x + "\n" + y;
      '*' !in body && '_' !in body && Plain(body) && |body| == |x| + 1 + |y| && body[|x|] == '\n'
  {
    var body := x + "\n" + y;
    forall i | 0 <= i < |body| ensures body[i] != '*' && body[i] != '_' && body[i] != '&' && !IsRaw(body[i]) {
      if i < |x| { assert body[i] == x[i]; }
      else if i > |x| { assert body[i] == y[i - |x| - 1]; }
    }
  }

  /** With a line break inside, the lazy match finds no closing `*`. */
  lemma NoCloseAcrossBreak(body: string, n: nat)
    requires '*' !in body && n < |body| && IsLineTerminator(body[n])
    ensures FindClose(body + "*", "*").None?
  {
    var u := body + "*";
    FindCloseCorrect(u, "*");
    forall k | 0 <= k <= |u| ensures !CloseAt(u, "*", k) {
      if k > n {
        assert u[n] == body[n];
      } else if k < |u| {
        assert u[k] == body[k];
      }
    }
  }

  /** A single pass whose marker is a lone `*` that never closes copies its text. */
  lemma UnclosedStar(body: string, m: string, open: string, close: string)
    requires m == "*" || m == "**"
    requires '*' !in body && body != [] && (m == "*" ==> FindClose(body + "*", "*").None?)
    ensures ReplacePairs("*" + body + "*", m, open, close) == "*" + body + "*"
  {
    var s := "*" + body + "*";
    assert s[1..] == body + "*";
    if m == "**" {
      assert !StartsWith(s, m) by { assert s[1] == body[0]; }
    } else {
      assert s[|m|..] == body + "*";
    }
    ReplacePairsSkip(body, "*", m, open, close);
    assert ReplacePairs("*", m, open, close) == "*" by {
      assert "*"[1..] == [];
      if m == "*" {
        FindCloseCorrect([], m);
        assert !CloseAt([], m, 0);
      }
    }
  }

  /** A pair split by a line break is not matched: the markers stay literal. */
  lemma FormatAcrossLineBreak(x: string, y: string)
    requires AllInert(x) && AllInert(y)
    ensures FormatMessage("*" + x + "\n" + y + "*") == "*" + x + "\n" + y + "*"
  {
    var body := x + "\n" + y;
    var s := "*" + body + "*";
    assert s == "*" + x + "\n" + y + "*";
    BrokenBody(x, y);
    StarredPlain(body);
    NoCloseAcrossBreak(body, |x|);
    UnclosedStar(body, "**", "<strong>", "</strong>");
    UnclosedStar(body, "*", "<em>", "</em>");
    ReplacePairsAbsent(s, "__", "<u>", "</u>");
    FormatSteps(s, s, s, s);
  }

  /** Wrapping plain text without underscores in single stars keeps both. */
  lemma StarredPlain(body: string)
    requires Plain(body) && '_' !in body
    ensures Plain("*" + body + "*") && '_' !in "*" + body + "*"
  {
    var s := "*" + body + "*";
    forall i | 0 <= i < |s| ensures s[i] != '&' && !IsRaw(s[i]) && s[i] != '_' {
      if 1 <= i < 1 + |body| { assert s[i] == body[i - 1]; }
    }
  }

  lemma BoldPassUnpaired(x: string)
    requires AllInert(x) && x != []
    ensures ReplacePairs("**" + x, "**", "<strong>", "</strong>") == "**" + x
  {
    var s := "**" + x;
    assert '*' !in x;
    assert PairAt(s, "**").None? by {
      assert s[2..] == x;
      assert FindClose(x, "**").None? by {
        FindCloseCorrect(x, "**");
        forall k | 0 <= k <= |x| ensures !CloseAt(x, "**", k) {
          if k < |x| { assert x[k..][0] == x[k]; }
        }
      }
    }
    assert s[1..] == "*" + x;
    ReplacePairsStep(s, "**", "<strong>", "</strong>", "*", "*" + x);
    assert PairAt("*" + x, "**").None? by {
      assert ("*" + x)[1] == x[0];
    }
    assert ("*" + x)[1..] == x;
    ReplacePairsStep("*" + x, "**", "<strong>", "</strong>", "*", x);
    ReplacePairsAbsent(x, "**", "<strong>", "</strong>");
    assert "*" + ("*" + x) == s;
  }

  lemma ItalicPassUnpaired(x: string)
    requires AllInert(x)
    ensures ReplacePairs("**" + x, "*", "<em>", "</em>") == "<em></em>" + x
  {
    var s := "**" + x;
    assert PairAt(s, "*") == Some(0) by {
      assert s[1..] == "*" + x;
      assert StartsWith("*" + x, "*");
    }
    assert Emitted(s, "*", "<em>", "</em>") == "<em></em>" by {
      assert s[1..1] == [];
      assert "<em>" + [] + "</em>" == "<em></em>";
    }
    assert s[Consumed(s, "*")..] == x by {
      assert Consumed(s, "*") == 2;
    }
    ReplacePairsStep(s, "*", "<em>", "</em>", "<em></em>", x);
    assert '*' !in x;
    ReplacePairsAbsent(x, "*", "<em>", "</em>");
  }

  /** An unpaired `**` is not literal: the italic rule reads it as an empty pair. */
  lemma FormatUnpairedDouble(x: string)
    requires AllInert(x) && x != []
    ensures FormatMessage("**" + x) == "<em></em>" + x
  {
    var s := "**" + x;
    assert Plain(s) by { InertPrefix("**", x); }
    BoldPassUnpaired(x);
    ItalicPassUnpaired(x);
    var r := "<em></em>" + x;
    assert '_' !in r by {
      assert '_' !in x;
      assert '_' !in "<em></em>";
    }
    ReplacePairsAbsent(r, "__", "<u>", "</u>");
    FormatSteps(s, s, r, r);
  }

  /** A prefix free of `&`, `_` and raw characters before inert text. */
  lemma InertPrefix(p: string, x: string)
    requires forall i :: 0 <= i < |p| ==> p[i] != '&' && p[i] != '_' && !IsRaw(p[i])
    requires AllInert(x)
    ensures Plain(p + x) && '_' !in p + x
  {
    var s := p + x;
    forall i | 0 <= i < |s| ensures s[i] != '&' && s[i] != '_' && !IsRaw(s[i]) {
      if i >= |p| { assert s[i] == x[i - |p|]; }
    }
  }

  // -------------------------------------------------------- feed hashtags

  /** `\w`: an ASCII letter, digit or underscore. */
  predicate WordChar(c: char) {
    IsAsciiUpper(c) || IsAsciiLower(c) || IsAsciiDigit(c) || c == '_'
  }

  /** The greedy `\w+` run at the start of t (possibly empty). */
  function WordRun(t: string): (r: string)
    ensures |r| <= |t| && r == t[..|r|]
    ensures forall i :: 0 <= i < |r| ==> WordChar(r[i])
    ensures |r| < |t| ==> !WordChar(t[|r|])
  {
    if t != [] && WordChar(t[0]) then [t[0]] + WordRun(t[1..]) else []
  }

  const AnchorOpen: string := "<a href=\"#\" class=\"text-red-500 hover:underline\">"
  const AnchorClose: string := "</a>"

  /** `t.replace(/(#\w+)/g, '<a …>$1</a>')`, one pass from left to right. */
  function LinkHashtags(t: string): string
    decreases |t|
  {
    if t == [] then []
    else if t[0] == '#' && WordRun(t[1..]) != [] then
      var w := WordRun(t[1..]);
      AnchorOpen + "#" + w + AnchorClose + LinkHashtags(t[1 + |w|..])
    else [t[0]] + LinkHashtags(t[1..])
  }

  /** The feed formatter as written: the message rules, then hashtag links on the escaped text. */
  function FormatFeedAsWritten(s: string): string {
    LinkHashtags(FormatMessage(s))
  }

  lemma LinkEntityAsWritten(t: string)
    requires t == "&#039;"
    ensures LinkHashtags(t) == "&" + AnchorOpen + "#039" + AnchorClose + ";"
  {
    assert t[1..] == "#039;";
    LinkEntityTail("#039;");
    assert !(t[0] == '#');
  }

  /** The `#039;` left after the `&` is linked up to the `;`. */
  lemma LinkEntityTail(h: string)
    requires h == "#039;"
    ensures LinkHashtags(h) == AnchorOpen + "#" + "039" + AnchorClose + ";"
  {
    var semi := h[4..];
    assert semi == ";";
    assert LinkHashtags(semi) == semi by {
      assert semi[1..] == [];
    }
    DigitsRun(h[1..]);
    assert h[1 + 3..] == semi;
  }

  lemma DigitsRun(d0: string)
    requires d0 == "039;"
    ensures WordRun(d0) == "039"
  {
    var d1, d2, semi := d0[1..], d0[2..], d0[3..];
    assert d1 == "39;" && d2 == "9;" && semi == ";";
    assert WordRun(semi) == [];
    assert d2[1..] == semi;
    assert WordRun(d2) == "9";
    assert d1[1..] == d2;
    assert WordRun(d1) == "39";
    assert d0[1..] == d1;
  }

  /** An apostrophe is escaped to `&#039;`, whose `#039` is then wrapped in a link. */
  lemma FeedLinksInsideEntity(s: string)
    requires s == "'"
    ensures FormatFeedAsWritten(s) == "&" + AnchorOpen + "#039" + AnchorClose + ";"
  {
    FormatMessagePlain(s);
    assert EscapeEach(s) == "&#039;" by {
      assert s[1..] == [];
    }
    LinkEntityAsWritten(EscapeEach(s));
  }

  /** The linker with the evidently intended guard: a `#` right after `&` opens an entity
      (escaping turns every `&` of the user's text into `&amp;`), so it is not linked. */
  function LinkHashtagsFrom(t: string, afterAmp: bool): string
    decreases |t|
  {
    if t == [] then []
    else if t[0] == '#' && !afterAmp && WordRun(t[1..]) != [] then
      var w := WordRun(t[1..]);
      AnchorOpen + "#" + w + AnchorClose + LinkHashtagsFrom(t[1 + |w|..], false)
    else [t[0]] + LinkHashtagsFrom(t[1..], t[0] == '&')
  }

  /** The feed formatter with the corrected linker. */
  function FormatFeed(s: string): string {
    LinkHashtagsFrom(FormatMessage(s), false)
  }

  /** Every `#` of t comes right after an `&` (at the start, only when afterAmp says one precedes t). */
  predicate HashAfterAmp(t: string, afterAmp: bool)
    decreases |t|
  {
    t == [] || ((t[0] == '#' ==> afterAmp) && HashAfterAmp(t[1..], t[0] == '&'))
  }

  lemma {:induction false} HashConcat(a: string, b: string, afterAmp: bool)
    requires HashAfterAmp(a, afterAmp)
    requires HashAfterAmp(b, if a == [] then afterAmp else a[|a| - 1] == '&')
    ensures HashAfterAmp(a + b, afterAmp)
    decreases |a|
  {
    if a == [] {
      assert a + b == b;
    } else {
      assert (a + b)[0] == a[0] && (a + b)[1..] == a[1..] + b;
      if |a| > 1 { assert a[1..][|a| - 2] == a[|a| - 1]; }
      HashConcat(a[1..], b, a[0] == '&');
    }
  }

  lemma {:induction false} HashDrop(t: string, afterAmp: bool, i: int)
    requires HashAfterAmp(t, afterAmp) && 0 <= i <= |t|
    ensures HashAfterAmp(t[i..], if i == 0 then afterAmp else t[i - 1] == '&')
    decreases i
  {
    if i > 0 {
      HashDrop(t[1..], t[0] == '&', i - 1);
      assert t[1..][i - 1..] == t[i..];
      if i > 1 { assert t[1..][i - 2] == t[i - 1]; }
    }
  }

  lemma {:induction false} HashPrefix(t: string, afterAmp: bool, j: int)
    requires HashAfterAmp(t, afterAmp) && 0 <= j <= |t|
    ensures HashAfterAmp(t[..j], afterAmp)
    decreases j
  {
    if j > 0 {
      HashPrefix(t[1..], t[0] == '&', j - 1);
      assert t[..j][1..] == t[1..][..j - 1];
    }
  }

  lemma HashSlice(t: string, afterAmp: bool, i: int, j: int)
    requires HashAfterAmp(t, afterAmp) && 0 <= i <= j <= |t|
    ensures HashAfterAmp(t[i..j], if i == 0 then afterAmp else t[i - 1] == '&')
  {
    HashDrop(t, afterAmp, i);
    HashPrefix(t[i..], if i == 0 then afterAmp else t[i - 1] == '&', j - i);
    assert t[i..][..j - i] == t[i..j];
  }

  lemma {:induction false} NoHash(t: string, afterAmp: bool)
    requires '#' !in t
    ensures HashAfterAmp(t, afterAmp)
    decreases |t|
  {
    if t != [] {
      NoHash(t[1..], t[0] == '&');
    }
  }

  lemma Hash3(a: string, b: string, c: string, d: string, afterAmp: bool)
    requires |a| > 0 && '#' !in a && '&' !in a && '#' !in c && '&' !in c
    requires HashAfterAmp(b, false) && HashAfterAmp(d, false)
    ensures HashAfterAmp(a + b + c + d, afterAmp)
  {
    var cd := c + d;
    assert HashAfterAmp(cd, false) by {
      NoHash(c, false);
      if c != [] { assert c[|c| - 1] in c; }
      HashConcat(c, d, false);
    }
    var bcd := b + cd;
    assert HashAfterAmp(bcd, false) by {
      if b == [] {
        assert bcd == cd;
      } else {
        HashConcat(b, cd, false);
      }
    }
    assert HashAfterAmp(a + bcd, afterAmp) by {
      NoHash(a, afterAmp);
      assert a[|a| - 1] in a;
      HashConcat(a, bcd, afterAmp);
    }
    assert a + b + c + d == a + bcd;
  }

  /** The text between two markers that hold no `&` starts with no `#` awaiting an `&`. */
  lemma BetweenMarkersHash(t: string, m: string, i: int, j: int, afterAmp: bool)
    requires HashAfterAmp(t, afterAmp) && 0 < |m| <= i <= j <= |t| && t[i - |m|..i] == m && '&' !in m
    ensures HashAfterAmp(t[i..j], false)
  {
    HashSlice(t, afterAmp, i, j);
    assert t[i - 1] == t[i - |m|..i][|m| - 1];
    assert m[|m| - 1] in m;
  }

  /** The text after an opening marker that holds no `&` starts with no `#` awaiting an `&`. */
  lemma AfterOpenHash(t: string, m: string, j: int, afterAmp: bool)
    requires HashAfterAmp(t, afterAmp) && 0 < |m| <= j <= |t| && t[..|m|] == m && '&' !in m
    ensures HashAfterAmp(t[|m|..j], false)
  {
    HashSlice(t, afterAmp, |m|, j);
    assert t[|m| - 1] == t[..|m|][|m| - 1];
    assert m[|m| - 1] in m;
  }

  lemma PairCaseHash(t: string, m: string, k: nat, afterAmp: bool, open: string, close: string, r: string)
    requires |m| + k <= |t|
    requires |open| > 0 && '#' !in open && '&' !in open && '#' !in close && '&' !in close
    requires HashAfterAmp(t[|m|..|m| + k], false) && HashAfterAmp(r, false)
    ensures HashAfterAmp(open + t[|m|..|m| + k] + close + r, afterAmp)
  {
    Hash3(open, t[|m|..|m| + k], close, r, afterAmp);
  }

  /** The last character a pair consumes is the last character of its closing marker. */
  lemma CloseLast(t: string, m: string, k: nat)
    requires |m| > 0 && |m| + k + |m| <= |t| && t[|m|..][k..k + |m|] == m
    ensures t[|m| + k + |m| - 1] == m[|m| - 1]
  {
    assert t[|m| + k + |m| - 1] == t[|m|..][k..k + |m|][|m| - 1];
  }

  /** One step of a marker pass keeps every `#` right after its `&`. */
  lemma EmittedHash(t: string, m: string, afterAmp: bool, open: string, close: string, r: string)
    requires |m| > 0 && '&' !in m && t != []
    requires |open| > 0 && '#' !in open && '&' !in open && '#' !in close && '&' !in close
    requires HashAfterAmp(t, afterAmp) && HashAfterAmp(r, t[Consumed(t, m) - 1] == '&')
    ensures HashAfterAmp(Emitted(t, m, open, close) + r, afterAmp)
  {
    if PairAt(t, m).Some? {
      EmittedPairHash(t, m, PairAt(t, m).value, afterAmp, open, close, r);
    } else {
      EmittedCopyHash(t, m, afterAmp, open, close, r);
    }
  }

  lemma EmittedPairHash(t: string, m: string, k: nat, afterAmp: bool, open: string, close: string, r: string)
    requires |m| > 0 && '&' !in m && t != [] && PairAt(t, m) == Some(k)
    requires |open| > 0 && '#' !in open && '&' !in open && '#' !in close && '&' !in close
    requires HashAfterAmp(t, afterAmp) && HashAfterAmp(r, t[Consumed(t, m) - 1] == '&')
    ensures HashAfterAmp(Emitted(t, m, open, close) + r, afterAmp)
  {
    assert Emitted(t, m, open, close) == open + t[|m|..|m| + k] + close;
    assert HashAfterAmp(r, false) by {
      assert Consumed(t, m) == |m| + k + |m|;
      CloseLast(t, m, k);
      assert m[|m| - 1] in m;
    }
    assert HashAfterAmp(t[|m|..|m| + k], false) by {
      AfterOpenHash(t, m, |m| + k, afterAmp);
    }
    PairCaseHash(t, m, k, afterAmp, open, close, r);
  }

  lemma EmittedCopyHash(t: string, m: string, afterAmp: bool, open: string, close: string, r: string)
    requires |m| > 0 && t != [] && PairAt(t, m).None?
    requires HashAfterAmp(t, afterAmp) && HashAfterAmp(r, t[Consumed(t, m) - 1] == '&')
    ensures HashAfterAmp(Emitted(t, m, open, close) + r, afterAmp)
  {
    assert Emitted(t, m, open, close) == [t[0]];
    assert HashAfterAmp(r, t[0] == '&') by {
      assert Consumed(t, m) == 1;
    }
    assert HashAfterAmp([t[0]], afterAmp) by { assert [t[0]][1..] == []; }
    HashConcat([t[0]], r, afterAmp);
  }

  /** Marker passes keep every `#` right after its `&`. */
  lemma {:induction false} ReplacePairsHash(t: string, afterAmp: bool, m: string, open: string, close: string)
    requires |m| > 0 && '&' !in m && '#' !in m
    requires |open| > 0 && '#' !in open && '&' !in open && '#' !in close && '&' !in close
    requires HashAfterAmp(t, afterAmp)
    ensures HashAfterAmp(ReplacePairs(t, m, open, close), afterAmp)
    decreases |t|
  {
    if t != [] {
      ReplacePairsStep(t, m, open, close, Emitted(t, m, open, close), t[Consumed(t, m)..]);
      HashDrop(t, afterAmp, Consumed(t, m));
      ReplacePairsHash(t[Consumed(t, m)..], t[Consumed(t, m) - 1] == '&', m, open, close);
      EmittedHash(t, m, afterAmp, open, close, ReplacePairs(t[Consumed(t, m)..], m, open, close));
    }
  }

  lemma EntityHash(c: char)
    requires c != '#'
    ensures HashAfterAmp(Entity(c), false) && Entity(c)[|Entity(c)| - 1] != '&'
  {
    var e := Entity(c);
    if c == '\'' {
      assert e == "&#039;";
      assert e[2..] == "039;";
      NoHash(e[2..], false);
      assert HashAfterAmp(e[1..], true) by { assert e[1..][1..] == e[2..]; }
      assert e[|e| - 1] == ';';
    } else {
      NoHash(e, false);
      if c == '&' || IsRaw(c) {
        assert e[|e| - 1] == ';';
      } else {
        assert e == [c];
      }
    }
  }

  lemma {:induction false} EscapeHash(s: string)
    requires '#' !in s
    ensures HashAfterAmp(EscapeEach(s), false)
  {
    if s != [] {
      EscapeHash(s[1..]);
      EntityHash(s[0]);
      HashConcat(Entity(s[0]), EscapeEach(s[1..]), false);
    }
  }

  /** The corrected linker copies a text whose every `#` follows an `&`. */
  lemma {:induction false} LinkFromIdentity(t: string, afterAmp: bool)
    requires HashAfterAmp(t, afterAmp)
    ensures LinkHashtagsFrom(t, afterAmp) == t
    decreases |t|
  {
    if t != [] {
      LinkFromIdentity(t[1..], t[0] == '&');
    }
  }

  /** With the corrected linker, text without `#` gets no link, whatever entities escaping produced. */
  lemma FormatFeedNoHash(s: string)
    requires '#' !in s
    ensures FormatFeed(s) == FormatMessage(s)
  {
    EscapeChainIsEntityWise(s);
    EscapeHash(s);
    var escaped := EscapeEach(s);
    var bold := ReplacePairs(escaped, "**", "<strong>", "</strong>");
    ReplacePairsHash(escaped, false, "**", "<strong>", "</strong>");
    var italic := ReplacePairs(bold, "*", "<em>", "</em>");
    ReplacePairsHash(bold, false, "*", "<em>", "</em>");
    ReplacePairsHash(italic, false, "__", "<u>", "</u>");
    LinkFromIdentity(FormatMessage(s), false);
  }

  /** The corrected feed formatter on the apostrophe: the entity stays whole. */
  lemma FeedKeepsEntity(s: string)
    requires s == "'"
    ensures FormatFeed(s) == "&#039;"
  {
    FormatFeedNoHash(s);
    FormatMessagePlain(s);
    assert s[1..] == [];
  }

  lemma {:induction false} WordRunAll(w: string)
    requires forall i :: 0 <= i < |w| ==> WordChar(w[i])
    ensures WordRun(w) == w
  {
    if w != [] {
      WordRunAll(w[1..]);
    }
  }

  /** A hashtag typed by the user is still linked by the corrected linker. */
  lemma FormatFeedHashtag(w: string)
    requires w != [] && forall i :: 0 <= i < |w| ==> IsAsciiLower(w[i])
    ensures FormatFeed("#" + w) == AnchorOpen + "#" + w + AnchorClose
  {
    var s := "#" + w;
    assert '*' !in s && '_' !in s && Plain(s) by {
      forall i | 0 <= i < |s| ensures s[i] != '*' && s[i] != '_' && s[i] != '&' && !IsRaw(s[i]) {
        if i > 0 { assert s[i] == w[i - 1]; }
      }
    }
    FormatMessagePlain(s);
    EscapePlain(s);
    WordRunAll(w);
    assert s[1..] == w;
    assert s[1 + |w|..] == [];
    assert LinkHashtagsFrom(s, false) == AnchorOpen + "#" + w + AnchorClose + [];
  }
}
