/** The HTML that the overlay renderer writes, letter by letter. */
module InlineMarkdownHtml {
  import opened Wrappers
  import opened InlineMarkdown
  import opened InlineMarkdownLaws

  // ----- escaping

  lemma EscapeOne(c: char)
    ensures Escape([c]) == EscapeChar(c)
  {
    assert [c][1..] == "" && Escape("") == "";
  }

  /** Escaping writes the five special characters as their entities, leaves every
      other one, and works character by character. */
  lemma EscapeIsLiteral(c: char, a: string, b: string)
    ensures Escape(a + b) == Escape(a) + Escape(b)
    ensures c == '&' ==> Escape([c]) == "&amp;"
    ensures c == '<' ==> Escape([c]) == "&lt;"
    ensures c == '>' ==> Escape([c]) == "&gt;"
    ensures c == '\"' ==> Escape([c]) == "&#34;"
    ensures c == '\'' ==> Escape([c]) == "&#39;"
    ensures c !in {'&', '<', '>', '\"', '\''} ==> Escape([c]) == [c]
  {
    EscapeConcat(a, b);
    EscapeOne(c);
  }

  lemma {:induction false} EscapeConcat(a: string, b: string)
    ensures Escape(a + b) == Escape(a) + Escape(b)
  {
    if a == "" {
      assert a + b == b;
    } else {
      assert (a + b)[1..] == a[1..] + b;
      EscapeConcat(a[1..], b);
    }
  }

  lemma {:induction false} EscapeAddsNoMarkers(s: string, c: char)
    requires c == '`' || c == '*'
    ensures c in Escape(s) <==> c in s
    ensures s != "" <==> Escape(s) != ""
  {
    if s != "" { EscapeAddsNoMarkers(s[1..], c); }
  }

  // ----- a scan does not look back

  function Moved(m: Span, n: nat): Span {
    Span(n + m.start, n + m.end)
  }

  lemma {:induction false} NextShift(p: string, s: string, c: char, i: nat)
    requires i <= |s|
    ensures NextOf(p + s, c, |p| + i) == |p| + NextOf(s, c, i)
    decreases |s| - i
  {
    if i < |s| && s[i] != c { NextShift(p, s, c, i + 1); }
  }

  lemma MarkerShift(p: string, s: string, t: Tag, i: nat)
    ensures MarkerAt(p + s, t, |p| + i) == MarkerAt(s, t, i)
  {
  }

  // A match starts at n + i in w exactly when one starts at i in s, as long.
  predicate MatchMoved(w: string, n: nat, s: string, t: Tag, i: nat) {
    match MatchEnd(s, t, i)
    case None => MatchEnd(w, t, n + i) == None
    case Some(k) => MatchEnd(w, t, n + i) == Some(n + k)
  }

  lemma MatchShift(p: string, s: string, t: Tag, i: nat)
    ensures MatchMoved(p + s, |p|, s, t, i)
  {
    MarkerShift(p, s, t, i);
    if MarkerAt(s, t, i) {
      NextShift(p, s, MarkerChar(t), i + Width(t));
      MarkerShift(p, s, t, NextOf(s, MarkerChar(t), i + Width(t)));
    }
  }

  lemma {:induction false} FindMoved(w: string, n: nat, s: string, t: Tag, from: nat)
    requires n + |s| == |w| && from <= |s| && forall i: nat :: i <= |s| ==> MatchMoved(w, n, s, t, i)
    ensures Find(w, t, n + from) == match Find(s, t, from) case None => None case Some(m) => Some(Moved(m, n))
    decreases |s| - from
  {
    if from < |s| {
      assert MatchMoved(w, n, s, t, from);
      if MatchEnd(s, t, from).None? { FindMoved(w, n, s, t, from + 1); }
    }
  }

  lemma FindShift(p: string, s: string, t: Tag, from: nat)
    requires from <= |s|
    ensures Find(p + s, t, |p| + from) == match Find(s, t, from) case None => None case Some(m) => Some(Moved(m, |p|))
  {
    forall i: nat | i <= |s| ensures MatchMoved(p + s, |p|, s, t, i) { MatchShift(p, s, t, i); }
    FindMoved(p + s, |p|, s, t, from);
  }

  lemma SliceShift(p: string, s: string, i: nat, j: nat)
    requires i <= j <= |s|
    ensures (p + s)[|p| + i..|p| + j] == s[i..j] && (p + s)[|p| + i..] == s[i..]
  {
  }

  lemma InsideShift(p: string, s: string, t: Tag, m: Span)
    requires m.start + 2 * Width(t) < m.end <= |s|
    ensures Inside(p + s, t, Moved(m, |p|)) == Inside(s, t, m)
  {
    SliceShift(p, s, m.start + Width(t), m.end - Width(t));
  }

  // Scanning w from n + k on goes as scanning s from k on.
  ghost predicate SameAt(w: string, n: nat, s: string, t: Tag, k: nat)
    requires n + |s| == |w| && k <= |s|
  {
    match Find(s, t, k)
    case None => Find(w, t, n + k) == None && w[n + k..] == s[k..]
    case Some(m) =>
      && Find(w, t, n + k) == Some(Moved(m, n))
      && w[n + k..n + m.start] == s[k..m.start] && Inside(w, t, Moved(m, n)) == Inside(s, t, m)
  }

  ghost predicate SameScan(w: string, n: nat, s: string, t: Tag) {
    n + |s| == |w| && forall k: nat :: k <= |s| ==> SameAt(w, n, s, t, k)
  }

  lemma ScanShift(p: string, s: string, t: Tag)
    ensures SameScan(p + s, |p|, s, t)
  {
    forall k: nat | k <= |s| ensures SameAt(p + s, |p|, s, t, k) {
      FindShift(p, s, t, k);
      match Find(s, t, k)
      case None => SliceShift(p, s, k, |s|);
      case Some(m) =>
        SliceShift(p, s, k, m.start);
        InsideShift(p, s, t, m);
    }
  }

  // A scan that rewrites the text between matches and what the matches capture.
  function Rewritten(s: string, t: Tag, from: nat, text: string -> string, found: string -> string): string
    requires from <= |s|
    decreases |s| - from
  {
    match Find(s, t, from)
    case None => text(s[from..])
    case Some(m) => text(s[from..m.start]) + found(Inside(s, t, m)) + Rewritten(s, t, m.end, text, found)
  }

  function Plain(x: string): string {
    x
  }

  function Tagger(t: Tag): string -> string {
    x => Tagged(t, x)
  }

  lemma {:induction false} ReplaceRewrites(s: string, t: Tag, from: nat)
    requires from <= |s|
    ensures Replace(s, t, from) == Rewritten(s, t, from, Plain, Tagger(t))
    decreases |s| - from
  {
    if Find(s, t, from).Some? { ReplaceRewrites(s, t, Find(s, t, from).value.end); }
  }

  lemma {:induction false} RenderRewrites(s: string, last: nat)
    requires last <= |s|
    ensures RenderFrom(s, last) == Rewritten(s, Code, last, ApplyEmphasis, Tagger(Code))
    decreases |s| - last
  {
    if Find(s, Code, last).Some? { RenderRewrites(s, Find(s, Code, last).value.end); }
  }

  lemma {:induction false} RewrittenSame(w: string, n: nat, s: string, t: Tag, from: nat,
                                         text: string -> string, found: string -> string)
    requires SameScan(w, n, s, t) && from <= |s|
    ensures Rewritten(w, t, n + from, text, found) == Rewritten(s, t, from, text, found)
    decreases |s| - from
  {
    assert SameAt(w, n, s, t, from);
    if Find(s, t, from).Some? { RewrittenSame(w, n, s, t, Find(s, t, from).value.end, text, found); }
  }

  // Cutting off the first n characters, when a scan starts after them.
  lemma CutOff(w: string, t: Tag, n: nat, text: string -> string, found: string -> string)
    requires n <= |w|
    ensures Rewritten(w, t, n, text, found) == Rewritten(w[n..], t, 0, text, found)
  {
    assert w[..n] + w[n..] == w;
    ScanShift(w[..n], w[n..], t);
    RewrittenSame(w, n, w[n..], t, 0, text, found);
  }

  // No match of t starts in the first n characters of s.
  ghost predicate Unmatched(s: string, t: Tag, n: nat) {
    forall i: nat :: i < n ==> MatchEnd(s, t, i).None?
  }

  lemma {:induction false} FindSkips(s: string, t: Tag, from: nat, to: nat)
    requires from <= to <= |s| && Unmatched(s, t, to)
    ensures Find(s, t, from) == Find(s, t, to)
    decreases |s| - from
  {
    if from < to { FindSkips(s, t, from + 1, to); }
  }

  // One step of a scan, from its parts.
  lemma RewrittenStep(w: string, t: Tag, k: nat, m: Span, before: string, inner: string,
                      text: string -> string, found: string -> string)
    requires k <= |w| && Find(w, t, k) == Some(m) && w[k..m.start] == before && Inside(w, t, m) == inner
    ensures Rewritten(w, t, k, text, found) == text(before) + found(inner) + Rewritten(w[m.end..], t, 0, text, found)
  {
    CutOff(w, t, m.end, text, found);
  }

  lemma PastSlices(p: string, s: string, i: nat)
    requires i <= |s|
    ensures (p + s)[0..|p| + i] == p + s[0..i] && (p + s)[0..] == p + s[0..] && (p + s)[|p| + i..] == s[i..]
  {
  }

  lemma FourParts(p: string, before: string, inner: string, rest: string)
    ensures (p + before) + inner + rest == p + (before + inner + rest)
  {
  }

  lemma FindPast(p: string, s: string, t: Tag)
    requires Unmatched(p + s, t, |p|)
    ensures Find(p + s, t, 0) == match Find(s, t, 0) case None => None case Some(m) => Some(Moved(m, |p|))
  {
    FindSkips(p + s, t, 0, |p|);
    FindShift(p, s, t, 0);
  }

  // w is s after p, as far as the first match and what follows it go.
  lemma RewrittenPastMatch(w: string, p: string, s: string, t: Tag, n: Span, m: Span, found: string -> string)
    requires Find(s, t, 0) == Some(m) && Find(w, t, 0) == Some(n)
    requires w[0..n.start] == p + s[0..m.start] && Inside(w, t, n) == Inside(s, t, m) && w[n.end..] == s[m.end..]
    ensures Rewritten(w, t, 0, Plain, found) == p + Rewritten(s, t, 0, Plain, found)
  {
    var before, inner, rest := s[0..m.start], Inside(s, t, m), Rewritten(s[m.end..], t, 0, Plain, found);
    RewrittenStep(w, t, 0, n, p + before, inner, Plain, found);
    RewrittenStep(s, t, 0, m, before, inner, Plain, found);
    FourParts(p, before, found(inner), rest);
  }

  // w is s after p, as far as the first match and what follows it go.
  ghost predicate SplitAfter(w: string, p: string, s: string, t: Tag) {
    match Find(s, t, 0)
    case None => Find(w, t, 0) == None && w == p + s
    case Some(m) =>
      var n := Moved(m, |p|);
      && Find(w, t, 0) == Some(n) && n.end <= |w|
      && w[0..n.start] == p + s[0..m.start] && Inside(w, t, n) == Inside(s, t, m) && w[n.end..] == s[m.end..]
  }

  lemma MovedSplits(p: string, s: string, t: Tag, m: Span)
    requires m.start + 2 * Width(t) < m.end <= |s|
    ensures var w, n := p + s, Moved(m, |p|);
      w[0..n.start] == p + s[0..m.start] && Inside(w, t, n) == Inside(s, t, m) && w[n.end..] == s[m.end..]
  {
    PastSlices(p, s, m.start);
    PastSlices(p, s, m.end);
    InsideShift(p, s, t, m);
  }

  lemma UnmatchedSplits(p: string, s: string, t: Tag)
    requires Unmatched(p + s, t, |p|)
    ensures SplitAfter(p + s, p, s, t)
  {
    FindPast(p, s, t);
    if Find(s, t, 0).Some? { MovedSplits(p, s, t, Find(s, t, 0).value); }
  }

  lemma SplitReplace(w: string, p: string, s: string, t: Tag)
    requires SplitAfter(w, p, s, t)
    ensures Replace(w, t, 0) == p + Replace(s, t, 0)
  {
    match Find(s, t, 0)
    case None => assert w[0..] == w && s[0..] == s;
    case Some(m) =>
      ReplaceRewrites(w, t, 0);
      ReplaceRewrites(s, t, 0);
      RewrittenPastMatch(w, p, s, t, Moved(m, |p|), m, Tagger(t));
  }

  // Text that starts no match comes before whatever replacement makes of the rest.
  lemma ReplacePast(p: string, s: string, t: Tag)
    requires Unmatched(p + s, t, |p|)
    ensures Replace(p + s, t, 0) == p + Replace(s, t, 0)
  {
    UnmatchedSplits(p, s, t);
    SplitReplace(p + s, p, s, t);
  }

  lemma StarFreeUnmatched(p: string, s: string, t: Tag)
    requires MarkerChar(t) !in p
    ensures Unmatched(p + s, t, |p|)
  {
    forall i: nat | i < |p| ensures MatchEnd(p + s, t, i).None? { assert (p + s)[i] == p[i]; }
  }

  // The text of s[..n] as a match of t around x.
  ghost predicate Surrounds(w: string, t: Tag, x: string, q: string) {
    var n := Width(t) + |x| + Width(t);
    && x != "" && MarkerChar(t) !in x && n <= |w|
    && MarkerAt(w, t, 0) && w[Width(t)..Width(t) + |x|] == x && MarkerAt(w, t, Width(t) + |x|) && w[n..] == q
  }

  lemma SurroundsMatches(w: string, t: Tag, x: string, q: string)
    requires Surrounds(w, t, x, q)
    ensures var n := Width(t) + |x| + Width(t); MatchEnd(w, t, 0) == Some(n) && Inside(w, t, Span(0, n)) == x
  {
    var n := Width(t) + |x| + Width(t);
    forall k | Width(t) <= k < n - Width(t) ensures w[k] != MarkerChar(t) {
      assert w[k] == w[Width(t)..Width(t) + |x|][k - Width(t)];
    }
    MatchEndIsRight(w, t, 0, n);
  }

  // The replacement of a match that w starts with.
  lemma ReplaceSurrounded(w: string, t: Tag, x: string, q: string)
    requires Surrounds(w, t, x, q)
    ensures Replace(w, t, 0) == Tagged(t, x) + Replace(q, t, 0)
  {
    SurroundsMatches(w, t, x, q);
    ReplaceStarting(w, t, Width(t) + |x| + Width(t), x, q);
  }

  lemma ReplaceStarting(w: string, t: Tag, n: nat, x: string, q: string)
    requires MatchEnd(w, t, 0) == Some(n) && Inside(w, t, Span(0, n)) == x && w[n..] == q
    ensures Replace(w, t, 0) == Tagged(t, x) + Replace(q, t, 0)
  {
    assert Find(w, t, 0) == Some(Span(0, n));
    ReplaceRewrites(w, t, 0);
    ReplaceRewrites(q, t, 0);
    RewrittenStep(w, t, 0, Span(0, n), [], x, Plain, Tagger(t));
    NothingBefore(Tagged(t, x), Rewritten(q, t, 0, Plain, Tagger(t)));
  }

  lemma NothingBefore(x: string, rest: string)
    ensures [] + x + rest == x + rest
  {
  }

  // The replacement of the first match, when nothing before it can start one.
  lemma {:induction false} ReplaceFirst(p: string, w: string, t: Tag, x: string, q: string)
    requires Surrounds(w, t, x, q) && Unmatched(p + w, t, |p|)
    ensures Replace(p + w, t, 0) == p + (Tagged(t, x) + Replace(q, t, 0))
  {
    ReplacePast(p, w, t);
    ReplaceSurrounded(w, t, x, q);
  }

  lemma SurroundSlices(m: string, x: string, q: string)
    ensures var w, n := m + x + m + q, |m|;
      && |w| == n + |x| + n + |q| && w[n..n + |x|] == x && w[n + |x| + n..] == q
      && (forall i :: 0 <= i < n ==> w[i] == m[i] && w[n + |x| + i] == m[i])
  {
  }

  lemma LiteralSurrounds(x: string, q: string)
    requires x != ""
    ensures '*' !in x ==> Surrounds("**" + x + "**" + q, Strong, x, q)
    ensures '*' !in x ==> Surrounds("*" + x + "*" + q, Em, x, q)
    ensures '`' !in x ==> Surrounds("`" + x + "`" + q, Code, x, q)
  {
    SurroundSlices("**", x, q);
    SurroundSlices("*", x, q);
    SurroundSlices("`", x, q);
  }

  // ----- segments of escaped text

  lemma NoMarkersNoMatch(s: string, t: Tag)
    requires MarkerChar(t) !in s
    ensures Find(s, t, 0) == None && Replace(s, t, 0) == s
  {
    if Find(s, t, 0).Some? { FindIsMatch(s, t, 0); }
  }

  lemma TagsAreHtml(x: string)
    ensures Tagged(Strong, x) == "<strong>" + x + "</strong>"
    ensures Tagged(Em, x) == "<em>" + x + "</em>"
    ensures Tagged(Code, x) == "<code>" + x + "</code>"
  {
  }

  lemma EmphasisPlain(s: string)
    requires '*' !in s
    ensures ApplyEmphasis(s) == s
  {
    NoMarkersNoMatch(s, Strong);
    NoMarkersNoMatch(s, Em);
  }

  lemma EmphasisBold(p: string, x: string, q: string)
    requires '*' !in p && '*' !in x && x != ""
    ensures ApplyEmphasis(p + ("**" + x + "**" + q)) == p + Tagged(Strong, x) + ApplyEmphasis(q)
  {
    var w, r := "**" + x + "**" + q, Replace(q, Strong, 0);
    LiteralSurrounds(x, q);
    StarFreeUnmatched(p, w, Strong);
    ReplaceFirst(p, w, Strong, x, q);
    BoldStays(p, x, r);
  }

  // The italic pass goes by a bold element.
  lemma BoldStays(p: string, x: string, r: string)
    requires '*' !in p && '*' !in x
    ensures Replace(p + (Tagged(Strong, x) + r), Em, 0) == p + Tagged(Strong, x) + Replace(r, Em, 0)
  {
    var pre := p + Tagged(Strong, x);
    assert p + (Tagged(Strong, x) + r) == pre + r;
    StarFreeUnmatched(pre, r, Em);
    ReplacePast(pre, r, Em);
  }

  // No bold match starts in "p*x*" when the next character is no asterisk.
  lemma SingleStars(p: string, x: string, q: string)
    requires '*' !in p && '*' !in x && x != "" && (q != "" ==> q[0] != '*')
    ensures var pre := p + "*" + x + "*"; Unmatched(pre + q, Strong, |pre|)
  {
    var pre := p + "*" + x + "*";
    var w := pre + q;
    forall i: nat | i < |pre| ensures !MarkerAt(w, Strong, i) {
      if i < |p| {
        assert w[i] == p[i];
      } else if i == |p| {
        assert w[i + 1] == x[0];
      } else if i < |pre| - 1 {
        assert w[i] == x[i - |p| - 1];
      }
    }
  }

  lemma Regroup(p: string, m: string, x: string, q: string)
    ensures p + (m + x + m + q) == (p + m + x + m) + q
  {
  }

  // The bold pass goes by "p*x*".
  lemma ItalicStays(p: string, x: string, q: string)
    requires '*' !in p && '*' !in x && x != "" && (q != "" ==> q[0] != '*')
    ensures Replace(p + ("*" + x + "*" + q), Strong, 0) == p + ("*" + x + "*" + Replace(q, Strong, 0))
  {
    SingleStars(p, x, q);
    ReplacePast(p + "*" + x + "*", q, Strong);
    Regroup(p, "*", x, q);
    Regroup(p, "*", x, Replace(q, Strong, 0));
  }

  lemma EmphasisItalic(p: string, x: string, q: string)
    requires '*' !in p && '*' !in x && x != "" && (q != "" ==> q[0] != '*')
    ensures ApplyEmphasis(p + ("*" + x + "*" + q)) == p + Tagged(Em, x) + ApplyEmphasis(q)
  {
    ItalicStays(p, x, q);
    ItalicFirst(p, x, Replace(q, Strong, 0));
  }

  lemma ItalicFirst(p: string, x: string, r: string)
    requires '*' !in p && '*' !in x && x != ""
    ensures Replace(p + ("*" + x + "*" + r), Em, 0) == p + Tagged(Em, x) + Replace(r, Em, 0)
  {
    LiteralSurrounds(x, r);
    StarFreeUnmatched(p, "*" + x + "*" + r, Em);
    ReplaceFirst(p, "*" + x + "*" + r, Em, x, r);
  }

  lemma {:induction false} RenderPlain(s: string)
    requires '`' !in s
    ensures RenderFrom(s, 0) == ApplyEmphasis(s)
  {
    NoMarkersNoMatch(s, Code);
    assert s[0..] == s;
  }

  // The first code match of s is around x, with p before it and q after it.
  ghost predicate FirstCode(s: string, p: string, x: string, q: string) {
    var m := Find(s, Code, 0);
    m.Some? && s[0..m.value.start] == p && Inside(s, Code, m.value) == x && s[m.value.end..] == q
  }

  lemma CodeFound(p: string, x: string, q: string)
    requires '`' !in p && '`' !in x && x != ""
    ensures FirstCode(p + ("`" + x + "`" + q), p, x, q)
  {
    var w, n := "`" + x + "`" + q, 1 + |x| + 1;
    LiteralSurrounds(x, q);
    SurroundsMatches(w, Code, x, q);
    assert Find(w, Code, 0) == Some(Span(0, n));
    StarFreeUnmatched(p, w, Code);
    FindPast(p, w, Code);
    CodeSlices(p, w, n, q);
    InsideShift(p, w, Code, Span(0, n));
  }

  lemma RenderFirst(s: string, p: string, x: string, q: string)
    requires FirstCode(s, p, x, q)
    ensures RenderFrom(s, 0) == ApplyEmphasis(p) + Tagged(Code, x) + RenderFrom(q, 0)
  {
    RenderRewrites(s, 0);
    RenderRewrites(q, 0);
    RewrittenStep(s, Code, 0, Find(s, Code, 0).value, p, x, ApplyEmphasis, Tagger(Code));
  }

  lemma {:induction false} RenderCode(p: string, x: string, q: string)
    requires '`' !in p && '`' !in x && x != ""
    ensures RenderFrom(p + ("`" + x + "`" + q), 0) == ApplyEmphasis(p) + Tagged(Code, x) + RenderFrom(q, 0)
  {
    CodeFound(p, x, q);
    RenderFirst(p + ("`" + x + "`" + q), p, x, q);
  }

  lemma CodeSlices(p: string, w: string, n: nat, q: string)
    requires n <= |w| && w[n..] == q
    ensures (p + w)[0..|p|] == p && (p + w)[|p| + n..] == q
  {
  }

  // ----- whole inputs

  predicate NoMarkers(s: string) {
    '`' !in s && '*' !in s
  }

  lemma EscapeNoMarkers(s: string)
    ensures '`' in Escape(s) <==> '`' in s
    ensures '*' in Escape(s) <==> '*' in s
    ensures s != "" <==> Escape(s) != ""
  {
    EscapeAddsNoMarkers(s, '`');
    EscapeAddsNoMarkers(s, '*');
  }

  lemma {:induction false} EscapeKeepsFirst(s: string)
    requires s != "" && s[0] != '*'
    ensures Escape(s)[0] != '*'
  {
  }

  lemma EscapeMarker(m: string)
    requires m == "`" || m == "*" || m == "**"
    ensures Escape(m) == m
  {
    assert "**" == "*" + "*";
    EscapeConcat("*", "*");
    EscapeOne('*');
    EscapeOne('`');
  }

  lemma EscapeParts(m: string, p: string, x: string, q: string)
    requires m == "`" || m == "*" || m == "**"
    ensures Escape(p + (m + x + m + q)) == Escape(p) + (m + Escape(x) + m + Escape(q))
  {
    EscapeMarker(m);
    EscapeConcat(p, m + x + m + q);
    EscapeConcat(m + x + m, q);
    EscapeConcat(m + x, m);
    EscapeConcat(m, x);
  }

  /** Text without markers is only escaped. */
  lemma PlainHtml(s: string)
    requires NoMarkers(s)
    ensures Render(s) == Escape(s)
  {
    EscapeNoMarkers(s);
    RenderPlain(Escape(s));
    EmphasisPlain(Escape(s));
  }

  /** Text between the first two backticks becomes a code element that holds it
      escaped and otherwise as it is; what is before and after is rendered on
      its own. */
  lemma CodeHtml(p: string, x: string, q: string)
    requires '`' !in p && '`' !in x && x != ""
    ensures Render(p + ("`" + x + "`" + q)) == Render(p) + ("<code>" + Escape(x) + "</code>") + Render(q)
  {
    EscapeParts("`", p, x, q);
    EscapeNoMarkers(p);
    EscapeNoMarkers(x);
    RenderCode(Escape(p), Escape(x), Escape(q));
    RenderPlain(Escape(p));
    TagsAreHtml(Escape(x));
  }

  /** Text between the first two double asterisks becomes a strong element. */
  lemma {:induction false} BoldHtml(p: string, x: string, q: string)
    requires NoMarkers(p) && NoMarkers(x) && x != "" && '`' !in q
    ensures Render(p + ("**" + x + "**" + q)) == Escape(p) + ("<strong>" + Escape(x) + "</strong>") + Render(q)
  {
    EscapeParts("**", p, x, q);
    EscapeNoMarkers(p);
    EscapeNoMarkers(x);
    EscapeNoMarkers(q);
    BacktickFree("**", Escape(p), Escape(x), Escape(q));
    RenderPlain(Escape(p) + ("**" + Escape(x) + "**" + Escape(q)));
    RenderPlain(Escape(q));
    EmphasisBold(Escape(p), Escape(x), Escape(q));
    TagsAreHtml(Escape(x));
  }

  lemma BacktickFree(m: string, p: string, x: string, q: string)
    requires '`' !in m && '`' !in p && '`' !in x && '`' !in q
    ensures '`' !in p + (m + x + m + q)
  {
  }

  /** Text between the first two single asterisks becomes an em element. */
  lemma ItalicHtml(p: string, x: string, q: string)
    requires NoMarkers(p) && NoMarkers(x) && x != "" && '`' !in q && (q != "" ==> q[0] != '*')
    ensures Render(p + ("*" + x + "*" + q)) == Escape(p) + ("<em>" + Escape(x) + "</em>") + Render(q)
  {
    EscapeParts("*", p, x, q);
    EscapeNoMarkers(p);
    EscapeNoMarkers(x);
    EscapeNoMarkers(q);
    if q != "" { EscapeKeepsFirst(q); }
    BacktickFree("*", Escape(p), Escape(x), Escape(q));
    RenderPlain(Escape(p) + ("*" + Escape(x) + "*" + Escape(q)));
    RenderPlain(Escape(q));
    EmphasisItalic(Escape(p), Escape(x), Escape(q));
    TagsAreHtml(Escape(x));
  }

  /** Bold inside italic: a strong element inside an em element. */
  lemma NestedHtml(a: string, b: string, c: string)
    requires NoMarkers(a) && NoMarkers(b) && NoMarkers(c) && a != "" && b != ""
    ensures Render("*" + a + ("**" + b + "**" + (c + "*"))) ==
      "<em>" + (Escape(a) + ("<strong>" + Escape(b) + "</strong>") + Escape(c)) + "</em>"
  {
    EscapeNested(a, b, c);
    EscapeNoMarkers(a);
    EscapeNoMarkers(b);
    EscapeNoMarkers(c);
    RenderNested(Escape(a), Escape(b), Escape(c));
  }

  lemma {:induction false} RenderNested(a: string, b: string, c: string)
    requires NoMarkers(a) && NoMarkers(b) && NoMarkers(c) && a != "" && b != ""
    ensures RenderFrom("*" + a + ("**" + b + "**" + (c + "*")), 0) ==
      "<em>" + (a + ("<strong>" + b + "</strong>") + c) + "</em>"
  {
    BacktickFree("**", "*" + a, b, c + "*");
    RenderPlain("*" + a + ("**" + b + "**" + (c + "*")));
    EmphasisNested(a, b, c);
    TagsAreHtml(b);
    TagsAreHtml(a + Tagged(Strong, b) + c);
  }

  lemma EscapeNested(a: string, b: string, c: string)
    ensures Escape("*" + a + ("**" + b + "**" + (c + "*"))) == "*" + Escape(a) + ("**" + Escape(b) + "**" + (Escape(c) + "*"))
  {
    EscapeParts("**", "*" + a, b, c + "*");
    EscapeMarker("*");
    EscapeConcat("*", a);
    EscapeConcat(c, "*");
  }

  lemma EmphasisNested(a: string, b: string, c: string)
    requires '*' !in a && '*' !in b && '*' !in c && a != "" && b != ""
    ensures ApplyEmphasis("*" + a + ("**" + b + "**" + (c + "*"))) == Tagged(Em, a + Tagged(Strong, b) + c)
  {
    BoldInItalic(a, b, c);
    NoStarsNested(a, b, c);
    ItalicAlone(a + Tagged(Strong, b) + c);
  }

  lemma NoStarsNested(a: string, b: string, c: string)
    requires '*' !in a && '*' !in b && '*' !in c && a != ""
    ensures var x := a + Tagged(Strong, b) + c; '*' !in x && x != ""
  {
  }

  lemma ItalicAlone(x: string)
    requires '*' !in x && x != ""
    ensures Replace("*" + x + "*", Em, 0) == Tagged(Em, x)
  {
    assert "*" + x + "*" + "" == "*" + x + "*";
    LiteralSurrounds(x, "");
    ReplaceSurrounded("*" + x + "*", Em, x, "");
    assert Tagged(Em, x) + "" == Tagged(Em, x);
  }

  lemma {:induction false} BoldInItalic(a: string, b: string, c: string)
    requires '*' !in a && '*' !in b && '*' !in c && a != "" && b != ""
    ensures Replace("*" + a + ("**" + b + "**" + (c + "*")), Strong, 0) == "*" + (a + Tagged(Strong, b) + c) + "*"
  {
    var w := "**" + b + "**" + (c + "*");
    LiteralSurrounds(b, c + "*");
    OneStarUnmatched(a, w);
    ReplaceFirst("*" + a, w, Strong, b, c + "*");
    StarAtEnd(c);
    RegroupNested("*", a, Tagged(Strong, b), c);
  }

  lemma RegroupNested(m: string, a: string, b: string, c: string)
    ensures (m + a) + (b + (c + m)) == m + (a + b + c) + m
  {
  }

  lemma OneStarUnmatched(a: string, w: string)
    requires '*' !in a && a != ""
    ensures Unmatched("*" + a + w, Strong, |"*" + a|)
  {
    var s := "*" + a + w;
    forall i: nat | i < 1 + |a| ensures !MarkerAt(s, Strong, i) {
      if i == 0 { assert s[1] == a[0]; } else { assert s[i] == a[i - 1]; }
    }
  }

  lemma StarAtEnd(c: string)
    requires '*' !in c
    ensures Replace(c + "*", Strong, 0) == c + "*"
  {
    var s := c + "*";
    if Find(s, Strong, 0).Some? { FindIsMatch(s, Strong, 0); }
    assert s[0..] == s;
  }
}
