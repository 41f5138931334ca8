/**
  The inline-markdown renderer of the text overlays (pkg/onscreens-server/markdown.go).

  The three regular expressions share one shape: a marker, one or more
  characters other than the marker's character, and the marker again.
*/
module InlineMarkdown {
  import opened Wrappers

  datatype Tag = Code | Strong | Em

  function Marker(t: Tag): string {
    match t case Code => "`" case Strong => "**" case Em => "*"
  }

  function MarkerChar(t: Tag): char {
    if t == Code then '`' else '*'
  }

  function OpenTag(t: Tag): string {
    match t case Code => "<code>" case Strong => "<strong>" case Em => "<em>"
  }

  function CloseTag(t: Tag): string {
    match t case Code => "</code>" case Strong => "</strong>" case Em => "</em>"
  }

  // ----- HTML escaping

  function EscapeChar(c: char): string {
    if c == '&' then "&amp;" else if c == '\'' then "&#39;" else if c == '<' then "&lt;"
    else if c == '>' then "&gt;" else if c == '\"' then "&#34;" else [c]
  }

  function Escape(s: string): string {
    if s == "" then "" else EscapeChar(s[0]) + Escape(s[1..])
  }

  // The inverse, for the five entities that Escape emits.
  function Unescape(s: string): string {
    if s == "" then ""
    else if s[0] != '&' then [s[0]] + Unescape(s[1..])
    else if "&amp;" <= s then ['&'] + Unescape(s[5..])
    else if "&#39;" <= s then ['\''] + Unescape(s[5..])
    else if "&lt;" <= s then ['<'] + Unescape(s[4..])
    else if "&gt;" <= s then ['>'] + Unescape(s[4..])
    else if "&#34;" <= s then ['\"'] + Unescape(s[5..])
    else [s[0]] + Unescape(s[1..])
  }

  // ----- the patterns

  // A match s[start..end], markers included.
  datatype Span = Span(start: nat, end: nat)

  function Width(t: Tag): nat {
    if t == Strong then 2 else 1
  }

  // t's marker stands at position i of s.
  predicate MarkerAt(s: string, t: Tag, i: nat) {
    i + Width(t) <= |s| && s[i] == MarkerChar(t) && s[i + Width(t) - 1] == MarkerChar(t)
  }

  lemma MarkerAtIsMarker(s: string, t: Tag, i: nat)
    ensures Width(t) == |Marker(t)|
    ensures MarkerAt(s, t, i) <==> i + Width(t) <= |s| && s[i..i + Width(t)] == Marker(t)
  {
  }

  // s[i..j] is a whole match of t's pattern.
  ghost predicate IsMatch(s: string, t: Tag, i: nat, j: nat) {
    var w := Width(t);
    && i + 2 * w < j <= |s| && MarkerAt(s, t, i) && MarkerAt(s, t, j - w)
    && forall k :: i + w <= k < j - w ==> s[k] != MarkerChar(t)
  }

  function NextOf(s: string, c: char, i: nat): (k: nat)
    requires i <= |s|
    ensures i <= k <= |s| && (k < |s| ==> s[k] == c)
    ensures forall m :: i <= m < k ==> s[m] != c
    decreases |s| - i
  {
    if i == |s| || s[i] == c then i else NextOf(s, c, i + 1)
  }

  // The end of the match that starts at i, if one does.
  function MatchEnd(s: string, t: Tag, i: nat): (r: Option<nat>)
    ensures r.Some? ==> i + 2 * Width(t) < r.value <= |s|
  {
    if MarkerAt(s, t, i) then
      var k := NextOf(s, MarkerChar(t), i + Width(t));
      if i + Width(t) < k && MarkerAt(s, t, k) then Some(k + Width(t)) else None
    else None
  }

  // A match can only end with the first marker character after its opening.
  lemma MatchEndIsRight(s: string, t: Tag, i: nat, j: nat)
    ensures MatchEnd(s, t, i) == Some(j) <==> IsMatch(s, t, i, j)
  {
  }

  // The leftmost match at or after `from`.
  function Find(s: string, t: Tag, from: nat): (r: Option<Span>)
    requires from <= |s|
    ensures r.Some? ==> from <= r.value.start && r.value.start + 2 * Width(t) < r.value.end <= |s|
    decreases |s| - from
  {
    if from == |s| then None
    else
      match MatchEnd(s, t, from)
      case Some(j) => Some(Span(from, j))
      case None => Find(s, t, from + 1)
  }

  lemma {:induction false} FindIsMatch(s: string, t: Tag, from: nat)
    requires from <= |s| && Find(s, t, from).Some?
    ensures var m := Find(s, t, from).value; from <= m.start && IsMatch(s, t, m.start, m.end)
    decreases |s| - from
  {
    match MatchEnd(s, t, from)
    case Some(j) => MatchEndIsRight(s, t, from, j);
    case None => FindIsMatch(s, t, from + 1);
  }

  /** No match starts before the one the scanner returns, and when it returns
      none there is no match at all. */
  lemma {:induction false} FindIsLeftmost(s: string, t: Tag, from: nat, i: nat, j: nat)
    requires from <= i <= |s| && IsMatch(s, t, i, j)
    ensures Find(s, t, from).Some? && (Find(s, t, from).value.start < i || Find(s, t, from).value == Span(i, j))
    decreases i - from
  {
    if from < i {
      FindIsLeftmost(s, t, from + 1, i, j);
    } else {
      MatchEndIsRight(s, t, i, j);
    }
  }

  // FindAllStringSubmatchIndex: successive leftmost matches, each after the last.
  function FindAll(s: string, t: Tag, from: nat): (r: seq<Span>)
    requires from <= |s|
    ensures forall k :: 0 <= k < |r| ==> r[k].start + 2 * Width(t) < r[k].end <= |s|
    decreases |s| - from
  {
    match Find(s, t, from)
    case None => []
    case Some(m) => [m] + FindAll(s, t, m.end)
  }

  lemma FindAllStep(s: string, t: Tag, from: nat)
    requires from <= |s| && FindAll(s, t, from) != []
    ensures var ms := FindAll(s, t, from); Find(s, t, from) == Some(ms[0]) && ms[1..] == FindAll(s, t, ms[0].end)
  {
  }

  /** The successive matches are in order and disjoint. */
  lemma {:induction false} FindAllInOrder(s: string, t: Tag, from: nat, k: nat)
    requires from <= |s| && k < |FindAll(s, t, from)|
    ensures var ms := FindAll(s, t, from);
      IsMatch(s, t, ms[k].start, ms[k].end) && (if k == 0 then from else ms[k - 1].end) <= ms[k].start
    decreases k
  {
    FindIsMatch(s, t, from);
    if k > 0 {
      var m := Find(s, t, from).value;
      FindAllInOrder(s, t, m.end, k - 1);
    }
  }

  /** They are all the matches there are: a match that is not taken starts inside
      one that is. */
  lemma {:induction false} FindAllTakesEverything(s: string, t: Tag, from: nat, i: nat, j: nat) returns (k: nat)
    requires from <= i <= |s| && IsMatch(s, t, i, j)
    ensures var ms := FindAll(s, t, from); k < |ms| && ms[k].start <= i < ms[k].end
    decreases |s| - from
  {
    FindIsLeftmost(s, t, from, i, j);
    var m := Find(s, t, from).value;
    if i < m.end {
      k := 0;
    } else {
      k := FindAllTakesEverything(s, t, m.end, i, j);
      k := k + 1;
    }
  }

  // The text that a match captures.
  function Inside(s: string, t: Tag, m: Span): string
    requires m.start + 2 * Width(t) < m.end <= |s|
  {
    s[m.start + Width(t)..m.end - Width(t)]
  }

  function Tagged(t: Tag, inner: string): string {
    OpenTag(t) + inner + CloseTag(t)
  }

  // One replaced match, and the text between it and position `from`.
  function Replaced(s: string, t: Tag, from: nat, m: Span): string
    requires from <= m.start && m.start + 2 * Width(t) < m.end <= |s|
  {
    s[from..m.start] + Tagged(t, Inside(s, t, m))
  }

  // ReplaceAllString(s[from..], open + "$1" + close).
  function Replace(s: string, t: Tag, from: nat): string
    requires from <= |s|
    decreases |s| - from
  {
    match Find(s, t, from)
    case None => s[from..]
    case Some(m) => Replaced(s, t, from, m) + Replace(s, t, m.end)
  }

  // ----- the renderer

  // Bold before italic, so that doubled markers are not eaten as italics.
  function ApplyEmphasis(s: string): string {
    Replace(Replace(s, Strong, 0), Em, 0)
  }

  // One code span, and the emphasized text between it and the one before.
  function RenderSpan(s: string, last: nat, m: Span): string
    requires last <= m.start && m.start + 2 * Width(Code) < m.end <= |s|
  {
    ApplyEmphasis(s[last..m.start]) + Tagged(Code, Inside(s, Code, m))
  }

  // What is rendered from an escaped string, from position `last` on.
  function RenderFrom(s: string, last: nat): string
    requires last <= |s|
    decreases |s| - last
  {
    match Find(s, Code, last)
    case None => ApplyEmphasis(s[last..])
    case Some(m) => RenderSpan(s, last, m) + RenderFrom(s, m.end)
  }

  function Render(s: string): string {
    RenderFrom(Escape(s), 0)
  }

  lemma Associate(a: string, b: string, c: string)
    ensures a + (b + c) == (a + b) + c
  {
  }

  method RenderInlineMarkdown(input: string) returns (out: string)
    ensures out == Render(input)
  {
    var s := Escape(input);
    var matches := FindAll(s, Code, 0);
    out := "";
    var last: nat := 0;
    for k := 0 to |matches|
      invariant last <= |s| && matches[k..] == FindAll(s, Code, last)
      invariant out + RenderFrom(s, last) == Render(input)
    {
      var m := matches[k];
      assert matches[k..][0] == m && matches[k..][1..] == matches[k + 1..];
      FindAllStep(s, Code, last);
      Associate(out, RenderSpan(s, last, m), RenderFrom(s, m.end));
      out := out + RenderSpan(s, last, m);
      last := m.end;
    }
    out := out + ApplyEmphasis(s[last..]);
  }
}
