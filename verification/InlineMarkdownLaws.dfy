/** What the overlay renderer guarantees about its HTML, for every input. */
module InlineMarkdownLaws {
  import opened Wrappers
  import opened InlineMarkdown

  // ----- reading HTML back

  datatype Token = Text(c: char) | Open(tag: Tag) | Close(tag: Tag)

  function Spelling(k: Token): (s: string)
    ensures s != ""
  {
    match k case Text(c) => [c] case Open(t) => OpenTag(t) case Close(t) => CloseTag(t)
  }

  ghost predicate TagAt(s: string, k: Token) {
    !k.Text? && Spelling(k) <= s
  }

  // The emitted tag that s starts with, or else its first character.
  ghost function First(s: string): (k: Token)
    requires s != ""
    ensures Spelling(k) <= s
  {
    if exists k :: TagAt(s, k) then (var k :| TagAt(s, k); k) else Text(s[0])
  }

  ghost function Lex(s: string): seq<Token> {
    if s == "" then [] else [First(s)] + Lex(Rest(s))
  }

  function Texts(s: string): seq<Token> {
    seq(|s|, i requires 0 <= i < |s| => Text(s[i]))
  }

  // Every '<' and '>' belongs to an emitted tag.
  predicate Clean(ks: seq<Token>) {
    Text('<') !in ks && Text('>') !in ks
  }

  // Each tag turned back into its marker.
  function Source(ks: seq<Token>): string {
    if ks == [] then ""
    else (match ks[0] case Text(c) => [c] case Open(t) => Marker(t) case Close(t) => Marker(t)) + Source(ks[1..])
  }

  // Each tag deleted.
  function Strip(ks: seq<Token>): string {
    if ks == [] then "" else (if ks[0].Text? then [ks[0].c] else "") + Strip(ks[1..])
  }

  // An element may open at the top level, and a strong element inside an em.
  predicate MayOpen(stack: seq<Tag>, t: Tag) {
    stack == [] || (stack == [Em] && t == Strong)
  }

  // The open elements after reading ks, or None if a tag is misplaced.
  function Nest(stack: seq<Tag>, ks: seq<Token>): Option<seq<Tag>>
    decreases |ks|
  {
    if ks == [] then Some(stack)
    else
      match ks[0]
      case Text(_) => Nest(stack, ks[1..])
      case Open(t) => if MayOpen(stack, t) then Nest(stack + [t], ks[1..]) else None
      case Close(t) =>
        if stack != [] && stack[|stack| - 1] == t then Nest(stack[..|stack| - 1], ks[1..]) else None
  }

  ghost predicate WellNested(ks: seq<Token>) {
    Nest([], ks) == Some([])
  }

  // ----- the reader and concatenation

  // No emitted tag is a prefix of another.
  lemma TagUnique(s: string, a: Token, b: Token)
    requires TagAt(s, a) && TagAt(s, b)
    ensures a == b
  {
    assert s[1] == Spelling(a)[1] == Spelling(b)[1];
    assert s[2] == Spelling(a)[2] == Spelling(b)[2];
  }

  lemma FirstIs(s: string, k: Token)
    requires TagAt(s, k)
    ensures First(s) == k
  {
    TagUnique(s, First(s), k);
  }

  lemma TagShape(k: Token)
    requires !k.Text?
    ensures Spelling(k)[0] == '<' && '*' !in Spelling(k)
  {
  }

  lemma FirstStable(x: string, y: string)
    requires x != "" && First(x) != Text('<')
    ensures First(x + y) == First(x)
  {
    if k :| TagAt(x, k) {
      FirstIs(x, k);
      FirstIs(x + y, k);
    } else {
      forall k | TagAt(x + y, k) ensures false { TagShape(k); }
    }
  }

  ghost function Rest(s: string): (r: string)
    requires s != ""
    ensures |r| < |s|
  {
    s[|Spelling(First(s))|..]
  }

  lemma RestConcat(x: string, t: string)
    requires x != "" && First(x + t) == First(x)
    ensures Rest(x + t) == Rest(x) + t
  {
  }

  lemma ConsAssociates(k: Token, a: seq<Token>, b: seq<Token>)
    ensures [k] + (a + b) == ([k] + a) + b
  {
  }

  // One step of reading x in front of t, whose reading adds u.
  lemma LexPrepend(x: string, t: string, u: seq<Token>)
    requires x != "" && First(x + t) == First(x) && Lex(Rest(x) + t) == Lex(Rest(x)) + u
    ensures Lex(x + t) == Lex(x) + u
  {
    RestConcat(x, t);
    ConsAssociates(First(x), Lex(Rest(x)), u);
  }

  lemma {:induction false} LexConcat(x: string, y: string)
    requires Text('<') !in Lex(x)
    ensures Lex(x + y) == Lex(x) + Lex(y)
  {
    if x == "" {
      assert x + y == y;
    } else {
      assert Lex(x)[0] == First(x);
      FirstStable(x, y);
      LexConcat(Rest(x), y);
      LexPrepend(x, y, Lex(y));
    }
  }

  lemma {:induction false} LexText(s: string)
    requires '<' !in s
    ensures Lex(s) == Texts(s)
  {
    if s != "" {
      forall k | TagAt(s, k) ensures false { TagShape(k); }
      LexText(s[1..]);
      assert Texts(s) == [Text(s[0])] + Texts(s[1..]);
    }
  }

  // No tag contains an asterisk, so an asterisk always splits the reading.
  lemma {:induction false} LexSplit(x: string, y: string)
    ensures Lex(x + ("*" + y)) == Lex(x) + ([Text('*')] + Lex(y))
  {
    var t := "*" + y;
    if x == "" {
      LexStar(y);
      assert x + t == t;
    } else {
      StarOutsideTags(x, t);
      LexSplit(Rest(x), y);
      LexPrepend(x, t, [Text('*')] + Lex(y));
    }
  }

  lemma LexStar(y: string)
    ensures Lex("*" + y) == [Text('*')] + Lex(y)
  {
  }

  lemma StarOutsideTags(x: string, t: string)
    requires x != "" && t != "" && t[0] == '*'
    ensures First(x + t) == First(x)
  {
    var s := x + t;
    if k :| TagAt(s, k) {
      TagShape(k);
      assert s[|x|] == '*';
      assert |Spelling(k)| <= |x|;
      FirstIs(s, k);
      FirstIs(x, k);
    } else {
      forall k | TagAt(x, k) ensures false { assert TagAt(s, k); }
    }
  }

  lemma {:induction false} SourceConcat(a: seq<Token>, b: seq<Token>)
    ensures Source(a + b) == Source(a) + Source(b)
  {
    if a == [] {
      assert a + b == b;
    } else {
      assert (a + b)[1..] == a[1..] + b;
      SourceConcat(a[1..], b);
    }
  }

  lemma {:induction false} NestConcat(stack: seq<Tag>, a: seq<Token>, b: seq<Token>)
    requires Nest(stack, a).Some?
    ensures Nest(stack, a + b) == Nest(Nest(stack, a).value, b)
    decreases |a|
  {
    if a == [] {
      assert a + b == b;
    } else {
      assert (a + b)[1..] == a[1..] + b;
      match a[0]
      case Text(_) => NestConcat(stack, a[1..], b);
      case Open(t) => NestConcat(stack + [t], a[1..], b);
      case Close(_) => NestConcat(stack[..|stack| - 1], a[1..], b);
    }
  }

  // ----- one element of the output

  // The reading of an element with `a` before it and `rest` after it.
  function Element(a: seq<Token>, t: Tag, inner: seq<Token>, rest: seq<Token>): seq<Token> {
    a + ([Open(t)] + (inner + ([Close(t)] + rest)))
  }

  // The reading of the markers that the element replaced.
  function Marked(a: seq<Token>, t: Tag, inner: seq<Token>, rest: seq<Token>): seq<Token> {
    a + (Texts(Marker(t)) + (inner + (Texts(Marker(t)) + rest)))
  }

  // One tag read in front of y.
  lemma LexCons(k: Token, y: string)
    requires !k.Text?
    ensures Lex(Spelling(k) + y) == [k] + Lex(y)
  {
    var s := Spelling(k) + y;
    FirstIs(s, k);
    assert Rest(s) == y;
  }

  lemma RightNested<T>(a: seq<T>, b: seq<T>, c: seq<T>, d: seq<T>, e: seq<T>)
    ensures a + (b + c + d) + e == a + (b + (c + (d + e)))
  {
  }

  lemma LexElement(a: string, t: Tag, inner: string, rest: string)
    requires Text('<') !in Lex(a) && Text('<') !in Lex(inner)
    ensures Lex(a + Tagged(t, inner) + rest) == Element(Lex(a), t, Lex(inner), Lex(rest))
  {
    var open, close := Spelling(Open(t)), Spelling(Close(t));
    RightNested(a, open, inner, close, rest);
    LexConcat(a, open + (inner + (close + rest)));
    LexCons(Open(t), inner + (close + rest));
    LexConcat(inner, close + rest);
    LexCons(Close(t), rest);
  }

  lemma TwoStars(y: string, rest: seq<Token>)
    ensures "**" + y == "*" + ("*" + y)
    ensures Texts("**") + rest == [Text('*')] + ([Text('*')] + rest)
  {
    assert Texts("**") == [Text('*'), Text('*')];
  }

  lemma LexTwoStars(x: string, y: string)
    ensures Lex(x + ("**" + y)) == Lex(x) + (Texts("**") + Lex(y))
  {
    TwoStars(y, Lex(y));
    LexSplit(x, "*" + y);
    LexStar(y);
  }

  lemma LexMarker(t: Tag, x: string, y: string)
    requires t != Code
    ensures Lex(x + (Marker(t) + y)) == Lex(x) + (Texts(Marker(t)) + Lex(y))
  {
    if t == Em {
      LexSplit(x, y);
      assert [Text('*')] == Texts("*");
    } else {
      LexTwoStars(x, y);
    }
  }

  lemma {:induction false} LexMarked(a: string, t: Tag, inner: string, rest: string)
    requires t != Code
    ensures Lex(a + (Marker(t) + (inner + (Marker(t) + rest)))) == Marked(Lex(a), t, Lex(inner), Lex(rest))
  {
    LexMarker(t, a, inner + (Marker(t) + rest));
    LexMarker(t, inner, rest);
  }

  lemma Cut(s: string, i: nat, j: nat)
    requires i <= j <= |s|
    ensures s[i..] == s[i..j] + s[j..]
  {
  }

  lemma {:induction false} CutAround(s: string, m: string, w: nat, from: nat, i: nat, j: nat)
    requires |m| == w && from <= i && i + w <= j - w && j <= |s|
    requires s[i..i + w] == m && s[j - w..j] == m
    ensures s[from..] == s[from..i] + (m + (s[i + w..j - w] + (m + s[j..])))
  {
    Cut(s, j - w, j);
    Cut(s, i + w, j - w);
    assert s[i + w..] == s[i + w..j - w] + (m + s[j..]);
    Cut(s, i, i + w);
    Cut(s, from, i);
  }

  lemma MatchInside(s: string, t: Tag, m: Span)
    requires IsMatch(s, t, m.start, m.end)
    ensures MarkerChar(t) !in Inside(s, t, m)
  {
  }

  // The parts that a match cuts s[from..] into.
  lemma MatchCut(s: string, t: Tag, from: nat, m: Span)
    requires from <= m.start && IsMatch(s, t, m.start, m.end)
    ensures s[from..] == s[from..m.start] + (Marker(t) + (Inside(s, t, m) + (Marker(t) + s[m.end..])))
  {
    MarkerAtIsMarker(s, t, m.start);
    MarkerAtIsMarker(s, t, m.end - Width(t));
    CutAround(s, Marker(t), Width(t), from, m.start, m.end);
  }

  lemma MatchParts(s: string, t: Tag, from: nat, m: Span)
    requires from <= m.start && IsMatch(s, t, m.start, m.end)
    ensures s[from..] == s[from..m.start] + (Marker(t) + (Inside(s, t, m) + (Marker(t) + s[m.end..])))
    ensures MarkerChar(t) !in Inside(s, t, m)
  {
    MatchInside(s, t, m);
    MatchCut(s, t, from, m);
  }

  lemma CleanMarked(a: seq<Token>, t: Tag, inner: seq<Token>, rest: seq<Token>)
    ensures Clean(Marked(a, t, inner, rest)) <==> Clean(a) && Clean(inner) && Clean(rest)
    ensures Clean(Element(a, t, inner, rest)) <==> Clean(a) && Clean(inner) && Clean(rest)
  {
  }

  // ----- text preservation

  lemma {:induction false} SourceTexts(s: string)
    ensures Source(Texts(s)) == s
  {
    if s != "" {
      assert Texts(s)[1..] == Texts(s[1..]);
      SourceTexts(s[1..]);
    }
  }

  lemma SourceElement(a: seq<Token>, t: Tag, inner: seq<Token>, rest: seq<Token>)
    ensures Source(Element(a, t, inner, rest)) == Source(a) + (Marker(t) + (Source(inner) + (Marker(t) + Source(rest))))
    ensures Source(Marked(a, t, inner, rest)) == Source(Element(a, t, inner, rest))
  {
    SourceConcat(a, [Open(t)] + (inner + ([Close(t)] + rest)));
    SourceConcat([Open(t)], inner + ([Close(t)] + rest));
    SourceConcat(inner, [Close(t)] + rest);
    SourceConcat([Close(t)], rest);
    SourceTexts(Marker(t));
    SourceConcat(a, Texts(Marker(t)) + (inner + (Texts(Marker(t)) + rest)));
    SourceConcat(Texts(Marker(t)), inner + (Texts(Marker(t)) + rest));
    SourceConcat(inner, Texts(Marker(t)) + rest);
    SourceConcat(Texts(Marker(t)), rest);
  }

  // Replacing one pair of markers in front of `rest`, replaced by `out`.
  lemma {:induction false} ReplaceOne(pre: string, t: Tag, inner: string, rest: string, out: string)
    requires t != Code && Clean(Lex(pre + (Marker(t) + (inner + (Marker(t) + rest)))))
    ensures Lex(pre + (Marker(t) + (inner + (Marker(t) + rest)))) == Marked(Lex(pre), t, Lex(inner), Lex(rest))
    ensures Lex(pre + Tagged(t, inner) + out) == Element(Lex(pre), t, Lex(inner), Lex(out))
    ensures Clean(Lex(pre)) && Clean(Lex(inner)) && Clean(Lex(rest))
  {
    LexMarked(pre, t, inner, rest);
    CleanMarked(Lex(pre), t, Lex(inner), Lex(rest));
    LexElement(pre, t, inner, out);
  }

  lemma {:induction false} ReplaceOneKeepsText(pre: string, t: Tag, inner: string, rest: string, out: string)
    requires t != Code && Clean(Lex(pre + (Marker(t) + (inner + (Marker(t) + rest)))))
    requires Clean(Lex(rest)) ==> Clean(Lex(out)) && Source(Lex(out)) == Source(Lex(rest))
    ensures var ks := Lex(pre + Tagged(t, inner) + out);
      Clean(ks) && Source(ks) == Source(Lex(pre + (Marker(t) + (inner + (Marker(t) + rest)))))
  {
    ReplaceOne(pre, t, inner, rest, out);
    CleanMarked(Lex(pre), t, Lex(inner), Lex(out));
    SourceElement(Lex(pre), t, Lex(inner), Lex(rest));
    SourceElement(Lex(pre), t, Lex(inner), Lex(out));
  }

  // A replacement pass keeps every character, and adds no stray angle bracket.
  lemma {:induction false} ReplaceKeepsText(s: string, t: Tag, from: nat)
    requires t != Code && from <= |s|
    ensures Clean(Lex(s[from..])) ==>
      Clean(Lex(Replace(s, t, from))) && Source(Lex(Replace(s, t, from))) == Source(Lex(s[from..]))
    decreases |s| - from
  {
    match Find(s, t, from)
    case None =>
    case Some(m) =>
      FindIsMatch(s, t, from);
      MatchParts(s, t, from, m);
      ReplaceKeepsText(s, t, m.end);
      if Clean(Lex(s[from..])) {
        ReplaceOneKeepsText(s[from..m.start], t, Inside(s, t, m), s[m.end..], Replace(s, t, m.end));
      }
  }

  // ----- every match becomes an element

  function Elements(t: Tag, ks: seq<Token>): nat {
    if ks == [] then 0 else (if ks[0] == Open(t) then 1 else 0) + Elements(t, ks[1..])
  }

  lemma {:induction false} ElementsConcat(t: Tag, a: seq<Token>, b: seq<Token>)
    ensures Elements(t, a + b) == Elements(t, a) + Elements(t, b)
  {
    if a == [] {
      assert a + b == b;
    } else {
      assert (a + b)[1..] == a[1..] + b;
      ElementsConcat(t, a[1..], b);
    }
  }

  lemma {:induction false} NoElementsInText(t: Tag, s: string)
    ensures Elements(t, Texts(s)) == 0
  {
    if s != "" {
      assert Texts(s)[1..] == Texts(s[1..]);
      NoElementsInText(t, s[1..]);
    }
  }

  lemma CountElement(u: Tag, a: seq<Token>, t: Tag, inner: seq<Token>, rest: seq<Token>)
    ensures Elements(u, Element(a, t, inner, rest)) ==
      Elements(u, a) + Elements(u, inner) + Elements(u, rest) + (if u == t then 1 else 0)
  {
    ElementsConcat(u, a, [Open(t)] + (inner + ([Close(t)] + rest)));
    ElementsConcat(u, [Open(t)], inner + ([Close(t)] + rest));
    ElementsConcat(u, inner, [Close(t)] + rest);
    ElementsConcat(u, [Close(t)], rest);
  }

  lemma CountMarked(u: Tag, a: seq<Token>, t: Tag, inner: seq<Token>, rest: seq<Token>)
    ensures Elements(u, Marked(a, t, inner, rest)) == Elements(u, a) + Elements(u, inner) + Elements(u, rest)
  {
    var m := Texts(Marker(t));
    NoElementsInText(u, Marker(t));
    ElementsConcat(u, a, m + (inner + (m + rest)));
    ElementsConcat(u, m, inner + (m + rest));
    ElementsConcat(u, inner, m + rest);
    ElementsConcat(u, m, rest);
  }

  // A replacement pass adds one element for each match, and no other element.
  lemma {:induction false} ReplaceCounts(u: Tag, s: string, t: Tag, from: nat)
    requires t != Code && from <= |s| && Clean(Lex(s[from..]))
    ensures Elements(u, Lex(Replace(s, t, from))) ==
      Elements(u, Lex(s[from..])) + (if u == t then |FindAll(s, t, from)| else 0)
    decreases |s| - from
  {
    match Find(s, t, from)
    case None =>
    case Some(m) =>
      FindIsMatch(s, t, from);
      MatchParts(s, t, from, m);
      var pre, inner, rest, out := s[from..m.start], Inside(s, t, m), s[m.end..], Replace(s, t, m.end);
      ReplaceOne(pre, t, inner, rest, out);
      ReplaceCounts(u, s, t, m.end);
      CountMarked(u, Lex(pre), t, Lex(inner), Lex(rest));
      CountElement(u, Lex(pre), t, Lex(inner), Lex(out));
  }

  // ----- nesting

  // Text and strong elements only, with no asterisk inside a strong element.
  predicate Flat(inStrong: bool, ks: seq<Token>)
    decreases |ks|
  {
    if ks == [] then !inStrong
    else
      match ks[0]
      case Text(c) => !(inStrong && c == '*') && Flat(inStrong, ks[1..])
      case Open(t) => !inStrong && t == Strong && Flat(true, ks[1..])
      case Close(t) => inStrong && t == Strong && Flat(false, ks[1..])
  }

  lemma {:induction false} FlatConcat(inStrong: bool, a: seq<Token>, b: seq<Token>)
    requires Flat(inStrong, a) && Flat(false, b)
    ensures Flat(inStrong, a + b)
    decreases |a|
  {
    if a == [] {
      assert a + b == b;
    } else {
      assert (a + b)[1..] == a[1..] + b;
      FlatConcat(if a[0].Text? then inStrong else a[0].Open?, a[1..], b);
    }
  }

  // An asterisk is never inside a strong element, so it cuts a flat text in two.
  lemma {:induction false} FlatSplit(inStrong: bool, a: seq<Token>, b: seq<Token>)
    requires Flat(inStrong, a + ([Text('*')] + b))
    ensures Flat(inStrong, a) && Flat(false, b)
    decreases |a|
  {
    var s := a + ([Text('*')] + b);
    if a == [] {
      assert s[1..] == b;
    } else {
      assert s[1..] == a[1..] + ([Text('*')] + b);
      FlatSplit(if a[0].Text? then inStrong else a[0].Open?, a[1..], b);
    }
  }

  lemma {:induction false} FlatTexts(s: string, inStrong: bool)
    requires inStrong ==> '*' !in s
    ensures Flat(inStrong, Texts(s)) <==> !inStrong
    ensures inStrong ==> forall rest :: Flat(false, rest) ==> Flat(true, Texts(s) + ([Close(Strong)] + rest))
  {
    if s != "" {
      assert Texts(s)[1..] == Texts(s[1..]);
      FlatTexts(s[1..], inStrong);
      forall rest | inStrong && Flat(false, rest) ensures Flat(true, Texts(s) + ([Close(Strong)] + rest)) {
        assert (Texts(s) + ([Close(Strong)] + rest))[1..] == Texts(s[1..]) + ([Close(Strong)] + rest);
      }
    } else {
      forall rest | Flat(false, rest) ensures Flat(true, Texts(s) + ([Close(Strong)] + rest)) {
        assert Texts(s) + ([Close(Strong)] + rest) == [Close(Strong)] + rest;
      }
    }
  }

  // A strong element in front of flat text.
  lemma FlatElement(pre: string, inner: string, out: string)
    requires '<' !in pre && '<' !in inner && '*' !in inner && Flat(false, Lex(out))
    ensures Flat(false, Lex(pre + Tagged(Strong, inner) + out))
  {
    LexText(pre);
    LexText(inner);
    LexElement(pre, Strong, inner, out);
    FlatTexts(pre, false);
    FlatTexts(inner, true);
    var close := Texts(inner) + ([Close(Strong)] + Lex(out));
    assert ([Open(Strong)] + close)[1..] == close;
    FlatConcat(false, Texts(pre), [Open(Strong)] + close);
  }

  // The bold pass over text without tags.
  lemma {:induction false} BoldIsFlat(s: string, from: nat)
    requires from <= |s| && '<' !in s
    ensures Flat(false, Lex(Replace(s, Strong, from)))
    decreases |s| - from
  {
    match Find(s, Strong, from)
    case None =>
      LexText(s[from..]);
      FlatTexts(s[from..], false);
    case Some(m) =>
      FindIsMatch(s, Strong, from);
      MatchParts(s, Strong, from, m);
      BoldIsFlat(s, m.end);
      FlatElement(s[from..m.start], Inside(s, Strong, m), Replace(s, Strong, m.end));
  }

  // Flat text is well nested at the top level and inside an em.
  lemma {:induction false} FlatNests(base: seq<Tag>, inStrong: bool, ks: seq<Token>)
    requires Flat(inStrong, ks) && (base == [] || base == [Em])
    ensures Nest(if inStrong then base + [Strong] else base, ks) == Some(base)
    decreases |ks|
  {
    if ks != [] {
      FlatNests(base, if ks[0].Text? then inStrong else ks[0].Open?, ks[1..]);
      assert (base + [Strong])[..|base|] == base;
    }
  }

  lemma NestElement(a: seq<Token>, t: Tag, inner: seq<Token>, rest: seq<Token>)
    requires WellNested(a) && Nest([t], inner) == Some([t]) && WellNested(rest)
    ensures WellNested(Element(a, t, inner, rest))
  {
    var close := [Close(t)] + rest;
    assert close[1..] == rest && [t][..0] == [];
    var open := [Open(t)] + (inner + close);
    assert open[1..] == inner + close && [] + [t] == [t];
    NestConcat([t], inner, close);
    NestConcat([], a, open);
  }

  // Flat text cut at two asterisks: three parts that nest where they end up.
  lemma FlatParts(a: seq<Token>, inner: seq<Token>, rest: seq<Token>)
    requires Flat(false, Marked(a, Em, inner, rest))
    ensures WellNested(a) && Nest([Em], inner) == Some([Em]) && Flat(false, rest)
  {
    assert Texts("*") == [Text('*')];
    FlatSplit(false, a, inner + ([Text('*')] + rest));
    FlatSplit(false, inner, rest);
    FlatNests([], false, a);
    FlatNests([Em], false, inner);
  }

  // The italic pass over flat text: an em element holds whole strong elements.
  lemma {:induction false} ItalicNests(s: string, from: nat)
    requires from <= |s| && Clean(Lex(s[from..])) && Flat(false, Lex(s[from..]))
    ensures WellNested(Lex(Replace(s, Em, from)))
    decreases |s| - from
  {
    match Find(s, Em, from)
    case None => FlatNests([], false, Lex(s[from..]));
    case Some(m) =>
      FindIsMatch(s, Em, from);
      MatchParts(s, Em, from, m);
      var pre, inner, rest, out := s[from..m.start], Inside(s, Em, m), s[m.end..], Replace(s, Em, m.end);
      ReplaceOne(pre, Em, inner, rest, out);
      FlatParts(Lex(pre), Lex(inner), Lex(rest));
      ItalicNests(s, m.end);
      NestElement(Lex(pre), Em, Lex(inner), Lex(out));
  }

  // ----- the renderer

  lemma PlainReads(s: string)
    requires '<' !in s && '>' !in s
    ensures Clean(Lex(s)) && Source(Lex(s)) == s
  {
    LexText(s);
    SourceTexts(s);
  }

  lemma {:induction false} BoldReads(s: string)
    requires '<' !in s && '>' !in s
    ensures var ks := Lex(Replace(s, Strong, 0)); Clean(ks) && Source(ks) == s && Flat(false, ks)
  {
    PlainReads(s);
    assert s[0..] == s;
    ReplaceKeepsText(s, Strong, 0);
    BoldIsFlat(s, 0);
  }

  lemma EmphasisReads(s: string)
    requires '<' !in s && '>' !in s
    ensures Renders(ApplyEmphasis(s), s)
  {
    var bold := Replace(s, Strong, 0);
    BoldReads(s);
    assert bold[0..] == bold;
    ReplaceKeepsText(bold, Em, 0);
    ItalicNests(bold, 0);
  }

  lemma {:induction false} TextsNest(t: Tag, s: string)
    ensures Nest([t], Texts(s)) == Some([t])
  {
    if s != "" {
      assert Texts(s)[1..] == Texts(s[1..]);
      TextsNest(t, s[1..]);
    }
  }

  // html renders text: clean, well nested, and every character kept.
  ghost predicate Renders(html: string, text: string) {
    Clean(Lex(html)) && WellNested(Lex(html)) && Source(Lex(html)) == text
  }

  // A code element between two rendered parts.
  lemma CodeElement(a: string, textA: string, inner: string, b: string, textB: string)
    requires Renders(a, textA) && Renders(b, textB) && '<' !in inner && '>' !in inner
    ensures Renders(a + Tagged(Code, inner) + b, textA + (Marker(Code) + (inner + (Marker(Code) + textB))))
  {
    LexText(inner);
    SourceTexts(inner);
    TextsNest(Code, inner);
    LexElement(a, Code, inner, b);
    CleanMarked(Lex(a), Code, Lex(inner), Lex(b));
    SourceElement(Lex(a), Code, Lex(inner), Lex(b));
    NestElement(Lex(a), Code, Lex(inner), Lex(b));
  }

  lemma SpanOfParts(pre: string, inner: string, html: string, text: string)
    requires '<' !in pre && '>' !in pre && '<' !in inner && '>' !in inner && Renders(html, text)
    ensures Renders(ApplyEmphasis(pre) + Tagged(Code, inner) + html, pre + (Marker(Code) + (inner + (Marker(Code) + text))))
  {
    EmphasisReads(pre);
    CodeElement(ApplyEmphasis(pre), pre, inner, html, text);
  }

  // A code span, and the text it was made from.
  lemma {:induction false} SpanReads(s: string, last: nat, m: Span, html: string)
    requires last <= m.start && IsMatch(s, Code, m.start, m.end) && '<' !in s && '>' !in s
    requires Renders(html, s[m.end..])
    ensures Renders(RenderSpan(s, last, m) + html, s[last..])
  {
    MatchParts(s, Code, last, m);
    SpanOfParts(s[last..m.start], Inside(s, Code, m), html, s[m.end..]);
  }

  lemma {:induction false} RenderFromReads(s: string, last: nat)
    requires last <= |s| && '<' !in s && '>' !in s
    ensures Renders(RenderFrom(s, last), s[last..])
    decreases |s| - last
  {
    match Find(s, Code, last)
    case None => EmphasisReads(s[last..]);
    case Some(m) =>
      FindIsMatch(s, Code, last);
      RenderFromReads(s, m.end);
      SpanReads(s, last, m, RenderFrom(s, m.end));
  }

  /** In a segment without code spans there is one strong element for each bold
      match, and one em element for each italic match of what the bold pass left. */
  lemma EmphasisCounts(s: string)
    requires '<' !in s && '>' !in s
    ensures Elements(Code, Lex(ApplyEmphasis(s))) == 0
    ensures Elements(Strong, Lex(ApplyEmphasis(s))) == |FindAll(s, Strong, 0)|
    ensures Elements(Em, Lex(ApplyEmphasis(s))) == |FindAll(Replace(s, Strong, 0), Em, 0)|
  {
    var bold := Replace(s, Strong, 0);
    PlainReads(s);
    LexText(s);
    BoldReads(s);
    assert s[0..] == s && bold[0..] == bold;
    forall u: Tag ensures Elements(u, Lex(ApplyEmphasis(s))) ==
      (if u == Strong then |FindAll(s, Strong, 0)| else 0) + (if u == Em then |FindAll(bold, Em, 0)| else 0)
    {
      NoElementsInText(u, s);
      ReplaceCounts(u, s, Strong, 0);
      ReplaceCounts(u, bold, Em, 0);
    }
  }

  // ----- code is taken literally

  // The text up to the end of the code element.
  function UpToClose(ks: seq<Token>): string {
    if ks == [] || ks[0] == Close(Code) then ""
    else (if ks[0].Text? then [ks[0].c] else "") + UpToClose(ks[1..])
  }

  // The texts of the code elements, in order.
  function CodeTexts(ks: seq<Token>): seq<string> {
    if ks == [] then []
    else if ks[0] == Open(Code) then [UpToClose(ks[1..])] + CodeTexts(ks[1..])
    else CodeTexts(ks[1..])
  }

  lemma {:induction false} OneTextPerElement(ks: seq<Token>)
    ensures |CodeTexts(ks)| == Elements(Code, ks)
  {
    if ks != [] { OneTextPerElement(ks[1..]); }
  }

  lemma {:induction false} NoCodeBefore(a: seq<Token>, rest: seq<Token>)
    requires Elements(Code, a) == 0
    ensures CodeTexts(a + rest) == CodeTexts(rest)
  {
    if a == [] {
      assert a + rest == rest;
    } else {
      assert (a + rest)[1..] == a[1..] + rest;
      NoCodeBefore(a[1..], rest);
    }
  }

  lemma {:induction false} LiteralUpTo(inner: string, rest: seq<Token>)
    ensures UpToClose(Texts(inner) + ([Close(Code)] + rest)) == inner
  {
    var close := [Close(Code)] + rest;
    if inner == "" {
      assert Texts(inner) + close == close;
    } else {
      assert (Texts(inner) + close)[1..] == Texts(inner[1..]) + close;
      LiteralUpTo(inner[1..], rest);
    }
  }

  lemma ElementText(a: seq<Token>, inner: string, rest: seq<Token>)
    requires Elements(Code, a) == 0
    ensures CodeTexts(Element(a, Code, Texts(inner), rest)) == [inner] + CodeTexts(rest)
  {
    var close := [Close(Code)] + rest;
    var open := [Open(Code)] + (Texts(inner) + close);
    NoCodeBefore(a, open);
    assert open[1..] == Texts(inner) + close && close[1..] == rest;
    LiteralUpTo(inner, rest);
    NoElementsInText(Code, inner);
    NoCodeBefore(Texts(inner), close);
  }

  lemma SpanText(pre: string, inner: string, html: string)
    requires '<' !in pre && '>' !in pre && '<' !in inner && '>' !in inner
    ensures CodeTexts(Lex(ApplyEmphasis(pre) + Tagged(Code, inner) + html)) == [inner] + CodeTexts(Lex(html))
  {
    EmphasisReads(pre);
    EmphasisCounts(pre);
    LexText(inner);
    LexElement(ApplyEmphasis(pre), Code, inner, html);
    ElementText(Lex(ApplyEmphasis(pre)), inner, Lex(html));
  }

  lemma SpanTextAt(s: string, last: nat, m: Span, html: string)
    requires last <= m.start && m.start + 2 * Width(Code) < m.end <= |s| && '<' !in s && '>' !in s
    ensures CodeTexts(Lex(RenderSpan(s, last, m) + html)) == [Inside(s, Code, m)] + CodeTexts(Lex(html))
  {
    var pre, inner := s[last..m.start], Inside(s, Code, m);
    assert '<' !in pre && '>' !in pre && '<' !in inner && '>' !in inner;
    SpanText(pre, inner, html);
  }

  // What the code matches of s[from..] capture.
  function Captured(s: string, from: nat): seq<string>
    requires from <= |s|
  {
    var ms := FindAll(s, Code, from);
    seq(|ms|, k requires 0 <= k < |ms| => Inside(s, Code, ms[k]))
  }

  lemma CapturedNext(s: string, from: nat)
    requires from <= |s| && Find(s, Code, from).Some?
    ensures var m := Find(s, Code, from).value; Captured(s, from) == [Inside(s, Code, m)] + Captured(s, m.end)
  {
  }

  lemma {:induction false} RenderFromIsLiteral(s: string, last: nat)
    requires last <= |s| && '<' !in s && '>' !in s
    ensures CodeTexts(Lex(RenderFrom(s, last))) == Captured(s, last)
    decreases |s| - last
  {
    match Find(s, Code, last)
    case None =>
      EmphasisCounts(s[last..]);
      OneTextPerElement(Lex(ApplyEmphasis(s[last..])));
    case Some(m) =>
      CapturedNext(s, last);
      RenderFromIsLiteral(s, m.end);
      SpanTextAt(s, last, m, RenderFrom(s, m.end));
  }

  lemma {:induction false} EscapeHasNoAngles(s: string)
    ensures '<' !in Escape(s) && '>' !in Escape(s)
  {
    if s != "" { EscapeHasNoAngles(s[1..]); }
  }

  /** The HTML of every input is well nested: no element is inside a code
      element, an em element holds at most whole strong elements, a strong
      element holds none, and every angle bracket belongs to an emitted tag. */
  lemma {:induction false} RenderIsWellNested(s: string)
    ensures WellNested(Lex(Render(s))) && Clean(Lex(Render(s)))
  {
    EscapeHasNoAngles(s);
    RenderFromReads(Escape(s), 0);
  }

  /** Code is taken literally: the texts of the code elements are, one by one and
      character by character, what the code matches of the escaped input capture. */
  lemma {:induction false} CodeIsLiteral(s: string)
    ensures CodeTexts(Lex(Render(s))) == Captured(Escape(s), 0)
    ensures Elements(Code, Lex(Render(s))) == |FindAll(Escape(s), Code, 0)|
  {
    EscapeHasNoAngles(s);
    RenderFromIsLiteral(Escape(s), 0);
    OneTextPerElement(Lex(Render(s)));
  }

  lemma UnescapeEntity(c: char, s: string)
    requires |EscapeChar(c)| > 1 && EscapeChar(c) <= s
    ensures Unescape(s) == [c] + Unescape(s[|EscapeChar(c)|..])
  {
    var e := EscapeChar(c);
    assert s[0] == e[0] && s[1] == e[1] && s[3] == e[3];
  }

  lemma UnescapeChar(c: char, rest: string)
    ensures Unescape(EscapeChar(c) + rest) == [c] + Unescape(rest)
  {
    var e := EscapeChar(c);
    var s := e + rest;
    assert s[|e|..] == rest;
    if |e| > 1 { UnescapeEntity(c, s); }
  }

  lemma {:induction false} UnescapeInverts(s: string)
    ensures Unescape(Escape(s)) == s
  {
    if s != "" {
      UnescapeChar(s[0], Escape(s[1..]));
      UnescapeInverts(s[1..]);
    }
  }

  /** Rendering loses nothing: turning each tag back into its marker gives the
      escaped input, and unescaping that gives the input. */
  lemma {:induction false} RenderRoundTrip(s: string)
    ensures Source(Lex(Render(s))) == Escape(s)
    ensures Unescape(Source(Lex(Render(s)))) == s
  {
    EscapeHasNoAngles(s);
    RenderFromReads(Escape(s), 0);
    assert Escape(s)[0..] == Escape(s);
    UnescapeInverts(s);
  }

  // s without the characters that can be markers.
  function WithoutMarkers(s: string): string {
    if s == "" then "" else (if s[0] == '`' || s[0] == '*' then "" else [s[0]]) + WithoutMarkers(s[1..])
  }

  lemma {:induction false} WithoutMarkersConcat(a: string, b: string)
    ensures WithoutMarkers(a + b) == WithoutMarkers(a) + WithoutMarkers(b)
  {
    if a == "" {
      assert a + b == b;
    } else {
      assert (a + b)[1..] == a[1..] + b;
      WithoutMarkersConcat(a[1..], b);
    }
  }

  lemma {:induction false} StripOnlyDropsMarkers(ks: seq<Token>)
    ensures WithoutMarkers(Strip(ks)) == WithoutMarkers(Source(ks))
  {
    if ks != [] {
      StripOnlyDropsMarkers(ks[1..]);
      var head := match ks[0] case Text(c) => [c] case Open(t) => Marker(t) case Close(t) => Marker(t);
      WithoutMarkersConcat(head, Source(ks[1..]));
      WithoutMarkersConcat(if ks[0].Text? then [ks[0].c] else "", Strip(ks[1..]));
    }
  }

  lemma {:induction false} NothingToDrop(s: string)
    requires '`' !in s && '*' !in s
    ensures WithoutMarkers(s) == s
  {
    if s != "" { NothingToDrop(s[1..]); }
  }

  lemma EscapeCharWithoutMarkers(c: char)
    ensures WithoutMarkers(EscapeChar(c)) == if c == '`' || c == '*' then "" else EscapeChar(c)
  {
    if c == '`' || c == '*' {
      assert EscapeChar(c)[1..] == "";
    } else {
      NothingToDrop(EscapeChar(c));
    }
  }

  lemma {:induction false} EscapeWithoutMarkers(s: string)
    ensures WithoutMarkers(Escape(s)) == Escape(WithoutMarkers(s))
  {
    if s != "" {
      EscapeWithoutMarkers(s[1..]);
      WithoutMarkersConcat(EscapeChar(s[0]), Escape(s[1..]));
      EscapeCharWithoutMarkers(s[0]);
      if s[0] == '`' || s[0] == '*' {
        assert WithoutMarkers(s) == WithoutMarkers(s[1..]);
      } else {
        assert WithoutMarkers(s)[1..] == WithoutMarkers(s[1..]);
      }
    }
  }

  /** Deleting the tags of the output and unescaping it gives every character of
      the input other than markers, in order. */
  lemma {:induction false} StrippedTextIsKept(s: string)
    ensures WithoutMarkers(Strip(Lex(Render(s)))) == Escape(WithoutMarkers(s))
    ensures Unescape(WithoutMarkers(Strip(Lex(Render(s))))) == WithoutMarkers(s)
  {
    RenderRoundTrip(s);
    StripOnlyDropsMarkers(Lex(Render(s)));
    EscapeWithoutMarkers(s);
    UnescapeInverts(WithoutMarkers(s));
  }

  /** Different inputs never render to the same HTML. */
  lemma RenderIsInjective(s: string, t: string)
    ensures Render(s) == Render(t) ==> s == t
  {
    RenderRoundTrip(s);
    RenderRoundTrip(t);
  }
}
