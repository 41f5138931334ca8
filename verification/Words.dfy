/** The string operations of command parsing, over plain character sequences. */
module Words {
  // Go's per-rune tables: case mapping, the case-folding orbit (by a
  // representative), spaces and letters; and the names of the states.
  datatype Tables = Tables(lower: char -> char, orbit: char -> char, isSpace: char -> bool, isLetter: char -> bool,
                           states: seq<string>)
  {
    ghost predicate Valid() {
      && (forall c :: orbit(c) == orbit(' ') <==> c == ' ')
      && (forall c :: lower(c) == ' ' <==> c == ' ')
      && (forall c :: lower(c) == '!' <==> c == '!')
    }
  }

  function ToLower(tables: Tables, s: string): (r: string)
    ensures |r| == |s| && forall i :: 0 <= i < |s| ==> r[i] == tables.lower(s[i])
  {
    seq(|s|, i requires 0 <= i < |s| => tables.lower(s[i]))
  }

  // The names of the states in lower case, at matching indices.
  function LowerStates(tables: Tables): (lower: seq<string>)
    ensures |lower| == |tables.states|
  {
    seq(|tables.states|, i requires 0 <= i < |tables.states| => ToLower(tables, tables.states[i]))
  }

  // s is the full name of a state, ignoring case.
  predicate IsStateName(tables: Tables, s: string) {
    ToLower(tables, s) in LowerStates(tables)
  }

  predicate EqualFold(tables: Tables, a: string, b: string) {
    |a| == |b| && forall i :: 0 <= i < |a| ==> tables.orbit(a[i]) == tables.orbit(b[i])
  }

  // strings.Split(s, " ")
  function Split(s: string): (words: seq<string>)
    ensures words != []
  {
    if s == "" then [""]
    else
      var rest := Split(s[1..]);
      if s[0] == ' ' then [""] + rest else [[s[0]] + rest[0]] + rest[1..]
  }

  // strings.Join(words, " ")
  function Join(words: seq<string>): string {
    if words == [] then "" else if |words| == 1 then words[0] else words[0] + " " + Join(words[1..])
  }

  predicate SpaceFree(words: seq<string>) {
    forall i :: 0 <= i < |words| ==> ' ' !in words[i]
  }

  function TrimLeft(tables: Tables, s: string): string {
    if s != "" && tables.isSpace(s[0]) then TrimLeft(tables, s[1..]) else s
  }

  function TrimRight(tables: Tables, s: string): string {
    if s != "" && tables.isSpace(s[|s| - 1]) then TrimRight(tables, s[..|s| - 1]) else s
  }

  function TrimSpace(tables: Tables, s: string): string {
    TrimRight(tables, TrimLeft(tables, s))
  }

  // ----- splitting and joining

  lemma {:induction false} SplitIsSpaceFree(s: string)
    ensures SpaceFree(Split(s))
  {
    if s != "" { SplitIsSpaceFree(s[1..]); }
  }

  lemma {:induction false} JoinSplit(s: string)
    ensures Join(Split(s)) == s
  {
    if s != "" {
      JoinSplit(s[1..]);
      var rest := Split(s[1..]);
      if s[0] == ' ' {
        assert ([""] + rest)[1..] == rest;
        assert s == " " + s[1..];
      } else {
        JoinHead([s[0]], rest);
        assert s == [s[0]] + s[1..];
      }
    }
  }

  lemma JoinHead(x: string, words: seq<string>)
    requires words != []
    ensures Join([x + words[0]] + words[1..]) == x + Join(words)
  {
  }

  lemma {:induction false} SplitWord(w: string, t: string)
    requires ' ' !in w
    ensures Split(w + t) == [w + Split(t)[0]] + Split(t)[1..]
  {
    if w == "" {
      assert w + t == t;
      assert w + Split(t)[0] == Split(t)[0];
    } else {
      assert (w + t)[1..] == w[1..] + t;
      SplitWord(w[1..], t);
      assert [w[0]] + (w[1..] + Split(t)[0]) == w + Split(t)[0];
    }
  }

  lemma {:induction false} SplitJoin(words: seq<string>)
    requires words != [] && SpaceFree(words)
    ensures Split(Join(words)) == words
  {
    if |words| == 1 {
      SplitWord(words[0], "");
      assert words[0] + "" == words[0];
    } else {
      var rest := Join(words[1..]);
      SplitJoin(words[1..]);
      SplitWord(words[0], " " + rest);
      assert (" " + rest)[1..] == rest;
      assert words[0] + " " + rest == words[0] + (" " + rest);
      assert Split(" " + rest) == [""] + words[1..];
      assert words[0] + "" == words[0];
    }
  }

  // ----- folding case word by word

  predicate WordsFold(tables: Tables, a: seq<string>, b: seq<string>) {
    |a| == |b| && forall i :: 0 <= i < |a| ==> EqualFold(tables, a[i], b[i])
  }

  lemma {:induction false} SplitFolds(tables: Tables, a: string, b: string)
    requires tables.Valid() && EqualFold(tables, a, b)
    ensures WordsFold(tables, Split(a), Split(b))
  {
    if a != "" {
      SplitFolds(tables, a[1..], b[1..]);
      var ra, rb := Split(a[1..]), Split(b[1..]);
      assert EqualFold(tables, ra[0], rb[0]);
      if a[0] != ' ' {
        assert EqualFold(tables, [a[0]] + ra[0], [b[0]] + rb[0]);
      }
    }
  }

  lemma {:induction false} JoinFolds(tables: Tables, a: seq<string>, b: seq<string>)
    requires WordsFold(tables, a, b)
    ensures EqualFold(tables, Join(a), Join(b))
  {
    if |a| > 1 {
      JoinFolds(tables, a[1..], b[1..]);
      FoldConcat(tables, " ", " ", Join(a[1..]), Join(b[1..]));
      FoldConcat(tables, a[0], b[0], " " + Join(a[1..]), " " + Join(b[1..]));
      assert Join(a) == a[0] + (" " + Join(a[1..])) && Join(b) == b[0] + (" " + Join(b[1..]));
    }
  }

  lemma FoldConcat(tables: Tables, a: string, b: string, c: string, d: string)
    requires EqualFold(tables, a, b) && EqualFold(tables, c, d)
    ensures EqualFold(tables, a + c, b + d)
  {
  }

  lemma FoldTrans(tables: Tables, a: string, b: string, c: string)
    requires EqualFold(tables, a, b) && EqualFold(tables, b, c)
    ensures EqualFold(tables, a, c) && EqualFold(tables, b, a)
  {
  }

  // ----- trimming

  predicate AllSpace(tables: Tables, s: string) {
    forall i :: 0 <= i < |s| ==> tables.isSpace(s[i])
  }

  lemma {:induction false} TrimLeftIs(tables: Tables, left: string, s: string)
    requires AllSpace(tables, left) && (s != "" ==> !tables.isSpace(s[0]))
    ensures TrimLeft(tables, left + s) == s
  {
    if left == "" {
      assert left + s == s;
    } else {
      assert (left + s)[0] == left[0] && (left + s)[1..] == left[1..] + s;
      TrimLeftIs(tables, left[1..], s);
    }
  }

  lemma {:induction false} TrimRightIs(tables: Tables, s: string, right: string)
    requires AllSpace(tables, right) && (s != "" ==> !tables.isSpace(s[|s| - 1]))
    ensures TrimRight(tables, s + right) == s
  {
    if right == "" {
      assert s + right == s;
    } else {
      var n := |right| - 1;
      assert (s + right)[|s| + n] == right[n] && (s + right)[..|s| + n] == s + right[..n];
      TrimRightIs(tables, s, right[..n]);
    }
  }

  /** Trimming takes off all the spaces on either side and nothing else. */
  lemma TrimSpaceIs(tables: Tables, left: string, s: string, right: string)
    requires AllSpace(tables, left) && AllSpace(tables, right)
    requires s != "" && !tables.isSpace(s[0]) && !tables.isSpace(s[|s| - 1])
    ensures TrimSpace(tables, left + (s + right)) == s
  {
    TrimLeftIs(tables, left, s + right);
    TrimRightIs(tables, s, right);
  }
}
