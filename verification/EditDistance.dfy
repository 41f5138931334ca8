/** The edit distance behind fuzzy command matching (pkg/chatbot/fuzzy.go). */
module EditDistance {
  // ----- what it measures: scripts of single-character edits

  datatype Edit = Insert(at: nat, c: char) | Delete(at: nat) | Substitute(at: nat, c: char)
  {
    predicate Fits(s: string) {
      if Insert? then at <= |s| else at < |s|
    }

    function Apply(s: string): string
      requires Fits(s)
    {
      match this
      case Insert(_, _) => s[..at] + [c] + s[at..]
      case Delete(_) => s[..at] + s[at + 1..]
      case Substitute(_, _) => s[..at] + [c] + s[at + 1..]
    }
  }

  // Running the edits of script one after the other turns a into b.
  ghost predicate Rewrites(script: seq<Edit>, a: string, b: string) {
    if script == [] then a == b
    else script[0].Fits(a) && Rewrites(script[1..], script[0].Apply(a), b)
  }

  // ----- the recurrence

  function Cost(x: char, y: char): nat {
    if x == y then 0 else 1
  }

  function Min3(x: nat, y: nat, z: nat): nat {
    if x <= y && x <= z then x else if y <= z then y else z
  }

  function Distance(a: string, b: string): nat
    decreases |a| + |b|
  {
    if a == "" then |b|
    else if b == "" then |a|
    else
      var a', b' := a[..|a| - 1], b[..|b| - 1];
      Min3(Distance(a', b) + 1, Distance(a, b') + 1, Distance(a', b') + Cost(a[|a| - 1], b[|b| - 1]))
  }

  // ----- the two-row computation

  // The distance of the first i characters of a and the first j of b.
  function Cell(a: string, b: string, i: nat, j: nat): nat
    requires i <= |a| && j <= |b|
  {
    Distance(a[..i], b[..j])
  }

  lemma CellStep(a: string, b: string, i: nat, j: nat)
    requires i <= |a| && j <= |b|
    ensures i == 0 ==> Cell(a, b, i, j) == j
    ensures j == 0 ==> Cell(a, b, i, j) == i
    ensures i > 0 && j > 0 ==>
      Cell(a, b, i, j) ==
        Min3(Cell(a, b, i - 1, j) + 1, Cell(a, b, i, j - 1) + 1, Cell(a, b, i - 1, j - 1) + Cost(a[i - 1], b[j - 1]))
  {
    if i > 0 && j > 0 {
      assert a[..i][..i - 1] == a[..i - 1] && b[..j][..j - 1] == b[..j - 1];
    }
  }

  ghost predicate RowIs(row: array<nat>, a: string, b: string, i: nat, done: nat)
    requires i <= |a| && done <= |b| + 1 == row.Length
    reads row
  {
    forall k: nat :: k < done ==> row[k] == Cell(a, b, i, k)
  }

  method FillRow(a: string, b: string, i: nat, prev: array<nat>, curr: array<nat>)
    requires 1 <= i <= |a| && prev.Length == curr.Length == |b| + 1 && prev != curr
    requires RowIs(prev, a, b, i - 1, |b| + 1)
    modifies curr
    ensures RowIs(curr, a, b, i, |b| + 1)
  {
    curr[0] := i;
    CellStep(a, b, i, 0);
    for j := 1 to |b| + 1
      invariant RowIs(curr, a, b, i, j) && RowIs(prev, a, b, i - 1, |b| + 1)
    {
      var cost := if a[i - 1] == b[j - 1] then 0 else 1;
      CellStep(a, b, i, j);
      curr[j] := Min3(prev[j] + 1, curr[j - 1] + 1, prev[j - 1] + cost);
      assert curr[j] == Cell(a, b, i, j);
    }
  }

  /** The two-row computation returns the distance. */
  method Levenshtein(a: string, b: string) returns (d: nat)
    ensures d == Distance(a, b)
  {
    var prev := new nat[|b| + 1](j => j);
    var curr := new nat[|b| + 1](_ => 0);
    forall j: nat | j <= |b| ensures prev[j] == Cell(a, b, 0, j) { CellStep(a, b, 0, j); }
    for i := 1 to |a| + 1
      invariant prev != curr && fresh(prev) && fresh(curr) && prev.Length == curr.Length == |b| + 1
      invariant RowIs(prev, a, b, i - 1, |b| + 1)
    {
      FillRow(a, b, i, prev, curr);
      prev, curr := curr, prev;
    }
    assert a[..|a|] == a && b[..|b|] == b;
    d := prev[|b|];
  }

  // ----- the distance is a metric

  lemma {:induction false} DistanceBounds(a: string, b: string)
    ensures Distance(a, b) <= |a| + |b| && |a| <= Distance(a, b) + |b| && |b| <= Distance(a, b) + |a|
    decreases |a| + |b|
  {
    if a != "" && b != "" {
      var a', b' := a[..|a| - 1], b[..|b| - 1];
      DistanceBounds(a', b);
      DistanceBounds(a, b');
      DistanceBounds(a', b');
    }
  }

  /** The distance is symmetric. */
  lemma {:induction false} Symmetric(a: string, b: string)
    ensures Distance(a, b) == Distance(b, a)
    decreases |a| + |b|
  {
    if a != "" && b != "" {
      var a', b' := a[..|a| - 1], b[..|b| - 1];
      Symmetric(a', b);
      Symmetric(a, b');
      Symmetric(a', b');
    }
  }

  /** The distance is zero exactly on equal strings. */
  lemma {:induction false} ZeroIffEqual(a: string, b: string)
    ensures Distance(a, b) == 0 <==> a == b
    decreases |a| + |b|
  {
    if a != "" && b != "" {
      var a', b' := a[..|a| - 1], b[..|b| - 1];
      ZeroIffEqual(a', b');
      assert a == a' + [a[|a| - 1]] && b == b' + [b[|b| - 1]];
    }
  }

  // One step of the recurrence, as three upper bounds of which one is met.
  lemma Steps(a: string, b: string)
    requires a != "" && b != ""
    ensures var a', b' := a[..|a| - 1], b[..|b| - 1];
      var del, ins, sub := Distance(a', b) + 1, Distance(a, b') + 1, Distance(a', b') + Cost(a[|a| - 1], b[|b| - 1]);
      && Distance(a, b) <= del && Distance(a, b) <= ins && Distance(a, b) <= sub
      && (Distance(a, b) == del || Distance(a, b) == ins || Distance(a, b) == sub)
  {
  }

  /** The triangle inequality. */
  lemma {:induction false} Triangle(a: string, b: string, c: string)
    ensures Distance(a, c) <= Distance(a, b) + Distance(b, c)
    decreases |a| + |b| + |c|
  {
    if a == "" || b == "" || c == "" {
      DistanceBounds(a, b);
      DistanceBounds(b, c);
      DistanceBounds(a, c);
    } else {
      var a', b', c' := a[..|a| - 1], b[..|b| - 1], c[..|c| - 1];
      Steps(a, b);
      Steps(b, c);
      Steps(a, c);
      Triangle(a', b, c);
      Triangle(a, b, c');
      Triangle(a, b', c);
      Triangle(a, b', c');
      Triangle(a', b', c);
      Triangle(a', b', c');
    }
  }

  // ----- the distance is the length of a shortest script

  lemma {:induction false} SameTail(x: string, y: string, t: string)
    ensures Distance(x + t, y + t) <= Distance(x, y)
  {
    if t == "" {
      assert x + t == x && y + t == y;
    } else {
      var t' := t[..|t| - 1];
      SameTail(x, y, t');
      assert (x + t)[..|x + t| - 1] == x + t' && (y + t)[..|y + t| - 1] == y + t';
    }
  }

  // One edit changes a string by at most one.
  lemma OneEdit(s: string, e: Edit)
    requires e.Fits(s)
    ensures Distance(s, e.Apply(s)) <= 1
  {
    var head := s[..e.at];
    ZeroIffEqual(head, head);
    match e
    case Insert(_, c) =>
      var tail := s[e.at..];
      assert s == head + tail;
      assert (head + [c])[..|head|] == head;
      SameTail(head, head + [c], tail);
      LongerByOne(head, c);
    case Delete(_) =>
      var tail := s[e.at + 1..];
      assert s == head + [s[e.at]] + tail;
      SameTail(head + [s[e.at]], head, tail);
      LongerByOne(head, s[e.at]);
    case Substitute(_, c) =>
      var tail := s[e.at + 1..];
      assert s == head + [s[e.at]] + tail;
      SameTail(head + [s[e.at]], head + [c], tail);
      Steps(head + [s[e.at]], head + [c]);
      assert (head + [s[e.at]])[..|head|] == head && (head + [c])[..|head|] == head;
  }

  lemma LongerByOne(s: string, c: char)
    ensures Distance(s, s + [c]) <= 1 && Distance(s + [c], s) <= 1
  {
    ZeroIffEqual(s, s);
    assert (s + [c])[..|s|] == s;
    if s != "" { Steps(s, s + [c]); }
    Symmetric(s, s + [c]);
  }

  /** No script is shorter than the distance. */
  lemma {:induction false} NoShorterScript(script: seq<Edit>, a: string, b: string)
    requires Rewrites(script, a, b)
    ensures Distance(a, b) <= |script|
  {
    if script == [] {
      ZeroIffEqual(a, b);
    } else {
      var next := script[0].Apply(a);
      OneEdit(a, script[0]);
      NoShorterScript(script[1..], next, b);
      Triangle(a, next, b);
    }
  }

  lemma ApplyMore(e: Edit, s: string, tail: string)
    requires e.Fits(s)
    ensures e.Fits(s + tail) && e.Apply(s + tail) == e.Apply(s) + tail
  {
    assert (s + tail)[..e.at] == s[..e.at];
    if e.Insert? {
      assert (s + tail)[e.at..] == s[e.at..] + tail;
    } else {
      assert (s + tail)[e.at + 1..] == s[e.at + 1..] + tail;
    }
  }

  // A script also runs in front of a tail, and one more edit can follow it.
  lemma {:induction false} RewritesMore(script: seq<Edit>, a: string, b: string, tail: string)
    requires Rewrites(script, a, b)
    ensures Rewrites(script, a + tail, b + tail)
  {
    if script != [] {
      var e := script[0];
      ApplyMore(e, a, tail);
      RewritesMore(script[1..], e.Apply(a), b, tail);
    }
  }

  lemma {:induction false} RewritesThen(script: seq<Edit>, a: string, b: string, e: Edit)
    requires Rewrites(script, a, b) && e.Fits(b)
    ensures Rewrites(script + [e], a, e.Apply(b))
  {
    if script == [] {
      assert [e][1..] == [];
    } else {
      assert (script + [e])[1..] == script[1..] + [e];
      RewritesThen(script[1..], script[0].Apply(a), b, e);
    }
  }

  lemma {:induction false} InsertLast(script: seq<Edit>, a: string, b: string) returns (longer: seq<Edit>)
    requires b != "" && Rewrites(script, a, b[..|b| - 1])
    ensures Rewrites(longer, a, b) && |longer| == |script| + 1
  {
    var b' := b[..|b| - 1];
    var e := Insert(|b'|, b[|b'|]);
    RewritesThen(script, a, b', e);
    assert e.Apply(b') == b;
    longer := script + [e];
  }

  lemma {:induction false} DeleteLast(script: seq<Edit>, a: string, b: string) returns (longer: seq<Edit>)
    requires a != "" && Rewrites(script, a[..|a| - 1], b)
    ensures Rewrites(longer, a, b) && |longer| == |script| + 1
  {
    var e := Delete(|a| - 1);
    assert e.Apply(a) == a[..|a| - 1];
    longer := [e] + script;
  }

  lemma {:induction false} MatchMore(script: seq<Edit>, a: string, b: string, x: char, y: char) returns (longer: seq<Edit>)
    requires Rewrites(script, a, b)
    ensures Rewrites(longer, a + [x], b + [y]) && |longer| == |script| + Cost(x, y)
  {
    RewritesMore(script, a, b, [x]);
    if x == y {
      longer := script;
    } else {
      longer := SubstituteLast(script, a + [x], b, x, y);
    }
  }

  lemma LastApart(s: string)
    requires s != ""
    ensures s[..|s| - 1] + [s[|s| - 1]] == s
  {
  }

  lemma {:induction false} MatchLast(script: seq<Edit>, a: string, b: string) returns (longer: seq<Edit>)
    requires a != "" && b != "" && Rewrites(script, a[..|a| - 1], b[..|b| - 1])
    ensures Rewrites(longer, a, b) && |longer| == |script| + Cost(a[|a| - 1], b[|b| - 1])
  {
    LastApart(a);
    LastApart(b);
    longer := MatchMore(script, a[..|a| - 1], b[..|b| - 1], a[|a| - 1], b[|b| - 1]);
  }

  lemma {:induction false} SubstituteLast(script: seq<Edit>, a: string, b: string, x: char, y: char) returns (longer: seq<Edit>)
    requires Rewrites(script, a, b + [x])
    ensures Rewrites(longer, a, b + [y]) && |longer| == |script| + 1
  {
    var e := Substitute(|b|, y);
    RewritesThen(script, a, b + [x], e);
    assert e.Apply(b + [x]) == b + [y];
    longer := script + [e];
  }

  /** Some script is exactly as long as the distance. */
  lemma {:induction false} ShortestScript(a: string, b: string) returns (script: seq<Edit>)
    ensures Rewrites(script, a, b) && |script| == Distance(a, b)
    decreases |a| + |b|
  {
    if a == "" && b == "" {
      script := [];
    } else if a == "" || (b != "" && Distance(a, b) == Distance(a, b[..|b| - 1]) + 1) {
      script := ShortestScript(a, b[..|b| - 1]);
      script := InsertLast(script, a, b);
    } else if b == "" || Distance(a, b) == Distance(a[..|a| - 1], b) + 1 {
      script := ShortestScript(a[..|a| - 1], b);
      script := DeleteLast(script, a, b);
    } else {
      Steps(a, b);
      script := ShortestScript(a[..|a| - 1], b[..|b| - 1]);
      script := MatchLast(script, a, b);
    }
  }
}
