/** Splitting the loaded clips into one run per corpus, as both backfills do. */
module Corpus {
  function Flatten<T>(runs: seq<seq<T>>): seq<T> {
    if runs == [] then [] else runs[0] + Flatten(runs[1..])
  }

  lemma {:induction false} FlattenAppend<T>(runs: seq<seq<T>>, last: seq<T>)
    ensures Flatten(runs + [last]) == Flatten(runs) + last
  {
    if runs == [] {
      assert Flatten([last]) == last;
    } else {
      assert (runs + [last])[1..] == runs[1..] + [last];
      FlattenAppend(runs[1..], last);
    }
  }

  lemma AppendToLast<T>(runs: seq<seq<T>>, x: T)
    requires runs != []
    ensures Flatten(runs[|runs| - 1 := runs[|runs| - 1] + [x]]) == Flatten(runs) + [x]
  {
    var last := |runs| - 1;
    FlattenAppend(runs[..last], runs[last]);
    FlattenAppend(runs[..last], runs[last] + [x]);
    assert runs == runs[..last] + [runs[last]];
    assert runs[last := runs[last] + [x]] == runs[..last] + [runs[last] + [x]];
  }

  ghost predicate OneCorpus<T>(run: seq<T>, corpus: T -> string) {
    run != [] && forall i :: 0 <= i < |run| ==> corpus(run[i]) == corpus(run[0])
  }

  // Non-empty runs of one corpus each, the next one always of another corpus.
  ghost predicate Split<T>(runs: seq<seq<T>>, corpus: T -> string) {
    && (forall r :: 0 <= r < |runs| ==> OneCorpus(runs[r], corpus))
    && (forall r :: 0 < r < |runs| ==> corpus(runs[r - 1][0]) != corpus(runs[r][0]))
  }

  method ByCorpus<T>(clips: seq<T>, corpus: T -> string) returns (runs: seq<seq<T>>)
    ensures Flatten(runs) == clips && Split(runs, corpus)
  {
    runs := [];
    for i := 0 to |clips|
      invariant Flatten(runs) == clips[..i] && Split(runs, corpus)
      invariant (runs == [] <==> i == 0) && (i > 0 ==> corpus(runs[|runs| - 1][0]) == corpus(clips[i - 1]))
    {
      var c := clips[i];
      if i == 0 || corpus(c) != corpus(clips[i - 1]) {
        FlattenAppend(runs, []);
        runs := runs + [[]];
      }
      AppendToLast(runs, c);
      runs := runs[|runs| - 1 := runs[|runs| - 1] + [c]];
    }
    assert clips[..|clips|] == clips;
  }

  // Clips of one corpus are adjacent, as ORDER BY corpus leaves them.
  ghost predicate Grouped<T>(clips: seq<T>, corpus: T -> string) {
    forall i, j, k :: 0 <= i < j < k < |clips| && corpus(clips[i]) == corpus(clips[k]) ==> corpus(clips[j]) == corpus(clips[i])
  }

  // Where run r starts in the flattened clips.
  lemma {:induction false} StartOf<T>(runs: seq<seq<T>>, r: nat) returns (k: nat)
    requires r < |runs| && forall q :: 0 <= q < |runs| ==> runs[q] != []
    ensures k < |Flatten(runs)| && Flatten(runs)[k] == runs[r][0] && (r > 0 ==> |runs[0]| <= k) && (r > 1 ==> |runs[0]| < k)
  {
    if r == 0 {
      k := 0;
    } else {
      k := StartOf(runs[1..], r - 1);
      k := |runs[0]| + k;
    }
  }

  /** When clips of one corpus are adjacent no corpus is split over two runs, so
      no walk over a run ever pairs clips of two corpora or misses a neighbour. */
  lemma {:induction false} OneRunPerCorpus<T>(runs: seq<seq<T>>, corpus: T -> string, q: nat, r: nat)
    requires Split(runs, corpus) && Grouped(Flatten(runs), corpus) && q < r < |runs|
    ensures corpus(runs[q][0]) != corpus(runs[r][0])
  {
    var all := Flatten(runs);
    if q > 0 {
      var rest := runs[1..];
      assert forall i :: 0 <= i < |Flatten(rest)| ==> Flatten(rest)[i] == all[|runs[0]| + i];
      OneRunPerCorpus(rest, corpus, q - 1, r - 1);
    } else if r > 1 {
      var k := StartOf(runs, r);
      assert all[0] == runs[0][0] && all[|runs[0]|] == runs[1][0];
      assert corpus(runs[1 - 1][0]) != corpus(runs[1][0]);
    }
  }
}
