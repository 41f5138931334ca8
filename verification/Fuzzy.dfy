/** Fuzzy lookup of misspelled commands and state names (pkg/chatbot/fuzzy.go, handlers.go). */
module Fuzzy {
  import opened Wrappers
  import opened EditDistance
  import opened Words

  // A name that can be reached, and what it names.
  datatype Entry<V> = Entry(name: string, value: V)

  // The largest edit distance forgiven for an input of this length.
  function FuzzyMaxDistance(length: nat): nat {
    if length < 4 then 0 else if length <= 6 then 1 else 2
  }

  // ----- what a fuzzy search answers

  ghost predicate Near<V(!new)>(entries: set<Entry<V>>, query: string, maxDist: nat, e: Entry<V>) {
    e in entries && Distance(query, e.name) <= maxDist
  }

  ghost predicate Nearest<V(!new)>(entries: set<Entry<V>>, query: string, maxDist: nat, e: Entry<V>) {
    && Near(entries, query, maxDist, e)
    && forall f :: Near(entries, query, maxDist, f) ==> Distance(query, e.name) <= Distance(query, f.name)
  }

  // There are nearest entries, and all of them name v.
  ghost predicate Unambiguous<V(!new)>(entries: set<Entry<V>>, query: string, maxDist: nat, v: V) {
    && (exists e :: Nearest(entries, query, maxDist, e))
    && forall e :: Nearest(entries, query, maxDist, e) ==> e.value == v
  }

  ghost predicate Answers<V(!new)>(entries: set<Entry<V>>, query: string, maxDist: nat, r: Option<V>) {
    match r
    case Some(v) => Unambiguous(entries, query, maxDist, v)
    case None => forall v :: !Unambiguous(entries, query, maxDist, v)
  }

  /** The answer is a function of the entries: whatever order they are visited
      in, no two answers are possible. */
  lemma AnswerIsUnique<V(!new)>(entries: set<Entry<V>>, query: string, maxDist: nat, r1: Option<V>, r2: Option<V>)
    requires Answers(entries, query, maxDist, r1) && Answers(entries, query, maxDist, r2)
    ensures r1 == r2
  {
  }

  // ----- the running best of the search loops

  datatype Best<V> = Best(value: Option<V>, dist: nat, ambiguous: bool)

  function Consider<V(==)>(b: Best<V>, maxDist: nat, dist: nat, v: V): Best<V> {
    if dist > maxDist then b
    else if dist < b.dist then Best(Some(v), dist, false)
    else if dist == b.dist && b.value != Some(v) then b.(ambiguous := true)
    else b
  }

  // b sums up the entries seen so far.
  ghost predicate Tracks<V(!new)>(seen: set<Entry<V>>, query: string, maxDist: nat, b: Best<V>) {
    && (forall e :: Near(seen, query, maxDist, e) ==> b.dist <= Distance(query, e.name))
    && (b.value.None? ==> b.dist == maxDist + 1 && !b.ambiguous)
    && (b.value.Some? ==> b.dist <= maxDist && Entered(seen, query, b.dist, b.value.value))
    && (b.ambiguous <==> exists v :: b.value.Some? && v != b.value.value && Entered(seen, query, b.dist, v))
  }

  // Some entry at this distance names v.
  ghost predicate Entered<V(!new)>(seen: set<Entry<V>>, query: string, dist: nat, v: V) {
    exists e :: e in seen && Distance(query, e.name) == dist && e.value == v
  }

  lemma ConsiderTracks<V(!new)>(seen: set<Entry<V>>, query: string, maxDist: nat, b: Best<V>, e: Entry<V>)
    requires Tracks(seen, query, maxDist, b)
    ensures Tracks(seen + {e}, query, maxDist, Consider(b, maxDist, Distance(query, e.name), e.value))
  {
    var next := seen + {e};
    var d := Distance(query, e.name);
    assert Entered(next, query, d, e.value);
    forall v, k: nat ensures Entered(next, query, k, v) <==> Entered(seen, query, k, v) || (k == d && v == e.value) {
      if Entered(seen, query, k, v) {
        var f :| f in seen && Distance(query, f.name) == k && f.value == v;
        assert f in next;
      }
    }
    forall f | Near(next, query, maxDist, f) ensures Near(seen, query, maxDist, f) || f == e {}
    forall f | f in seen ensures Distance(query, f.name) > maxDist || Distance(query, f.name) >= b.dist {
      if Distance(query, f.name) <= maxDist { assert Near(seen, query, maxDist, f); }
    }
  }

  lemma TrackedAnswer<V(!new)>(entries: set<Entry<V>>, query: string, maxDist: nat, b: Best<V>)
    requires Tracks(entries, query, maxDist, b)
    ensures Answers(entries, query, maxDist, if b.ambiguous then None else b.value)
  {
    forall e ensures Nearest(entries, query, maxDist, e) <==>
      e in entries && b.value.Some? && Distance(query, e.name) == b.dist
    {
      if b.value.Some? {
        var f :| f in entries && Distance(query, f.name) == b.dist && f.value == b.value.value;
        assert Near(entries, query, maxDist, f);
      }
    }
    if b.value.Some? {
      var f :| f in entries && Distance(query, f.name) == b.dist && f.value == b.value.value;
      assert Nearest(entries, query, maxDist, f);
      if b.ambiguous {
        var v :| v != b.value.value && Entered(entries, query, b.dist, v);
        var g :| g in entries && Distance(query, g.name) == b.dist && g.value == v;
        assert Nearest(entries, query, maxDist, g);
      } else {
        forall e | Nearest(entries, query, maxDist, e) ensures e.value == b.value.value {
          assert Entered(entries, query, b.dist, e.value);
        }
      }
    }
  }

  // ----- commands

  predicate HasPrefix(s: string, prefix: string) {
    prefix <= s
  }

  // The !-triggers of a lookup map, with the command each names.
  ghost function Triggers(lookup: map<string, nat>): set<Entry<nat>> {
    set t | t in lookup && HasPrefix(t, "!") :: Entry(t, lookup[t])
  }

  /** fuzzyLookup: the loop over the map visits the triggers in any order, and
      returns a command exactly when all the nearest triggers name it. */
  method FuzzyLookup(lookup: map<string, nat>, command: string) returns (r: Option<nat>)
    ensures FuzzyMaxDistance(|command|) == 0 ==> r == None
    ensures FuzzyMaxDistance(|command|) > 0 ==>
      Answers(Triggers(lookup), command, FuzzyMaxDistance(|command|), r)
  {
    var maxDist := FuzzyMaxDistance(|command|);
    if maxDist == 0 {
      return None;
    }
    var best := Best(None, maxDist + 1, false);
    var rest := lookup.Keys;
    ghost var seen := {};
    while rest != {}
      invariant rest <= lookup.Keys
      invariant Tracks(seen, command, maxDist, best)
      invariant seen == set t | t in lookup && t !in rest && HasPrefix(t, "!") :: Entry(t, lookup[t])
      decreases |rest|
    {
      var trigger :| trigger in rest;
      rest := rest - {trigger};
      if HasPrefix(trigger, "!") {
        var dist := Levenshtein(command, trigger);
        ConsiderTracks(seen, command, maxDist, best, Entry(trigger, lookup[trigger]));
        best := Consider(best, maxDist, dist, lookup[trigger]);
        seen := seen + {Entry(trigger, lookup[trigger])};
      }
    }
    assert seen == Triggers(lookup);
    TrackedAnswer(seen, command, maxDist, best);
    r := if best.ambiguous then None else best.value;
  }

  // ----- state names

  // The first k states, each under its lower-cased name.
  ghost function StateEntries(names: seq<string>, lower: seq<string>, k: nat): set<Entry<string>>
    requires k <= |names| == |lower|
  {
    set i | 0 <= i < k :: Entry(lower[i], names[i])
  }

  // The search loop of fuzzyStateName.
  method NearestState(names: seq<string>, lower: seq<string>, lowered: string, maxDist: nat) returns (r: Option<string>)
    requires |names| == |lower|
    ensures Answers(StateEntries(names, lower, |names|), lowered, maxDist, r)
  {
    var best: Best<string> := Best(None, maxDist + 1, false);
    for i := 0 to |names|
      invariant Tracks(StateEntries(names, lower, i), lowered, maxDist, best)
    {
      var dist := Levenshtein(lowered, lower[i]);
      ConsiderTracks(StateEntries(names, lower, i), lowered, maxDist, best, Entry(lower[i], names[i]));
      assert StateEntries(names, lower, i + 1) == StateEntries(names, lower, i) + {Entry(lower[i], names[i])};
      best := Consider(best, maxDist, dist, names[i]);
    }
    TrackedAnswer(StateEntries(names, lower, |names|), lowered, maxDist, best);
    r := if best.ambiguous then None else best.value;
  }

  /** fuzzyStateName: an exact name is never touched; otherwise the guess is
      corrected exactly when all the nearest names, lower-cased, are one name. */
  method FuzzyStateName(tables: Tables, guess: string) returns (r: Option<string>)
    ensures IsStateName(tables, guess) || FuzzyMaxDistance(|guess|) == 0 ==> r == None
    ensures !IsStateName(tables, guess) && FuzzyMaxDistance(|guess|) > 0 ==>
      Answers(StateEntries(tables.states, LowerStates(tables), |tables.states|), ToLower(tables, guess),
              FuzzyMaxDistance(|guess|), r)
  {
    var maxDist := FuzzyMaxDistance(|guess|);
    if IsStateName(tables, guess) || maxDist == 0 {
      return None;
    }
    r := NearestState(tables.states, LowerStates(tables), ToLower(tables, guess), maxDist);
  }
}
