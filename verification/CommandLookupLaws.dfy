/** Command lookup does not depend on the order Go ranges over its maps. */
module CommandLookupLaws {
  import opened Wrappers
  import opened Words
  import opened EditDistance
  import opened Fuzzy
  import opened CommandLookup

  // The words of a are, ignoring case, the first words of b.
  predicate WordPrefix(tables: Tables, a: string, b: string) {
    var wa, wb := Split(a), Split(b);
    |wa| <= |wb| && WordsFold(tables, wb[..|wa|], wa)
  }

  ghost predicate WordPrefixFree(tables: Tables, multi: map<string, nat>) {
    forall a, b :: a in multi && b in multi && WordPrefix(tables, a, b) ==> a == b
  }

  lemma MatchIsWordwise(tables: Tables, split: seq<string>, alias: string)
    requires tables.Valid() && SpaceFree(split)
    ensures MatchesAlias(tables, split, alias) <==>
      |Split(alias)| <= |split| && WordsFold(tables, split[..|Split(alias)|], Split(alias))
  {
    var words := Split(alias);
    if |words| <= |split| {
      var head := split[..|words|];
      JoinSplit(alias);
      if WordsFold(tables, head, words) { JoinFolds(tables, head, words); }
      if EqualFold(tables, Join(head), alias) {
        SplitFolds(tables, Join(head), alias);
        SplitJoin(head);
      }
    }
  }

  // Two aliases that match the same message: the shorter is a prefix of the longer.
  lemma MatchesNest(tables: Tables, split: seq<string>, a: string, b: string)
    requires tables.Valid() && SpaceFree(split) && MatchesAlias(tables, split, a) && MatchesAlias(tables, split, b)
    requires |Split(a)| <= |Split(b)|
    ensures WordPrefix(tables, a, b)
  {
    MatchIsWordwise(tables, split, a);
    MatchIsWordwise(tables, split, b);
    var wa, wb := Split(a), Split(b);
    forall i | 0 <= i < |wa| ensures EqualFold(tables, wb[..|wa|][i], wa[i]) {
      assert EqualFold(tables, split[..|wb|][i], wb[i]) && EqualFold(tables, split[..|wa|][i], wa[i]);
      FoldTrans(tables, split[i], wb[i], wb[i]);
      FoldTrans(tables, wb[i], split[i], wa[i]);
    }
  }

  lemma OneAliasMatches(tables: Tables, multi: map<string, nat>, split: seq<string>, a: string, b: string)
    requires tables.Valid() && SpaceFree(split) && WordPrefixFree(tables, multi) && a in multi && b in multi
    requires MatchesAlias(tables, split, a) && MatchesAlias(tables, split, b)
    ensures a == b
  {
    if |Split(a)| <= |Split(b)| {
      MatchesNest(tables, split, a, b);
    } else {
      MatchesNest(tables, split, b, a);
    }
  }

  lemma LongestIsUnique(single: map<string, nat>, command: string, r1: Option<string>, r2: Option<string>)
    requires SplitsAt(single, command, r1) && SplitsAt(single, command, r2)
    ensures r1 == r2
  {
    if r1.Some? && r2.Some? {
      var t, u := r1.value, r2.value;
      assert |t| == |u|;
      assert t == command[..|t|] == u;
    }
  }

  lemma FuzzyIsUnique(single: map<string, nat>, command: string, r1: Option<nat>, r2: Option<nat>)
    requires FuzzyAnswers(single, command, r1) && FuzzyAnswers(single, command, r2)
    ensures r1 == r2
  {
  }

  /** When no multi-word alias is a word-prefix of another, a message has one
      answer only, in whatever order the three searches visit their maps. */
  lemma {:induction false} OrderDoesNotMatter(tables: Tables, lookup: Lookup, message: string, r1: Resolution, r2: Resolution)
    requires tables.Valid() && WordPrefixFree(tables, lookup.multi)
    requires Resolves(tables, lookup, message, r1) && Resolves(tables, lookup, message, r2)
    ensures r1 == r2
  {
    var p := Parse(tables, message);
    SplitIsSpaceFree(Normalized(tables, message));
    if exists alias :: alias in lookup.multi && MatchesAlias(tables, p.split, alias) {
      var a :| ResolvesByAlias(tables, lookup.multi, p.split, a, r1);
      var b :| ResolvesByAlias(tables, lookup.multi, p.split, b, r2);
      OneAliasMatches(tables, lookup.multi, p.split, a, b);
    } else {
      var f1, x1 :| ResolvesByWord(tables, lookup.single, p, f1, x1, r1);
      var f2, x2 :| ResolvesByWord(tables, lookup.single, p, f2, x2, r2);
      FuzzyIsUnique(lookup.single, p.command, f1, f2);
      LongestIsUnique(lookup.single, p.command, x1, x2);
    }
  }

  // A message that is just this alias reaches the scan unchanged.
  ghost predicate Typable(tables: Tables, alias: string) {
    Normalized(tables, alias) == alias
  }

  lemma WholeAliasMatches(tables: Tables, a: string, b: string)
    requires tables.Valid() && WordPrefix(tables, a, b)
    ensures MatchesAlias(tables, Split(b), a) && MatchesAlias(tables, Split(b), b)
  {
    SplitIsSpaceFree(b);
    MatchIsWordwise(tables, Split(b), a);
    MatchIsWordwise(tables, Split(b), b);
  }

  lemma AliasResolves(tables: Tables, lookup: Lookup, message: string, alias: string, r: Resolution)
    requires ResolvesByAlias(tables, lookup.multi, Parse(tables, message).split, alias, r)
    ensures Resolves(tables, lookup, message, r)
  {
  }

  /** And when one alias is a word-prefix of another that can be typed, the
      longer one typed in full has two different answers, by the map's order. */
  lemma OrderMattersOtherwise(tables: Tables, lookup: Lookup, a: string, b: string)
    requires tables.Valid() && a in lookup.multi && b in lookup.multi && a != b
    requires WordPrefix(tables, a, b) && Typable(tables, b)
    ensures exists r1, r2 :: r1 != r2 && Resolves(tables, lookup, b, r1) && Resolves(tables, lookup, b, r2)
  {
    var r1 := AliasAnswers(tables, lookup, a, b);
    assert Split(b)[..|Split(b)|] == Split(b);
    var r2 := AliasAnswers(tables, lookup, b, b);
    assert r1.typed == a && r2.typed == b;
  }

  lemma AliasAnswers(tables: Tables, lookup: Lookup, a: string, b: string) returns (r: Resolution)
    requires tables.Valid() && a in lookup.multi && WordPrefix(tables, a, b) && Typable(tables, b)
    ensures r.Resolved? && r.typed == a && Resolves(tables, lookup, b, r)
  {
    var split := Parse(tables, b).split;
    WholeAliasMatches(tables, a, b);
    r := Resolved(lookup.multi[a], a, split[|Split(a)|..]);
    AliasResolves(tables, lookup, b, a, r);
  }

  /** So for aliases that can be typed, every message has one answer if and only
      if no alias is a word-prefix of another. */
  lemma {:induction false} OneAnswerIffPrefixFree(tables: Tables, lookup: Lookup)
    requires tables.Valid() && forall a :: a in lookup.multi ==> Typable(tables, a)
    ensures WordPrefixFree(tables, lookup.multi) <==>
      forall message, r1, r2 :: Resolves(tables, lookup, message, r1) && Resolves(tables, lookup, message, r2) ==> r1 == r2
  {
    if WordPrefixFree(tables, lookup.multi) {
      forall message, r1, r2 | Resolves(tables, lookup, message, r1) && Resolves(tables, lookup, message, r2)
        ensures r1 == r2
      {
        OrderDoesNotMatter(tables, lookup, message, r1, r2);
      }
    } else {
      var a, b :| a in lookup.multi && b in lookup.multi && WordPrefix(tables, a, b) && a != b;
      OrderMattersOtherwise(tables, lookup, a, b);
    }
  }

  // The words of the multi-word aliases of the registry.
  const REGISTERED: seq<seq<string>> := [
    ["is", "this", "live"], ["is", "this", "live?"], ["where", "is", "this"], ["where", "is", "this?"],
    ["no", "audio"], ["no", "sound"], ["no", "music"]]

  // Folding case never confuses two lower-case ASCII letters.
  ghost predicate KeepsLetters(tables: Tables) {
    forall c, d :: 'a' <= c <= 'z' && 'a' <= d <= 'z' && tables.orbit(c) == tables.orbit(d) ==> c == d
  }

  // The words tell two registered aliases apart.
  lemma RegisteredDiffer(tables: Tables, i: nat, j: nat)
    requires KeepsLetters(tables) && i < |REGISTERED| && j < |REGISTERED| && i != j
    ensures !(|REGISTERED[i]| <= |REGISTERED[j]| && WordsFold(tables, REGISTERED[j][..|REGISTERED[i]|], REGISTERED[i]))
  {
    var a, b := REGISTERED[i], REGISTERED[j];
    if |a| <= |b| {
      var head := b[..|a|];
      assert head[0] == b[0] && head[1] == b[1] && (|a| == 3 ==> head[2] == b[2]);
      assert EqualFold(tables, b[0], a[0]) ==> tables.orbit(b[0][0]) == tables.orbit(a[0][0]);
      assert EqualFold(tables, b[1], a[1]) ==> tables.orbit(b[1][0]) == tables.orbit(a[1][0]);
    }
  }

  lemma RegisteredWords(i: nat)
    requires i < |REGISTERED|
    ensures Split(Join(REGISTERED[i])) == REGISTERED[i]
  {
    SplitJoin(REGISTERED[i]);
  }

  /** The registered multi-word aliases are word-prefix-free. */
  lemma {:induction false} RegisteredAliasesArePrefixFree(tables: Tables, multi: map<string, nat>)
    requires KeepsLetters(tables) && forall a :: a in multi ==> exists i :: 0 <= i < |REGISTERED| && a == Join(REGISTERED[i])
    ensures WordPrefixFree(tables, multi)
  {
    forall a, b | a in multi && b in multi && WordPrefix(tables, a, b) ensures a == b {
      var i :| 0 <= i < |REGISTERED| && a == Join(REGISTERED[i]);
      var j :| 0 <= j < |REGISTERED| && b == Join(REGISTERED[j]);
      RegisteredWords(i);
      RegisteredWords(j);
      if i != j { RegisteredDiffer(tables, i, j); }
    }
  }

  // The word of the lookup maps that names the answered command.
  lemma NamedInLookup(tables: Tables, lookup: Lookup, message: string, r: Resolution) returns (t: string, multi: bool)
    requires Resolves(tables, lookup, message, r) && r.Resolved?
    ensures if multi then t in lookup.multi && lookup.multi[t] == r.cmd else t in lookup.single && lookup.single[t] == r.cmd
  {
    var p := Parse(tables, message);
    multi := exists alias :: alias in lookup.multi && MatchesAlias(tables, p.split, alias);
    if multi {
      t :| ResolvesByAlias(tables, lookup.multi, p.split, t, r);
    } else {
      var fuzzy, prefix :| ResolvesByWord(tables, lookup.single, p, fuzzy, prefix, r);
      t := NamedBy(tables, lookup, p, fuzzy, prefix, r);
    }
  }

  /** Only commands enabled on the platform are ever returned. */
  lemma OnlyEnabledCommands(tables: Tables, commands: seq<Command>, enabled: Command -> bool, lookup: Lookup,
                            message: string, r: Resolution)
    requires Indexes(commands, enabled, |commands|, lookup) && Resolves(tables, lookup, message, r) && r.Resolved?
    ensures r.cmd < |commands| && enabled(commands[r.cmd])
  {
    var t, multi := NamedInLookup(tables, lookup, message, r);
    IndexedIsEnabled(commands, enabled, lookup, t, multi);
  }

  /** On every platform but Twitch, known or not, a message only ever reaches a
      command of the vetted list; a misspelling, an alias or a state name is no way round it. */
  lemma OnlyVettedElsewhere(tables: Tables, commands: seq<Command>, configured: string, lookup: Lookup,
                            message: string, r: Resolution)
    requires Platform(configured) != PLATFORM_TWITCH
    requires Indexes(commands, c => CommandEnabled(configured, c), |commands|, lookup)
    requires Resolves(tables, lookup, message, r) && r.Resolved?
    ensures r.cmd < |commands| && commands[r.cmd].trigger in V1_COMMANDS
  {
    OnlyEnabledCommands(tables, commands, c => CommandEnabled(configured, c), lookup, message, r);
  }

  lemma OnlyEnabledCommandsIfAny(tables: Tables, commands: seq<Command>, enabled: Command -> bool, lookup: Lookup,
                                 message: string, r: Resolution)
    requires Indexes(commands, enabled, |commands|, lookup) && Resolves(tables, lookup, message, r)
    ensures r.Resolved? ==> r.cmd < |commands| && enabled(commands[r.cmd])
  {
    if r.Resolved? { OnlyEnabledCommands(tables, commands, enabled, lookup, message, r); }
  }

  lemma IndexedIsEnabled(commands: seq<Command>, enabled: Command -> bool, lookup: Lookup, t: string, multi: bool)
    requires Indexes(commands, enabled, |commands|, lookup) && if multi then t in lookup.multi else t in lookup.single
    ensures var i := if multi then lookup.multi[t] else lookup.single[t]; i < |commands| && enabled(commands[i])
  {
    var i := if multi then lookup.multi[t] else lookup.single[t];
    assert lookup.Get(t) == Some(i);
    assert LastEnabled(commands, enabled, |commands|, t, i);
  }

  // The trigger that names the command a single-word stage answered.
  lemma {:induction false} NamedBy(tables: Tables, lookup: Lookup, p: Parsed, fuzzy: Option<nat>, prefix: Option<string>, r: Resolution)
      returns (t: string)
    requires ResolvesByWord(tables, lookup.single, p, fuzzy, prefix, r) && r.Resolved?
    ensures t in lookup.single && lookup.single[t] == r.cmd
  {
    var single, command := lookup.single, p.command;
    if command in single {
      t := command;
    } else if p.params == [] && command in BARE_COMMAND_WORDS && "!" + command in single {
      t := "!" + command;
    } else if "!guess" in single && StateGuessParams(tables, command, p.params).Some? {
      t := "!guess";
    } else if fuzzy.Some? {
      var e :| Nearest(Triggers(single), command, FuzzyMaxDistance(|command|), e);
      t := e.name;
    } else {
      t := prefix.value;
    }
  }

  // ----- what a viewer types

  predicate MatchesSomeAlias(tables: Tables, multi: map<string, nat>, split: seq<string>) {
    exists alias :: alias in multi && MatchesAlias(tables, split, alias)
  }

  // The words spell this command and these params: the command's word in any
  // case, or a bang apart from the rest of it; the params as they are; and the
  // invalid character that some clients add.
  predicate Spells(tables: Tables, words: seq<string>, command: string, params: seq<string>, tail: seq<string>) {
    && words != [] && (tail == [INVALID_TAIL] || (tail == [] && (|words| > 1 ==> words[|words| - 1] != INVALID_TAIL)))
    && ((command == ToLower(tables, words[0]) != "!" && words == [words[0]] + (params + tail))
        || (|words| > 1 && ToLower(tables, words[0]) == "!" && command == "!" + ToLower(tables, words[1])
            && words == [words[0]] + ([words[1]] + (params + tail))))
  }

  // Dropping the invalid character from what follows the first word.
  lemma TailDropped(rest: seq<string>, tail: seq<string>)
    requires tail == [INVALID_TAIL] || (tail == [] && (rest != [] ==> rest[|rest| - 1] != INVALID_TAIL))
    ensures var all := rest + tail;
      rest == if all != [] && all[|all| - 1] == INVALID_TAIL then all[..|all| - 1] else all
  {
  }

  /** Words that spell a command and params are read as that command and those params. */
  lemma SpelledIsParsed(tables: Tables, words: seq<string>, command: string, params: seq<string>, tail: seq<string>)
    requires Spells(tables, words, command, params, tail)
    ensures ParseWords(tables, words) == Parsed(words, command, params)
  {
    if ToLower(tables, words[0]) != "!" {
      assert words[1..] == params + tail;
      TailDropped(params, tail);
    } else {
      var rest := [words[1]] + params;
      assert words[1..] == rest + tail && rest[1..] == params;
      TailDropped(rest, tail);
    }
  }

  lemma ParseOfWords(tables: Tables, message: string, words: seq<string>)
    requires words != [] && SpaceFree(words) && Normalized(tables, message) == Join(words)
    ensures Parse(tables, message) == ParseWords(tables, words)
  {
    SplitJoin(words);
  }

  /** A message that spells an indexed trigger, in any case, with the bang apart
      or not, reaches that trigger's command with the params as typed, unless
      it opens with a multi-word alias. */
  lemma ExactTriggerWins(tables: Tables, lookup: Lookup, message: string, words: seq<string>, trigger: string,
                         params: seq<string>, tail: seq<string>, r: Resolution)
    requires words != [] && SpaceFree(words) && Normalized(tables, message) == Join(words)
    requires Spells(tables, words, trigger, params, tail) && trigger in lookup.single
    requires !MatchesSomeAlias(tables, lookup.multi, words)
    requires Resolves(tables, lookup, message, r)
    ensures r == Resolved(lookup.single[trigger], trigger, params)
  {
    ParseOfWords(tables, message, words);
    SpelledIsParsed(tables, words, trigger, params, tail);
    var p := Parse(tables, message);
    var fuzzy, prefix :| ResolvesByWord(tables, lookup.single, p, fuzzy, prefix, r);
  }

  lemma {:induction false} ParamsAreWords(tables: Tables, words: seq<string>)
    requires tables.Valid() && words != [] && SpaceFree(words)
    ensures var p := ParseWords(tables, words); ' ' !in p.command && SpaceFree(p.params)
  {
    var p := ParseWords(tables, words);
    LowerIsSpaceFree(tables, words[0]);
    var all := words[1..];
    var params := if all != [] && all[|all| - 1] == INVALID_TAIL then all[..|all| - 1] else all;
    if params != [] {
      assert params[0] == words[1];
      LowerIsSpaceFree(tables, words[1]);
    }
  }

  lemma LowerIsSpaceFree(tables: Tables, word: string)
    requires tables.Valid() && ' ' !in word
    ensures ' ' !in ToLower(tables, word)
  {
  }

  // The words a state shortcut hands to !guess: the whole phrase, or else its first word.
  function GuessWords(tables: Tables, name: string, params: seq<string>): seq<string> {
    if IsStateName(tables, Join([name] + params)) then [name] + params else [name]
  }

  lemma StateWords(tables: Tables, name: string, params: seq<string>)
    requires name != "" && ' ' !in name && SpaceFree(params)
    ensures StateGuessParams(tables, "!" + name, params) ==
      if IsStateName(tables, Join(GuessWords(tables, name, params))) then Some(GuessWords(tables, name, params)) else None
  {
    var all := [name] + params;
    assert ("!" + name)[1..] == name && all[1..] == params;
    SplitJoin(all);
    if params == [] { assert all == [name]; }
  }

  /** A state's full name behind a bang, one word or several, in any case, with the
      bang apart or not, guesses that state: unless its first word is a
      command, !guess gets exactly the name's words; and when the words after
      the first do not belong to a name, the first alone. */
  lemma StateShortcut(tables: Tables, lookup: Lookup, message: string, name: string, r: Resolution)
    requires tables.Valid() && name != "" && Parse(tables, message).command == "!" + name
    requires var p := Parse(tables, message);
      && !MatchesSomeAlias(tables, lookup.multi, p.split) && p.command !in lookup.single
      && "!guess" in lookup.single && IsStateName(tables, Join(GuessWords(tables, name, p.params)))
    requires Resolves(tables, lookup, message, r)
    ensures var words := GuessWords(tables, name, Parse(tables, message).params);
      r == Resolved(lookup.single["!guess"], "!" + ToLower(tables, Join(words)), words)
  {
    var p := Parse(tables, message);
    SplitIsSpaceFree(Normalized(tables, message));
    ParamsAreWords(tables, Split(Normalized(tables, message)));
    NameIsSpaceFree(name);
    StateWords(tables, name, p.params);
    BangIsNotBare(name);
    GuessedFromWords(tables, lookup, message, p, GuessWords(tables, name, p.params), r);
  }

  lemma NameIsSpaceFree(name: string)
    ensures ' ' !in "!" + name ==> ' ' !in name
  {
  }

  lemma GuessedFromWords(tables: Tables, lookup: Lookup, message: string, p: Parsed, words: seq<string>, r: Resolution)
    requires p == Parse(tables, message) && Resolves(tables, lookup, message, r)
    requires !MatchesSomeAlias(tables, lookup.multi, p.split)
    requires p.command !in lookup.single && p.command !in BARE_COMMAND_WORDS && HasPrefix(p.command, "!")
    requires "!guess" in lookup.single && StateGuessParams(tables, p.command, p.params) == Some(words)
    ensures r == Resolved(lookup.single["!guess"], "!" + ToLower(tables, Join(words)), words)
  {
    var fuzzy, prefix :| ResolvesByWord(tables, lookup.single, p, fuzzy, prefix, r);
  }

  lemma BangIsNotBare(word: string)
    ensures "!" + word !in BARE_COMMAND_WORDS && HasPrefix("!" + word, "!")
  {
    assert ("!" + word)[0] == '!';
  }

  // ----- the stages, one by one, from the message

  // No alias, no indexed word: what is left to the later stages.
  ghost predicate NoCommand(tables: Tables, lookup: Lookup, message: string) {
    var p := Parse(tables, message);
    !MatchesSomeAlias(tables, lookup.multi, p.split) && p.command !in lookup.single
  }

  // Letter by letter the same, up to case.
  predicate SpeltAlike(tables: Tables, a: seq<string>, b: seq<string>) {
    |a| == |b| && forall i :: 0 <= i < |a| ==>
      |a[i]| == |b[i]| && forall j :: 0 <= j < |a[i]| ==> tables.orbit(a[i][j]) == tables.orbit(b[i][j])
  }

  /** A message that opens with the words of an alias, in any case, runs the alias's
      command with the remaining words, all of them, as params. */
  lemma {:induction false} AliasWins(tables: Tables, lookup: Lookup, message: string, words: seq<string>, alias: string,
                  params: seq<string>, r: Resolution)
    requires tables.Valid() && WordPrefixFree(tables, lookup.multi) && alias in lookup.multi
    requires Normalized(tables, message) == Join(words + params) && SpaceFree(words + params)
    requires SpeltAlike(tables, words, Split(alias)) && Resolves(tables, lookup, message, r)
    ensures r == Resolved(lookup.multi[alias], alias, params)
  {
    var split := words + params;
    SplitJoin(split);
    assert Parse(tables, message).split == split;
    assert split[..|words|] == words && split[|words|..] == params;
    MatchIsWordwise(tables, split, alias);
    var a :| ResolvesByAlias(tables, lookup.multi, split, a, r);
    OneAliasMatches(tables, lookup.multi, split, a, alias);
  }

  /** "commands" or "help" as the whole message runs the command behind the bang. */
  lemma BareWord(tables: Tables, lookup: Lookup, message: string, r: Resolution)
    requires var p := Parse(tables, message);
      NoCommand(tables, lookup, message) && p.params == [] && (p.command == "commands" || p.command == "help")
    requires Resolves(tables, lookup, message, r)
    ensures var bang := "!" + Parse(tables, message).command;
      r == if bang in lookup.single then Resolved(lookup.single[bang], bang, []) else Unresolved
  {
    var p := Parse(tables, message);
    var fuzzy, prefix :| ResolvesByWord(tables, lookup.single, p, fuzzy, prefix, r);
    assert p.command[0] != '!';
  }

  /** Any other word without a bang, or one of these two with more after it, is chat. */
  lemma PlainChat(tables: Tables, lookup: Lookup, message: string, r: Resolution)
    requires var p := Parse(tables, message);
      && NoCommand(tables, lookup, message) && (p.command == "" || p.command[0] != '!')
      && (p.params != [] || (p.command != "commands" && p.command != "help"))
    requires Resolves(tables, lookup, message, r)
    ensures r == Unresolved
  {
    var p := Parse(tables, message);
    var fuzzy, prefix :| ResolvesByWord(tables, lookup.single, p, fuzzy, prefix, r);
  }

  // The edits forgiven in a word of this length, bang included.
  function Forgiven(length: nat): nat {
    if length < 4 then 0 else if length < 7 then 1 else 2
  }

  // d is the least distance of any trigger from the word, and a forgiven one.
  ghost predicate LeastTypo(single: map<string, nat>, word: string, d: nat) {
    && 4 <= |word| && d <= Forgiven(|word|)
    && (exists t :: t in single && "!" <= t && Distance(word, t) == d)
    && forall t :: t in single && "!" <= t ==> d <= Distance(word, t)
  }

  // All triggers at the least distance name c.
  ghost predicate TypoOf(single: map<string, nat>, word: string, c: nat) {
    exists d :: LeastTypo(single, word, d) && forall t :: t in single && "!" <= t && Distance(word, t) == d ==> single[t] == c
  }

  lemma NearestMeansLeast(single: map<string, nat>, word: string, e: Entry<nat>)
    requires 4 <= |word|
    ensures Nearest(Triggers(single), word, FuzzyMaxDistance(|word|), e) <==>
      && e.name in single && "!" <= e.name && e.value == single[e.name] && LeastTypo(single, word, Distance(word, e.name))
  {
    forall t | t in single && "!" <= t ensures Entry(t, single[t]) in Triggers(single) {}
    if Nearest(Triggers(single), word, FuzzyMaxDistance(|word|), e) {
      forall t | t in single && "!" <= t ensures Distance(word, e.name) <= Distance(word, t) {
        if Distance(word, t) <= FuzzyMaxDistance(|word|) {
          assert Near(Triggers(single), word, FuzzyMaxDistance(|word|), Entry(t, single[t]));
        }
      }
    }
  }

  lemma AnswerIsTypo(single: map<string, nat>, word: string, r: Option<nat>)
    requires FuzzyAnswers(single, word, r)
    ensures match r
            case Some(c) => TypoOf(single, word, c)
            case None => forall c :: !TypoOf(single, word, c)
  {
    var max := FuzzyMaxDistance(|word|);
    if 4 <= |word| {
      forall e ensures Nearest(Triggers(single), word, max, e) <==>
        e.name in single && "!" <= e.name && e.value == single[e.name] && LeastTypo(single, word, Distance(word, e.name))
      {
        NearestMeansLeast(single, word, e);
      }
      forall c ensures TypoOf(single, word, c) <==> Unambiguous(Triggers(single), word, max, c) {
        UnambiguousIsTypo(single, word, c);
      }
    }
  }

  lemma UnambiguousIsTypo(single: map<string, nat>, word: string, c: nat)
    requires 4 <= |word|
    ensures TypoOf(single, word, c) <==> Unambiguous(Triggers(single), word, FuzzyMaxDistance(|word|), c)
  {
    var max := FuzzyMaxDistance(|word|);
    if TypoOf(single, word, c) {
      var d :| LeastTypo(single, word, d) && forall t :: t in single && "!" <= t && Distance(word, t) == d ==> single[t] == c;
      var t :| t in single && "!" <= t && Distance(word, t) == d;
      NearestMeansLeast(single, word, Entry(t, single[t]));
      forall e | Nearest(Triggers(single), word, max, e) ensures e.value == c {
        NearestMeansLeast(single, word, e);
      }
    }
    if Unambiguous(Triggers(single), word, max, c) {
      var e :| Nearest(Triggers(single), word, max, e);
      NearestMeansLeast(single, word, e);
      var d := Distance(word, e.name);
      forall t | t in single && "!" <= t && Distance(word, t) == d ensures single[t] == c {
        NearestMeansLeast(single, word, Entry(t, single[t]));
      }
    }
  }

  // The rest of the word, with the params after it, is the name of a state, or the rest alone is.
  predicate GluedState(tables: Tables, rest: string, params: seq<string>) {
    IsStateName(tables, rest) || (params != [] && IsStateName(tables, Join([rest] + params)))
  }

  // A word behind a bang that no earlier stage takes: not indexed, not the name of a state.
  ghost predicate Misspelled(tables: Tables, lookup: Lookup, message: string) {
    var p := Parse(tables, message);
    && NoCommand(tables, lookup, message) && p.command != "" && p.command[0] == '!'
    && ("!guess" !in lookup.single || |p.command| == 1 || !GluedState(tables, p.command[1..], p.params))
  }

  lemma GluedIsGuess(tables: Tables, name: string, params: seq<string>)
    requires name != ""
    ensures StateGuessParams(tables, "!" + name, params).Some? <==> GluedState(tables, name, params)
  {
    assert ("!" + name)[1..] == name;
    if params != [] { assert ([name] + params)[1..] == params; }
  }

  lemma LateStages(tables: Tables, lookup: Lookup, message: string, r: Resolution)
      returns (fuzzy: Option<nat>, prefix: Option<string>)
    requires Misspelled(tables, lookup, message) && Resolves(tables, lookup, message, r)
    ensures var p := Parse(tables, message);
      && FuzzyAnswers(lookup.single, p.command, fuzzy) && SplitsAt(lookup.single, p.command, prefix)
      && r == (if fuzzy.Some? then Resolved(fuzzy.value, p.command, p.params)
               else if prefix.Some? && GluedState(tables, p.command[|prefix.value|..], p.params)
               then Resolved(lookup.single[prefix.value], p.command, [p.command[|prefix.value|..]] + p.params)
               else Unresolved)
  {
    var p := Parse(tables, message);
    fuzzy, prefix :| ResolvesByWord(tables, lookup.single, p, fuzzy, prefix, r);
    if |p.command| > 1 {
      assert "!" + p.command[1..] == p.command;
      GluedIsGuess(tables, p.command[1..], p.params);
    }
    BangIsNotBare(p.command[1..]);
    assert "!" + p.command[1..] == p.command;
    if prefix.Some? { GluedIsGuess(tables, p.command[|prefix.value|..], p.params); }
  }

  /** A misspelled command runs the one command that all the triggers at the least
      forgiven distance name: one edit in four to six characters, two from seven
      on, none below four; with its params as typed. */
  lemma TypoIsForgiven(tables: Tables, lookup: Lookup, message: string, c: nat, r: Resolution)
    requires Misspelled(tables, lookup, message) && Resolves(tables, lookup, message, r)
    requires TypoOf(lookup.single, Parse(tables, message).command, c)
    ensures var p := Parse(tables, message); r == Resolved(c, p.command, p.params)
  {
    var fuzzy, prefix := LateStages(tables, lookup, message, r);
    var word := Parse(tables, message).command;
    AnswerIsTypo(lookup.single, word, fuzzy);
    TypoIsOne(lookup.single, word, c, fuzzy);
  }

  lemma TypoIsOne(single: map<string, nat>, word: string, c: nat, r: Option<nat>)
    requires TypoOf(single, word, c) && FuzzyAnswers(single, word, r)
    ensures r == Some(c)
  {
    AnswerIsTypo(single, word, r);
    if r.Some? {
      var d :| LeastTypo(single, word, d) && forall t :: t in single && "!" <= t && Distance(word, t) == d ==> single[t] == c;
      var t :| t in single && "!" <= t && Distance(word, t) == d;
    }
  }

  /** When no one command is a forgiven typo away, the longest trigger the word
      properly starts with runs with the rest put before the params, exactly
      when that rest, with them or alone, is the name of a state; otherwise the
      message names nothing. */
  lemma {:induction false} GluedOrUnknown(tables: Tables, lookup: Lookup, message: string, r: Resolution)
    requires Misspelled(tables, lookup, message) && Resolves(tables, lookup, message, r)
    requires forall c :: !TypoOf(lookup.single, Parse(tables, message).command, c)
    ensures var p := Parse(tables, message);
      && (forall t :: LongestTrigger(lookup.single, p.command, t) && GluedState(tables, p.command[|t|..], p.params) ==>
            r == Resolved(lookup.single[t], p.command, [p.command[|t|..]] + p.params))
      && ((forall t :: LongestTrigger(lookup.single, p.command, t) ==> !GluedState(tables, p.command[|t|..], p.params)) ==>
            r == Unresolved)
  {
    var fuzzy, prefix := LateStages(tables, lookup, message, r);
    var p := Parse(tables, message);
    AnswerIsTypo(lookup.single, p.command, fuzzy);
    forall t | LongestTrigger(lookup.single, p.command, t) ensures prefix == Some(t) {
      LongestIsUnique(lookup.single, p.command, prefix, Some(t));
    }
  }

  // ----- reading the first characters

  /** A leading inverted exclamation mark, or a 1 before a letter, reads as a bang;
      anything else reads as it is. */
  lemma BangSpellings(tables: Tables, rest: string)
    ensures NormalizeCommandPrefix(tables, ['\U{00A1}'] + rest) == "!" + rest
    ensures NormalizeCommandPrefix(tables, "1" + rest) ==
      if rest != "" && tables.isLetter(rest[0]) then "!" + rest else "1" + rest
    ensures rest == "" || (rest[0] != '\U{00A1}' && rest[0] != '1') ==> NormalizeCommandPrefix(tables, rest) == rest
  {
    assert (['\U{00A1}'] + rest)[1..] == rest && ("1" + rest)[1..] == rest;
  }

  // ----- every enabled trigger can be reached

  /** On Twitch, or with no platform set, a message that spells any single-word
      trigger or alias of any command, and opens with no multi-word alias, runs
      a command of that name; and on any other platform so does one that spells
      a trigger or alias of a command of the allowlist. */
  lemma EnabledTriggerRuns(tables: Tables, commands: seq<Command>, configured: string, lookup: Lookup, message: string,
                           words: seq<string>, i: nat, trigger: string, params: seq<string>, tail: seq<string>, r: Resolution)
    requires Indexes(commands, c => CommandEnabled(configured, c), |commands|, lookup)
    requires i < |commands| && (commands[i].trigger == trigger || trigger in commands[i].aliases) && ' ' !in trigger
    requires configured == "" || configured == "twitch" || commands[i].trigger in V1_COMMANDS
    requires words != [] && SpaceFree(words) && Normalized(tables, message) == Join(words)
    requires Spells(tables, words, trigger, params, tail) && !MatchesSomeAlias(tables, lookup.multi, words)
    requires Resolves(tables, lookup, message, r)
    ensures r.Resolved? && r.typed == trigger && r.params == params && r.cmd < |commands|
    ensures commands[r.cmd].trigger == trigger || trigger in commands[r.cmd].aliases
  {
    EnabledIsIndexed(commands, c => CommandEnabled(configured, c), lookup, i, trigger);
    ExactTriggerWins(tables, lookup, message, words, trigger, params, tail, r);
  }

  lemma {:induction false} LastNamed(commands: seq<Command>, enabled: Command -> bool, k: nat, t: string) returns (j: nat)
    requires k <= |commands| && exists i :: 0 <= i < k && enabled(commands[i]) && commands[i].Names(t)
    ensures LastEnabled(commands, enabled, k, t, j)
  {
    if enabled(commands[k - 1]) && commands[k - 1].Names(t) {
      j := k - 1;
    } else {
      j := LastNamed(commands, enabled, k - 1, t);
    }
  }

  lemma EnabledIsIndexed(commands: seq<Command>, enabled: Command -> bool, lookup: Lookup, i: nat, t: string)
    requires Indexes(commands, enabled, |commands|, lookup) && ' ' !in t
    requires i < |commands| && enabled(commands[i]) && commands[i].Names(t)
    ensures t in lookup.single && lookup.single[t] < |commands| && commands[lookup.single[t]].Names(t)
  {
    var j := LastNamed(commands, enabled, |commands|, t);
    assert lookup.Get(t) == Some(j);
  }
}
