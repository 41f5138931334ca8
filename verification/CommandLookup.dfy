/** Finding the command a chat message names (pkg/chatbot/handlers.go, registry.go). */
module CommandLookup {
  import opened Wrappers
  import opened Words
  import opened Fuzzy

  // ----- the registry

  // A command is identified by its position in the registry.
  datatype Command = Command(trigger: string, aliases: seq<string>)
  {
    predicate Names(t: string) { t == trigger || t in aliases }
  }

  const PLATFORM_TWITCH := "twitch"

  // The commands that every other platform runs.
  const V1_COMMANDS := {
    "!version", "!uptime", "!commands", "!gas", "!report", "!favorite", "!trim", "!song", "!audio",
    "!weather", "!time", "!date", "!sunset", "!state", "!location", "!direction", "!speed",
    "!timewarp", "!jump", "!skip", "!back", "!daytime", "!find",
    "!socialmedia", "!discord", "!twitter", "!instagram", "!facebook", "!youtube", "!tiktok", "!bluesky"}

  // An unset platform is Twitch.
  function Platform(configured: string): string {
    if configured == "" then PLATFORM_TWITCH else configured
  }

  predicate CommandEnabled(configured: string, cmd: Command) {
    Platform(configured) == PLATFORM_TWITCH || cmd.trigger in V1_COMMANDS
  }

  datatype Lookup = Lookup(single: map<string, nat>, multi: map<string, nat>)
  {
    function Get(t: string): Option<nat> {
      var m := if ' ' in t then multi else single;
      if t in m then Some(m[t]) else None
    }

    // The single words and the multi-word aliases are kept apart.
    ghost predicate Apart() {
      (forall t :: t in single ==> ' ' !in t) && (forall t :: t in multi ==> ' ' in t)
    }

    function Register(t: string, cmd: nat): (r: Lookup)
      ensures forall u :: r.Get(u) == if u == t then Some(cmd) else Get(u)
      ensures Apart() ==> r.Apart()
    {
      if ' ' in t then this.(multi := multi[t := cmd]) else this.(single := single[t := cmd])
    }
  }

  // Among the first k commands, i is the last enabled one that names t.
  ghost predicate LastEnabled(commands: seq<Command>, enabled: Command -> bool, k: nat, t: string, i: nat) {
    && i < k <= |commands| && enabled(commands[i]) && commands[i].Names(t)
    && forall j :: i < j < k && enabled(commands[j]) ==> !commands[j].Names(t)
  }

  // The maps hold exactly the words of the first k commands that are enabled,
  // single words apart from multi-word aliases.
  ghost predicate Indexes(commands: seq<Command>, enabled: Command -> bool, k: nat, lookup: Lookup) {
    && lookup.Apart()
    && (forall t, i: nat :: lookup.Get(t) == Some(i) <==> LastEnabled(commands, enabled, k, t, i))
  }

  class Registry {
    const commands: seq<Command>
    var singleWordLookup: map<string, nat>
    var multiWordLookup: map<string, nat>

    constructor (commands: seq<Command>)
      ensures this.commands == commands && View() == Lookup(map[], map[])
    {
      this.commands := commands;
      singleWordLookup, multiWordLookup := map[], map[];
    }

    function View(): Lookup
      reads this
    {
      Lookup(singleWordLookup, multiWordLookup)
    }

    method RegisterTrigger(trigger: string, cmd: nat)
      modifies this
      ensures View() == old(View()).Register(trigger, cmd)
    {
      if ' ' in trigger {
        multiWordLookup := multiWordLookup[trigger := cmd];
      } else {
        singleWordLookup := singleWordLookup[trigger := cmd];
      }
    }

    method RegisterCommand(i: nat)
      requires i < |commands|
      modifies this
      ensures old(View()).Apart() ==> View().Apart()
      ensures forall t :: View().Get(t) == if commands[i].Names(t) then Some(i) else old(View()).Get(t)
    {
      var cmd := commands[i];
      RegisterTrigger(cmd.trigger, i);
      for n := 0 to |cmd.aliases|
        invariant old(View()).Apart() ==> View().Apart()
        invariant forall t ::
          View().Get(t) == (if t == cmd.trigger || t in cmd.aliases[..n] then Some(i) else old(View()).Get(t))
      {
        RegisterTrigger(cmd.aliases[n], i);
        assert cmd.aliases[..n + 1] == cmd.aliases[..n] + [cmd.aliases[n]];
      }
      assert cmd.aliases[..|cmd.aliases|] == cmd.aliases;
    }

    /** Every word of every enabled command is indexed, no other word is, and a
        word that several commands claim names the last of them. */
    method IndexCommands(enabled: Command -> bool)
      modifies this
      ensures Indexes(commands, enabled, |commands|, View())
    {
      singleWordLookup, multiWordLookup := map[], map[];
      for i := 0 to |commands|
        invariant Indexes(commands, enabled, i, View())
      {
        if enabled(commands[i]) {
          RegisterCommand(i);
          OneMoreEnabled(commands, enabled, i);
        } else {
          OneMoreDisabled(commands, enabled, i);
        }
      }
    }
  }

  lemma OneMoreEnabled(commands: seq<Command>, enabled: Command -> bool, i: nat)
    requires i < |commands| && enabled(commands[i])
    ensures forall t, j: nat :: LastEnabled(commands, enabled, i + 1, t, j) <==>
      if commands[i].Names(t) then j == i else LastEnabled(commands, enabled, i, t, j)
  {
    forall t, j: nat
      ensures LastEnabled(commands, enabled, i + 1, t, j) <==>
        if commands[i].Names(t) then j == i else LastEnabled(commands, enabled, i, t, j)
    {
      if j < i && commands[i].Names(t) { assert j < i < i + 1 && enabled(commands[i]); }
    }
  }

  lemma OneMoreDisabled(commands: seq<Command>, enabled: Command -> bool, i: nat)
    requires i < |commands| && !enabled(commands[i])
    ensures forall t, j: nat :: LastEnabled(commands, enabled, i + 1, t, j) <==> LastEnabled(commands, enabled, i, t, j)
  {
  }

  // ----- reading a message

  const INVALID_TAIL := ['\U{E0000}']

  // ¡miles and 1miles are !miles; a message that starts with a number is not.
  function NormalizeCommandPrefix(tables: Tables, msg: string): string {
    if msg != "" && msg[0] == '\U{00A1}' then "!" + msg[1..]
    else if |msg| > 1 && msg[0] == '1' && tables.isLetter(msg[1]) then "!" + msg[1..]
    else msg
  }

  datatype Parsed = Parsed(split: seq<string>, command: string, params: seq<string>)

  function Normalized(tables: Tables, message: string): string {
    NormalizeCommandPrefix(tables, TrimSpace(tables, message))
  }

  function Parse(tables: Tables, message: string): Parsed {
    ParseWords(tables, Split(Normalized(tables, message)))
  }

  function ParseWords(tables: Tables, split: seq<string>): Parsed
    requires split != []
  {
    var command := ToLower(tables, split[0]);
    var all := split[1..];
    var params := if all != [] && all[|all| - 1] == INVALID_TAIL then all[..|all| - 1] else all;
    if command == "!" && params != []
    then Parsed(split, command + ToLower(tables, params[0]), params[1..])
    else Parsed(split, command, params)
  }

  // ----- the stages of the lookup

  // The first words of the message are the alias, ignoring case.
  predicate MatchesAlias(tables: Tables, split: seq<string>, alias: string) {
    var n := |Split(alias)|;
    n <= |split| && EqualFold(tables, Join(split[..n]), alias)
  }

  const BARE_COMMAND_WORDS := {"commands", "help"}

  function StateGuessParams(tables: Tables, command: string, params: seq<string>): Option<seq<string>> {
    var name := if HasPrefix(command, "!") then command[1..] else command;
    var phrase := name + " " + Join(params);
    if name == "" then None
    else if params != [] && IsStateName(tables, phrase) then Some(Split(phrase))
    else if IsStateName(tables, name) then Some([name])
    else None
  }

  // t is the longest !-trigger that command properly starts with.
  ghost predicate LongestTrigger(single: map<string, nat>, command: string, t: string) {
    && t in single && HasPrefix(t, "!") && t < command
    && forall u :: u in single && HasPrefix(u, "!") && u < command ==> |u| <= |t|
  }

  ghost predicate SplitsAt(single: map<string, nat>, command: string, r: Option<string>) {
    match r
    case Some(t) => LongestTrigger(single, command, t)
    case None => forall t :: t in single && HasPrefix(t, "!") ==> !(t < command)
  }

  method SplitSpaceless(single: map<string, nat>, command: string) returns (r: Option<string>)
    ensures SplitsAt(single, command, r)
  {
    r := None;
    var bestLen := 0;
    var rest := single.Keys;
    while rest != {}
      invariant rest <= single.Keys
      invariant r.None? ==> bestLen == 0
      invariant r.Some? ==> r.value in single && HasPrefix(r.value, "!") && r.value < command && |r.value| == bestLen
      invariant forall t :: t in single && t !in rest && HasPrefix(t, "!") && t < command ==> |t| <= bestLen
      decreases |rest|
    {
      var trigger :| trigger in rest;
      rest := rest - {trigger};
      if HasPrefix(trigger, "!") && |trigger| > bestLen && |command| > |trigger| && HasPrefix(command, trigger) {
        r := Some(trigger);
        bestLen := |trigger|;
      }
    }
    if r.None? {
      forall t | t in single && HasPrefix(t, "!") ensures !(t < command) { assert |t| >= 1; }
    }
  }

  // ----- the answer

  datatype Resolution = Unresolved | Resolved(cmd: nat, typed: string, params: seq<string>)

  // What the stages after the alias scan answer, given the two searches' results.
  function ResolveWord(tables: Tables, single: map<string, nat>, p: Parsed, fuzzy: Option<nat>, prefix: Option<string>)
      : Resolution
    requires prefix.Some? ==> prefix.value in single && prefix.value <= p.command
  {
    var command, params := p.command, p.params;
    if command in single then Resolved(single[command], command, params)
    else if params == [] && command in BARE_COMMAND_WORDS && "!" + command in single
    then Resolved(single["!" + command], "!" + command, [])
    else if !HasPrefix(command, "!") then Unresolved
    else
      var state := StateGuessParams(tables, command, params);
      if "!guess" in single && state.Some?
      then Resolved(single["!guess"], "!" + ToLower(tables, Join(state.value)), state.value)
      else if fuzzy.Some? then Resolved(fuzzy.value, command, params)
      else
        if prefix.Some? && StateGuessParams(tables, "!" + command[|prefix.value|..], params).Some?
        then Resolved(single[prefix.value], command, [command[|prefix.value|..]] + params)
        else Unresolved
  }

  ghost predicate FuzzyAnswers(single: map<string, nat>, command: string, r: Option<nat>) {
    if FuzzyMaxDistance(|command|) == 0 then r == None
    else Answers(Triggers(single), command, FuzzyMaxDistance(|command|), r)
  }

  // r is an answer the code can give, in some order of the maps.
  ghost predicate Resolves(tables: Tables, lookup: Lookup, message: string, r: Resolution) {
    var p := Parse(tables, message);
    if exists alias :: alias in lookup.multi && MatchesAlias(tables, p.split, alias) then
      exists alias :: ResolvesByAlias(tables, lookup.multi, p.split, alias, r)
    else
      exists fuzzy, prefix :: ResolvesByWord(tables, lookup.single, p, fuzzy, prefix, r)
  }

  ghost predicate ResolvesByAlias(tables: Tables, multi: map<string, nat>, split: seq<string>, alias: string, r: Resolution) {
    alias in multi && MatchesAlias(tables, split, alias) && r == Resolved(multi[alias], alias, split[|Split(alias)|..])
  }

  ghost predicate ResolvesByWord(tables: Tables, single: map<string, nat>, p: Parsed, fuzzy: Option<nat>,
                                 prefix: Option<string>, r: Resolution) {
    && FuzzyAnswers(single, p.command, fuzzy) && SplitsAt(single, p.command, prefix)
    && r == ResolveWord(tables, single, p, fuzzy, prefix)
  }

  method FindCommand(tables: Tables, lookup: Lookup, message: string) returns (r: Resolution)
    ensures Resolves(tables, lookup, message, r)
  {
    var p := Parse(tables, message);
    var rest := lookup.multi.Keys;
    while rest != {}
      invariant rest <= lookup.multi.Keys
      invariant forall alias :: alias in lookup.multi && alias !in rest ==> !MatchesAlias(tables, p.split, alias)
      decreases |rest|
    {
      var alias :| alias in rest;
      rest := rest - {alias};
      if MatchesAlias(tables, p.split, alias) {
        r := Resolved(lookup.multi[alias], alias, p.split[|Split(alias)|..]);
        assert ResolvesByAlias(tables, lookup.multi, p.split, alias, r);
        return;
      }
    }
    var fuzzy := FuzzyLookup(lookup.single, p.command);
    var prefix := SplitSpaceless(lookup.single, p.command);
    r := ResolveWord(tables, lookup.single, p, fuzzy, prefix);
    assert ResolvesByWord(tables, lookup.single, p, fuzzy, prefix, r);
  }
}
