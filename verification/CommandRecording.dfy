/**
  Running a chat message and recording what became of it (pkg/chatbot/handlers.go,
  and the refusals inside the !guess and !report handlers of commands.go).
*/
module CommandRecording {
  import opened Wrappers
  import opened Words
  import opened Fuzzy
  import opened CommandLookup
  import RateLimits
  import CommandLookupLaws

  // ----- what is recorded

  datatype Reason = AdminGate | ModGate | FollowGate | SubGate | Cooldown | Unknown | WrongPlatform

  datatype Refusal = Refusal(user: string, command: string, args: string, reason: Reason)

  datatype Record =
    | Ran(user: string, command: string, typed: string, args: string)
    | Refused(refusal: Refusal)

  // ----- access

  datatype Gates = Gates(admin: bool, mod: bool, follow: bool, subscriber: bool)

  // What the platform and the session say about the sender.
  datatype Sender = Sender(name: string, isAdmin: bool, isMod: bool, available: bool, isSubscriber: bool)

  function CheckAccess(g: Gates, followerGating: bool, hasSubscribers: bool, user: Sender): Option<Reason> {
    if g.admin && !user.isAdmin then Some(AdminGate)
    else if g.mod && !user.isMod then Some(ModGate)
    else if followerGating && g.follow && !user.available then Some(FollowGate)
    else if g.subscriber && hasSubscribers && !user.isSubscriber then Some(SubGate)
    else None
  }

  /** A command runs exactly when every gate it has, and the platform can check, is passed. */
  lemma AccessGrantedIff(g: Gates, followerGating: bool, hasSubscribers: bool, user: Sender)
    ensures CheckAccess(g, followerGating, hasSubscribers, user) == None <==>
      && (g.admin ==> user.isAdmin) && (g.mod ==> user.isMod)
      && (followerGating && g.follow ==> user.available)
      && (g.subscriber && hasSubscribers ==> user.isSubscriber)
  {
  }

  // ----- handlers

  // Any handler, by the refusals it records from inside its body, in order, for
  // a sender and params; and !report, whose refusal hangs on its own history.
  datatype Handler =
    | Handler(refuses: (string, seq<string>) -> seq<Refusal>)
    | Report

  // !guess, when its sender may guess again or not yet.
  function Guess(available: bool): Handler {
    Handler((user, params) =>
              if params != [] && !available then [Refusal(user, "!guess", Join(params), Cooldown)] else [])
  }

  function Refusals(h: Handler, reportedAt: map<string, int>, now: int, user: string, params: seq<string>): seq<Refusal> {
    match h
    case Handler(refuses) => refuses(user, params)
    case Report =>
      if RateLimits.Blocked(reportedAt, user, now, RateLimits.REPORT_COOLDOWN)
      then [Refusal(user, "!report", Join(params), Cooldown)] else []
  }

  function ReportedAfter(h: Handler, reportedAt: map<string, int>, now: int, user: string): map<string, int> {
    if h.Report? then RateLimits.ReportStep(reportedAt, user, now) else reportedAt
  }

  // Where a recorded refusal also flips the dispatch's mark.
  class Mark {
    var refused: bool

    constructor ()
      ensures !refused
    {
      refused := false;
    }
  }

  // ----- the bot

  datatype Entry = Entry(command: Command, gates: Gates)

  predicate FoldNames(tables: Tables, c: Command, token: string) {
    EqualFold(tables, c.trigger, token) || exists k :: 0 <= k < |c.aliases| && EqualFold(tables, c.aliases[k], token)
  }

  function RefusedAll(refusals: seq<Refusal>): (records: seq<Record>)
    ensures |records| == |refusals|
  {
    seq(|refusals|, i requires 0 <= i < |refusals| => Refused(refusals[i]))
  }

  // One command on its way through dispatch.
  datatype Attempt = Attempt(e: Entry, h: Handler, typed: string, user: Sender, params: seq<string>, now: int)

  datatype Bot = Bot(tables: Tables, entries: seq<Entry>, enabled: Command -> bool, followerGating: bool,
                     hasSubscribers: bool, hasSink: bool)
  {
    ghost function Commands(): (cs: seq<Command>)
      ensures |cs| == |entries|
    {
      seq(|entries|, i requires 0 <= i < |entries| => entries[i].command)
    }

    // Entry i is registered but not enabled, and the token names it.
    predicate NamesDisabled(i: nat, token: string) {
      i < |entries| && !enabled(entries[i].command) && FoldNames(tables, entries[i].command, token)
    }

    function Logged(records: seq<Record>): seq<Record> {
      if hasSink then records else []
    }

    function Denied(a: Attempt): Option<Reason> {
      CheckAccess(a.e.gates, followerGating, hasSubscribers, a.user)
    }

    function RefusedInside(a: Attempt, reportedAt: map<string, int>): seq<Refusal> {
      Refusals(a.h, reportedAt, a.now, a.user.name, a.params)
    }

    // The records of one dispatch, and the reports it leaves on the books.
    function Outcome(a: Attempt, reportedAt: map<string, int>): seq<Record> {
      var trigger := a.e.command.trigger;
      if Denied(a).Some? then [Refused(Refusal(a.user.name, trigger, Join(a.params), Denied(a).value))]
      else if RefusedInside(a, reportedAt) != [] then RefusedAll(RefusedInside(a, reportedAt))
      else [Ran(a.user.name, trigger, if a.typed == trigger then "" else a.typed, Join(a.params))]
    }

    function Reported(a: Attempt, reportedAt: map<string, int>): map<string, int> {
      if Denied(a).Some? then reportedAt else ReportedAfter(a.h, reportedAt, a.now, a.user.name)
    }
  }

  // A chat line, the handlers as they stand when it comes in, and what it resolves to.
  datatype Message = Message(text: string, user: Sender, now: int, handlers: nat -> Handler, answer: Resolution)
  {
    predicate Fits(bot: Bot) {
      answer.Resolved? ==> answer.cmd < |bot.entries|
    }

    function Attempted(bot: Bot): Attempt
      requires Fits(bot) && answer.Resolved?
    {
      Attempt(bot.entries[answer.cmd], handlers(answer.cmd), answer.typed, user, answer.params, now)
    }

    // What the line leaves in the record.
    ghost function Left(bot: Bot, reportedAt: map<string, int>): seq<Record>
      requires Fits(bot)
    {
      var split := Split(Normalized(bot.tables, text));
      var command := TypedCommand(bot.tables, split);
      if answer.Resolved? then bot.Logged(bot.Outcome(Attempted(bot), reportedAt))
      else if !HasPrefix(command, "!") then []
      else
        var reason := if exists i: nat :: bot.NamesDisabled(i, command) then WrongPlatform else Unknown;
        bot.Logged([Refused(Refusal(user.name, command, Join(split[1..]), reason))])
    }

    function Reported(bot: Bot, reportedAt: map<string, int>): map<string, int>
      requires Fits(bot)
    {
      if answer.Resolved? then bot.Reported(Attempted(bot), reportedAt) else reportedAt
    }
  }

  // The token the refusal of an unresolved message names.
  function TypedCommand(tables: Tables, split: seq<string>): string
    requires split != []
  {
    var command := ToLower(tables, split[0]);
    if command == "!" && |split| > 1 then "!" + ToLower(tables, split[1]) else command
  }

  class App {
    const bot: Bot
    const reports: RateLimits.ReportCooldown
    var records: seq<Record>

    constructor (bot: Bot)
      ensures this.bot == bot && fresh(reports) && reports.reportedAt == map[] && records == []
    {
      this.bot := bot;
      reports := new RateLimits.ReportCooldown();
      records := [];
    }

    method RecordRefusal(mark: Mark?, refusal: Refusal)
      modifies this`records, mark
      ensures records == old(records) + bot.Logged([Refused(refusal)])
      ensures mark != null ==> mark.refused
    {
      if mark != null {
        mark.refused := true;
      }
      if bot.hasSink {
        records := records + [Refused(refusal)];
      }
    }

    method RecordRun(run: Record)
      requires run.Ran?
      modifies this`records
      ensures records == old(records) + bot.Logged([run])
    {
      if bot.hasSink {
        records := records + [run];
      }
    }

    /** A handler's own refusals all land in the record, and the mark is flipped
        exactly when there is one, sink or no sink. */
    method RunHandler(a: Attempt, mark: Mark)
      requires !mark.refused
      modifies this`records, mark, reports
      ensures mark.refused <==> bot.RefusedInside(a, old(reports.reportedAt)) != []
      ensures records == old(records) + bot.Logged(RefusedAll(bot.RefusedInside(a, old(reports.reportedAt))))
      ensures reports.reportedAt == ReportedAfter(a.h, old(reports.reportedAt), a.now, a.user.name)
    {
      if a.h.Report? {
        var allowed := reports.ReportAllowed(a.user.name, a.now);
        if !allowed {
          RecordRefusal(mark, Refusal(a.user.name, "!report", Join(a.params), Cooldown));
        }
        return;
      }
      var refusals := a.h.refuses(a.user.name, a.params);
      for i := 0 to |refusals|
        invariant mark.refused <==> i > 0
        invariant records == old(records) + bot.Logged(RefusedAll(refusals[..i]))
        invariant reports.reportedAt == old(reports.reportedAt)
      {
        RecordRefusal(mark, refusals[i]);
        assert RefusedAll(refusals[..i + 1]) == RefusedAll(refusals[..i]) + [Refused(refusals[i])];
      }
      assert refusals[..|refusals|] == refusals;
    }

    /** With a sink a dispatch adds one record when a gate denies or the handler
        refuses nothing, and otherwise one for each refusal of the handler. */
    method Dispatch(a: Attempt)
      modifies this`records, reports
      ensures records == old(records) + bot.Logged(bot.Outcome(a, old(reports.reportedAt)))
      ensures reports.reportedAt == bot.Reported(a, old(reports.reportedAt))
      ensures |records| - |old(records)| ==
        var inside := |bot.RefusedInside(a, old(reports.reportedAt))|;
        if !bot.hasSink then 0 else if bot.Denied(a).Some? || inside == 0 then 1 else inside
    {
      var trigger := a.e.command.trigger;
      var denied := CheckAccess(a.e.gates, bot.followerGating, bot.hasSubscribers, a.user);
      if denied.Some? {
        RecordRefusal(null, Refusal(a.user.name, trigger, Join(a.params), denied.value));
        return;
      }
      var mark := new Mark();
      RunHandler(a, mark);
      if mark.refused {
        return;
      }
      RecordRun(Ran(a.user.name, trigger, if a.typed == trigger then "" else a.typed, Join(a.params)));
    }

    // The first registered command that the token names but that is not enabled.
    method UnindexedCommand(token: string) returns (found: Option<nat>)
      ensures found.Some? ==>
        bot.NamesDisabled(found.value, token) && forall k: nat :: k < found.value ==> !bot.NamesDisabled(k, token)
      ensures found.None? ==> forall k: nat :: !bot.NamesDisabled(k, token)
    {
      for i := 0 to |bot.entries|
        invariant forall k: nat :: k < i ==> !bot.NamesDisabled(k, token)
      {
        if bot.NamesDisabled(i, token) {
          return Some(i);
        }
      }
      return None;
    }

    method RunCommand(lookup: Lookup, text: string, user: Sender, now: int, handlers: nat -> Handler)
        returns (ghost m: Message)
      requires Indexes(bot.Commands(), bot.enabled, |bot.entries|, lookup)
      modifies this`records, reports
      ensures m == Message(text, user, now, handlers, m.answer) && m.Fits(bot)
      ensures Resolves(bot.tables, lookup, text, m.answer)
      ensures records == old(records) + m.Left(bot, old(reports.reportedAt))
      ensures reports.reportedAt == m.Reported(bot, old(reports.reportedAt))
    {
      var split := Split(Normalized(bot.tables, text));
      var command := TypedCommand(bot.tables, split);
      var answer := FindCommand(bot.tables, lookup, text);
      m := Message(text, user, now, handlers, answer);
      CommandLookupLaws.OnlyEnabledCommandsIfAny(bot.tables, bot.Commands(), bot.enabled, lookup, text, answer);
      if answer.Resolved? {
        Dispatch(Attempt(bot.entries[answer.cmd], handlers(answer.cmd), answer.typed, user, answer.params, now));
        return;
      }
      if HasPrefix(command, "!") {
        var disabled := UnindexedCommand(command);
        var reason := if disabled.Some? then WrongPlatform else Unknown;
        RecordRefusal(null, Refusal(user.name, command, Join(split[1..]), reason));
      }
    }
  }

  // ----- one message

  // The message is addressed to the bot: after normalization it starts with a bang.
  predicate StartsWithBang(tables: Tables, text: string) {
    HasPrefix(Normalized(tables, text), "!")
  }

  /** A message leaves exactly one record if and only if there is a sink and it
      starts with a bang that names nothing, or names a command that a gate
      denies or whose handler refuses at most once; it leaves none exactly when
      there is no sink or it neither resolves nor starts with a bang. */
  lemma ExactlyOneRecord(bot: Bot, m: Message, reportedAt: map<string, int>)
    requires bot.tables.Valid() && m.Fits(bot)
    ensures var left := m.Left(bot, reportedAt);
      && (|left| == 1 <==>
            && bot.hasSink
            && if m.answer.Resolved?
               then bot.Denied(m.Attempted(bot)).Some? || |bot.RefusedInside(m.Attempted(bot), reportedAt)| <= 1
               else StartsWithBang(bot.tables, m.text))
      && (left == [] <==> !bot.hasSink || (m.answer.Unresolved? && !StartsWithBang(bot.tables, m.text)))
  {
  }

  /** So for the handlers there are, which never refuse, or refuse as !guess and
      !report do, every message that resolves leaves exactly one record. */
  lemma ShippedHandlersRecordOnce(bot: Bot, m: Message, reportedAt: map<string, int>)
    requires bot.tables.Valid() && m.Fits(bot) && bot.hasSink && m.answer.Resolved?
    requires var h := m.handlers(m.answer.cmd);
      h.Report? || (exists available :: h == Guess(available)) || h.refuses(m.user.name, m.answer.params) == []
    ensures |m.Left(bot, reportedAt)| == 1
  {
    ExactlyOneRecord(bot, m, reportedAt);
    var h := m.handlers(m.answer.cmd);
    if available :| !h.Report? && h == Guess(available) {
      assert |Refusals(Guess(available), reportedAt, m.now, m.user.name, m.answer.params)| <= 1;
    }
  }

  /** A message is recorded as a run exactly when it resolves to a command, every
      gate of that command is passed, and the handler did not refuse; and then
      the run is its only record. */
  lemma RanIff(bot: Bot, m: Message, reportedAt: map<string, int>)
    requires m.Fits(bot)
    ensures var left := m.Left(bot, reportedAt);
      && ((exists k :: 0 <= k < |left| && left[k].Ran?) ==> |left| == 1)
      && ((exists k :: 0 <= k < |left| && left[k].Ran?) <==>
            && bot.hasSink && m.answer.Resolved?
            && var g := bot.entries[m.answer.cmd].gates;
               && (g.admin ==> m.user.isAdmin) && (g.mod ==> m.user.isMod)
               && (bot.followerGating && g.follow ==> m.user.available)
               && (g.subscriber && bot.hasSubscribers ==> m.user.isSubscriber)
               && bot.RefusedInside(m.Attempted(bot), reportedAt) == [])
  {
    var left := m.Left(bot, reportedAt);
    if left != [] { assert left[0].Ran? || left[0].Refused?; }
  }

  // ----- what a record says

  /** The reason of a denial names the first gate that the sender does not pass. */
  lemma DenialReason(g: Gates, followerGating: bool, hasSubscribers: bool, user: Sender)
    ensures var reason := CheckAccess(g, followerGating, hasSubscribers, user);
      var admin, mod := g.admin && !user.isAdmin, g.mod && !user.isMod;
      var follow, sub := followerGating && g.follow && !user.available, g.subscriber && hasSubscribers && !user.isSubscriber;
      && (reason == Some(AdminGate) <==> admin)
      && (reason == Some(ModGate) <==> mod && !admin)
      && (reason == Some(FollowGate) <==> follow && !admin && !mod)
      && (reason == Some(SubGate) <==> sub && !admin && !mod && !follow)
      && (reason != None ==> reason.value in {AdminGate, ModGate, FollowGate, SubGate})
  {
  }

  /** A recorded run names its sender, the canonical trigger and the params, and
      keeps the typed word only when it is not the trigger itself. */
  lemma RunSays(bot: Bot, m: Message, reportedAt: map<string, int>)
    requires m.Fits(bot) && m.answer.Resolved? && bot.hasSink
    ensures var trigger, left := bot.entries[m.answer.cmd].command.trigger, m.Left(bot, reportedAt);
      forall k :: 0 <= k < |left| && left[k].Ran? ==>
        && left[k].user == m.user.name && left[k].command == trigger && left[k].args == Join(m.answer.params)
        && (m.answer.typed == trigger ==> left[k].typed == "")
        && (m.answer.typed != trigger ==> left[k].typed == m.answer.typed)
  {
  }

  /** A denied command is recorded under its canonical trigger, with the gate for
      a reason; !guess and !report refuse under their own names, for a cooldown. */
  lemma RefusalSays(bot: Bot, m: Message, reportedAt: map<string, int>)
    requires m.Fits(bot) && m.answer.Resolved? && bot.hasSink
    ensures var a, left := m.Attempted(bot), m.Left(bot, reportedAt);
      var args := Join(m.answer.params);
      if bot.Denied(a).Some? then
        left == [Refused(Refusal(m.user.name, bot.entries[m.answer.cmd].command.trigger, args, bot.Denied(a).value))]
      else
        && (a.h == Guess(false) && m.answer.params != [] ==>
              left == [Refused(Refusal(m.user.name, "!guess", args, Cooldown))])
        && (a.h == Guess(true) || (a.h == Guess(false) && m.answer.params == []) ==> |left| == 1 && left[0].Ran?)
        && (a.h.Report? && left[0].Refused? ==> left == [Refused(Refusal(m.user.name, "!report", args, Cooldown))])
  {
    var a, left := m.Attempted(bot), m.Left(bot, reportedAt);
    if bot.Denied(a).None? {
      assert left == bot.Outcome(a, reportedAt);
      if a.h == Guess(false) || a.h == Guess(true) {
        var inside := bot.RefusedInside(a, reportedAt);
        assert inside ==
          if a.h == Guess(false) && a.params != [] then [Refusal(a.user.name, "!guess", Join(a.params), Cooldown)] else [];
      }
    }
  }

  // A registered command that the platform does not run goes by this name.
  ghost predicate ElsewhereOnly(bot: Bot, name: string) {
    exists i :: 0 <= i < |bot.entries| && !bot.enabled(bot.entries[i].command) && AnyName(bot, bot.entries[i].command, name)
  }

  ghost predicate AnyName(bot: Bot, c: Command, name: string) {
    exists alias :: (alias == c.trigger || alias in c.aliases) && CommandLookupLaws.SpeltAlike(bot.tables, [alias], [name])
  }

  lemma AnyNameIs(bot: Bot, c: Command, name: string)
    ensures FoldNames(bot.tables, c, name) <==> AnyName(bot, c, name)
  {
    forall alias: string
      ensures EqualFold(bot.tables, alias, name) <==> CommandLookupLaws.SpeltAlike(bot.tables, [alias], [name])
    {
      if CommandLookupLaws.SpeltAlike(bot.tables, [alias], [name]) { assert [alias][0] == alias && [name][0] == name; }
    }
    if EqualFold(bot.tables, c.trigger, name) { assert CommandLookupLaws.SpeltAlike(bot.tables, [c.trigger], [name]); }
    if k :| 0 <= k < |c.aliases| && EqualFold(bot.tables, c.aliases[k], name) {
      assert c.aliases[k] in c.aliases && CommandLookupLaws.SpeltAlike(bot.tables, [c.aliases[k]], [name]);
    }
  }

  lemma ElsewhereIs(bot: Bot, name: string)
    ensures ElsewhereOnly(bot, name) <==> exists i: nat :: bot.NamesDisabled(i, name)
  {
    forall c: Command ensures FoldNames(bot.tables, c, name) <==> AnyName(bot, c, name) {
      AnyNameIs(bot, c, name);
    }
    if i :| 0 <= i < |bot.entries| && !bot.enabled(bot.entries[i].command) && AnyName(bot, bot.entries[i].command, name) {
      assert bot.NamesDisabled(i, name);
    }
  }

  // The word that a message behind a bang is refused under.
  function UnknownName(tables: Tables, words: seq<string>): string
    requires words != []
  {
    if |words| > 1 && |words[0]| == 1 then "!" + ToLower(tables, words[1]) else ToLower(tables, words[0])
  }

  lemma TypedIs(tables: Tables, words: seq<string>)
    requires words != [] && words[0] != "" && tables.lower(words[0][0]) == '!'
    ensures TypedCommand(tables, words) == UnknownName(tables, words) && HasPrefix(UnknownName(tables, words), "!")
  {
    if |words[0]| == 1 { assert ToLower(tables, words[0]) == "!"; }
  }

  /** A word behind a bang that resolves to nothing is refused under that word,
      lower-cased and with a bang apart joined to it, with every further word
      of the message; as a wrong platform's exactly when a registered command
      that does not run here goes by it, and else as unknown. */
  lemma UnknownSays(bot: Bot, m: Message, reportedAt: map<string, int>, words: seq<string>)
    requires m.Fits(bot) && m.answer.Unresolved? && bot.hasSink
    requires words != [] && SpaceFree(words) && Normalized(bot.tables, m.text) == Join(words)
    requires words[0] != "" && bot.tables.lower(words[0][0]) == '!'
    ensures var name := UnknownName(bot.tables, words);
      m.Left(bot, reportedAt) ==
        [Refused(Refusal(m.user.name, name, Join(words[1..]), if ElsewhereOnly(bot, name) then WrongPlatform else Unknown))]
  {
    SplitJoin(words);
    TypedIs(bot.tables, words);
    ElsewhereIs(bot, UnknownName(bot.tables, words));
  }

  // ----- reports over a run of messages

  predicate AllFit(bot: Bot, messages: seq<Message>) {
    forall i :: 0 <= i < |messages| ==> messages[i].Fits(bot)
  }

  ghost predicate InOrder(messages: seq<Message>) {
    forall i, j :: 0 <= i < j < |messages| ==> messages[i].now <= messages[j].now
  }

  // The reports on the books when message k comes in.
  function ReportedAt(bot: Bot, messages: seq<Message>, k: nat): map<string, int>
    requires AllFit(bot, messages) && k <= |messages|
  {
    if k == 0 then map[] else messages[k - 1].Reported(bot, ReportedAt(bot, messages, k - 1))
  }

  // Message k reaches the !report handler.
  predicate Reports(bot: Bot, messages: seq<Message>, k: nat)
    requires AllFit(bot, messages)
  {
    && k < |messages| && messages[k].answer.Resolved?
    && messages[k].handlers(messages[k].answer.cmd).Report? && bot.Denied(messages[k].Attempted(bot)).None?
  }

  // And its report goes out, which is when it is recorded as a run.
  predicate GoesOut(bot: Bot, messages: seq<Message>, k: nat)
    requires AllFit(bot, messages)
  {
    Reports(bot, messages, k) && bot.RefusedInside(messages[k].Attempted(bot), ReportedAt(bot, messages, k)) == []
  }

  // Message j sent a report of this chatter less than the cooldown before `now`.
  ghost predicate JustReported(bot: Bot, messages: seq<Message>, j: nat, user: string, now: int)
    requires AllFit(bot, messages)
  {
    GoesOut(bot, messages, j) && messages[j].user.name == user && now - messages[j].now < 60_000_000_000
  }

  // The books hold times of reports that went out, and miss only those past the cooldown.
  ghost predicate BooksAgree(bot: Bot, messages: seq<Message>, k: nat, clock: int)
    requires AllFit(bot, messages) && k <= |messages|
  {
    var books := ReportedAt(bot, messages, k);
    && (forall u :: u in books ==> Sent(bot, messages, k, u, books[u]))
    && (forall j: nat :: j < k && GoesOut(bot, messages, j) ==> OnTheBooks(books, messages[j], clock))
  }

  ghost predicate SentAt(bot: Bot, messages: seq<Message>, j: nat, k: nat, user: string, at: int)
    requires AllFit(bot, messages)
  {
    j < k && GoesOut(bot, messages, j) && messages[j].user.name == user && messages[j].now == at
  }

  ghost predicate Sent(bot: Bot, messages: seq<Message>, k: nat, user: string, at: int)
    requires AllFit(bot, messages)
  {
    exists j: nat :: SentAt(bot, messages, j, k, user, at)
  }

  predicate OnTheBooks(books: map<string, int>, m: Message, clock: int) {
    (m.user.name in books && m.now <= books[m.user.name]) || clock - m.now >= RateLimits.REPORT_COOLDOWN
  }

  // A message changes the books only by a report that goes out.
  lemma BooksStep(bot: Bot, messages: seq<Message>, k: nat)
    requires AllFit(bot, messages) && k < |messages|
    ensures var m, books := messages[k], ReportedAt(bot, messages, k);
      ReportedAt(bot, messages, k + 1) ==
      if GoesOut(bot, messages, k) then RateLimits.Live(books, m.now, RateLimits.REPORT_COOLDOWN)[m.user.name := m.now]
      else books
  {
  }

  lemma SentStays(bot: Bot, messages: seq<Message>, k: nat, u: string, at: int)
    requires AllFit(bot, messages) && Sent(bot, messages, k, u, at)
    ensures Sent(bot, messages, k + 1, u, at)
  {
    var j: nat :| SentAt(bot, messages, j, k, u, at);
    assert SentAt(bot, messages, j, k + 1, u, at);
  }

  lemma OneMoreMessage(bot: Bot, messages: seq<Message>, k: nat, clock: int)
    requires AllFit(bot, messages) && InOrder(messages) && k < |messages|
    requires messages[k].now <= clock && BooksAgree(bot, messages, k, messages[k].now)
    ensures BooksAgree(bot, messages, k + 1, clock)
  {
    var m, books, next := messages[k], ReportedAt(bot, messages, k), ReportedAt(bot, messages, k + 1);
    BooksStep(bot, messages, k);
    forall u | u in next ensures Sent(bot, messages, k + 1, u, next[u]) {
      if u in books && next[u] == books[u] {
        SentStays(bot, messages, k, u, books[u]);
      } else {
        assert SentAt(bot, messages, k, k + 1, u, next[u]);
      }
    }
    forall j: nat | j < k + 1 && GoesOut(bot, messages, j) ensures OnTheBooks(next, messages[j], clock) {
      if j < k { assert OnTheBooks(books, messages[j], m.now); }
    }
  }

  lemma {:induction false} BooksAgreeAfter(bot: Bot, messages: seq<Message>, k: nat, clock: int)
    requires AllFit(bot, messages) && InOrder(messages) && k <= |messages|
    requires k > 0 ==> messages[k - 1].now <= clock
    ensures BooksAgree(bot, messages, k, clock)
  {
    if k > 0 {
      BooksAgreeAfter(bot, messages, k - 1, messages[k - 1].now);
      OneMoreMessage(bot, messages, k - 1, clock);
    }
  }

  /** Over any run of messages with a clock that does not go back, whatever other
      commands come between: a report goes out if and only if every report of
      the chatter that went out before it is at least the cooldown old. */
  lemma ReportGoesOutIff(bot: Bot, messages: seq<Message>, k: nat)
    requires AllFit(bot, messages) && InOrder(messages) && Reports(bot, messages, k)
    ensures GoesOut(bot, messages, k) <==>
      forall j: nat :: j < k ==> !JustReported(bot, messages, j, messages[k].user.name, messages[k].now)
  {
    var m, books := messages[k], ReportedAt(bot, messages, k);
    BooksAgreeAfter(bot, messages, k, m.now);
    if !GoesOut(bot, messages, k) {
      var j: nat :| SentAt(bot, messages, j, k, m.user.name, books[m.user.name]);
      assert JustReported(bot, messages, j, m.user.name, m.now);
    }
    if j: nat :| j < k && JustReported(bot, messages, j, m.user.name, m.now) {
      assert OnTheBooks(books, messages[j], m.now);
    }
  }

  /** With a sink, two reports of one chatter that are both recorded as runs are
      at least the cooldown apart. */
  lemma RecordedReportsAreSpaced(bot: Bot, messages: seq<Message>, j: nat, k: nat)
    requires AllFit(bot, messages) && InOrder(messages) && bot.hasSink
    requires j < k && Reports(bot, messages, j) && Reports(bot, messages, k)
    requires messages[j].user.name == messages[k].user.name
    requires messages[j].Left(bot, ReportedAt(bot, messages, j))[0].Ran?
    requires messages[k].Left(bot, ReportedAt(bot, messages, k))[0].Ran?
    ensures messages[k].now - messages[j].now >= 60_000_000_000
  {
    ReportGoesOutIff(bot, messages, k);
    assert !JustReported(bot, messages, j, messages[k].user.name, messages[k].now);
  }
}
