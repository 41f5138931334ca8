/** What the rate limiters guarantee over whole runs with a clock that never goes back. */
module RateLimitsLaws {
  import opened RateLimits

  // One call of a limiter: the key it is for, and the time.
  datatype Call = Call(key: string, now: int)

  ghost predicate InOrder(calls: seq<Call>, clock: int) {
    && (forall i :: 0 <= i < |calls| ==> clock <= calls[i].now)
    && (forall i, j :: 0 <= i < j < |calls| ==> calls[i].now <= calls[j].now)
  }

  // ----- the Sentry hook as a rule over a log that is never pruned

  datatype Sent = Sent(fp: string, at: int, window: nat)

  // Everything ever sent, and the start of every window so far.
  datatype Log = Log(sends: seq<Sent>, windows: seq<int>)

  function CountWindow(sends: seq<Sent>, w: nat): nat {
    if sends == [] then 0
    else CountWindow(sends[..|sends| - 1], w) + if sends[|sends| - 1].window == w then 1 else 0
  }

  function LogRoll(l: Log, now: int): Log
    requires l.windows != []
  {
    if now - l.windows[|l.windows| - 1] > 3_600_000_000_000 then l.(windows := l.windows + [now]) else l
  }

  ghost predicate Recent(sends: seq<Sent>, fp: string, now: int) {
    exists k :: 0 <= k < |sends| && sends[k].fp == fp && now - sends[k].at < 900_000_000_000
  }

  // Send unless the current window is full or the fingerprint was sent within the cooldown.
  ghost predicate LogSends(l: Log, fp: string, now: int)
    requires l.windows != []
  {
    CountWindow(l.sends, |LogRoll(l, now).windows| - 1) < 20 && !Recent(l.sends, fp, now)
  }

  ghost function LogStep(l: Log, fp: string, now: int): (r: Log)
    requires l.windows != []
    ensures r.windows != []
  {
    var r := LogRoll(l, now);
    if LogSends(l, fp, now) then r.(sends := r.sends + [Sent(fp, now, |r.windows| - 1)]) else r
  }

  // ----- the pruned map makes the same decisions as the log

  // The map has every fingerprint whose cooldown can still matter, at its last send.
  ghost predicate Agrees(s: State, l: Log, clock: int) {
    && l.windows != [] && s.windowStart == l.windows[|l.windows| - 1] <= clock
    && s.windowCount == CountWindow(l.sends, |l.windows| - 1)
    && (forall k :: 0 <= k < |l.sends| ==> l.sends[k].at <= clock && l.sends[k].window < |l.windows|)
    && (forall fp :: fp in s.lastSent ==> Logged(l.sends, fp, s.lastSent[fp]))
    && (forall k :: 0 <= k < |l.sends| ==> Covered(s, l.sends[k], clock))
  }

  ghost predicate Logged(sends: seq<Sent>, fp: string, at: int) {
    exists k :: 0 <= k < |sends| && sends[k].fp == fp && sends[k].at == at
  }

  ghost predicate Covered(s: State, e: Sent, clock: int) {
    (e.fp in s.lastSent && e.at <= s.lastSent[e.fp]) || clock - e.at >= FINGERPRINT_COOLDOWN
  }

  lemma {:induction false} NoSendsYet(sends: seq<Sent>, w: nat)
    requires forall k :: 0 <= k < |sends| ==> sends[k].window < w
    ensures CountWindow(sends, w) == 0
  {
    if sends != [] { NoSendsYet(sends[..|sends| - 1], w); }
  }

  lemma RollAgrees(s: State, l: Log, clock: int, now: int)
    requires Agrees(s, l, clock) && clock <= now
    ensures Agrees(Roll(s, now), LogRoll(l, now), now)
  {
    if now - s.windowStart > HOUR { NoSendsYet(l.sends, |l.windows|); }
    var r := Roll(s, now);
    forall k | 0 <= k < |l.sends| ensures Covered(r, l.sends[k], now) { assert Covered(s, l.sends[k], clock); }
  }

  lemma BlockedIffRecent(s: State, l: Log, fp: string, now: int)
    requires Agrees(s, l, now)
    ensures Blocked(s.lastSent, fp, now, FINGERPRINT_COOLDOWN) <==> Recent(l.sends, fp, now)
  {
  }

  lemma SendAgrees(s: State, l: Log, fp: string, now: int)
    requires Agrees(s, l, now)
    ensures Agrees(State(s.lastSent[fp := now], s.windowStart, s.windowCount + 1),
                   l.(sends := l.sends + [Sent(fp, now, |l.windows| - 1)]), now)
  {
  }

  lemma StepAgrees(s: State, l: Log, clock: int, fp: string, now: int)
    requires Agrees(s, l, clock) && clock <= now
    ensures Sends(s, fp, now) <==> LogSends(l, fp, now)
    ensures Agrees(Step(s, fp, now), LogStep(l, fp, now), now)
  {
    RollAgrees(s, l, clock, now);
    BlockedIffRecent(Roll(s, now), LogRoll(l, now), fp, now);
    SendAgrees(Roll(s, now), LogRoll(l, now), fp, now);
  }

  // ----- whole runs

  function Run(s: State, calls: seq<Call>): State
    decreases |calls|
  {
    if calls == [] then s else Run(Step(s, calls[0].key, calls[0].now), calls[1..])
  }

  function Decisions(s: State, calls: seq<Call>): seq<bool>
    decreases |calls|
  {
    if calls == [] then []
    else [Sends(s, calls[0].key, calls[0].now)] + Decisions(Step(s, calls[0].key, calls[0].now), calls[1..])
  }

  ghost function RunLog(l: Log, calls: seq<Call>): (r: Log)
    requires l.windows != []
    ensures r.windows != []
    decreases |calls|
  {
    if calls == [] then l else RunLog(LogStep(l, calls[0].key, calls[0].now), calls[1..])
  }

  ghost function LogDecisions(l: Log, calls: seq<Call>): seq<bool>
    requires l.windows != []
    decreases |calls|
  {
    if calls == [] then []
    else [LogSends(l, calls[0].key, calls[0].now)] + LogDecisions(LogStep(l, calls[0].key, calls[0].now), calls[1..])
  }

  // The time of the last call.
  function Clock(calls: seq<Call>, clock: int): int {
    if calls == [] then clock else calls[|calls| - 1].now
  }

  lemma {:induction false} RunsAgree(s: State, l: Log, clock: int, calls: seq<Call>)
    requires Agrees(s, l, clock) && InOrder(calls, clock)
    ensures Decisions(s, calls) == LogDecisions(l, calls)
    ensures Agrees(Run(s, calls), RunLog(l, calls), Clock(calls, clock))
    decreases |calls|
  {
    if calls != [] {
      var c := calls[0];
      StepAgrees(s, l, clock, c.key, c.now);
      RunsAgree(Step(s, c.key, c.now), LogStep(l, c.key, c.now), c.now, calls[1..]);
    }
  }

  /** From the start of the process, the pruned map decides every call exactly
      as the full log of everything ever sent would. */
  lemma PruningIsInvisible(start: int, calls: seq<Call>)
    requires InOrder(calls, start)
    ensures Decisions(State(map[], start, 0), calls) == LogDecisions(Log([], [start]), calls)
  {
    RunsAgree(State(map[], start, 0), Log([], [start]), start, calls);
  }

  // ----- the map stays small

  // The fingerprints sent after the current window started.
  function SentThisWindow(s: State): set<string> {
    set fp | fp in s.lastSent && s.lastSent[fp] > s.windowStart
  }

  predicate Small(s: State, clock: int) {
    && s.windowStart <= clock && (forall fp :: fp in s.lastSent ==> s.lastSent[fp] <= clock)
    && s.windowCount <= HOURLY_CAP
    && |SentThisWindow(s)| <= s.windowCount
    && |s.lastSent| <= HOURLY_CAP + s.windowCount
  }

  lemma Subset<T>(a: set<T>, b: set<T>)
    requires a <= b
    ensures |a| <= |b|
  {
    assert b == a + (b - a);
  }

  lemma RollSmall(s: State, clock: int, now: int)
    requires Small(s, clock) && clock <= now
    ensures Small(Roll(s, now), now)
  {
    var r := Roll(s, now);
    if now - s.windowStart > HOUR {
      assert r.lastSent.Keys <= SentThisWindow(s);
      Subset(r.lastSent.Keys, SentThisWindow(s));
      assert SentThisWindow(r) == {};
    }
  }

  lemma StepSmall(s: State, clock: int, fp: string, now: int)
    requires Small(s, clock) && clock <= now
    ensures Small(Step(s, fp, now), now)
  {
    RollSmall(s, clock, now);
    var r := Roll(s, now);
    if Sends(s, fp, now) {
      var t := Step(s, fp, now);
      assert t.lastSent.Keys == r.lastSent.Keys + {fp};
      Subset(SentThisWindow(t), SentThisWindow(r) + {fp});
    }
  }

  lemma {:induction false} MapStaysSmall(s: State, clock: int, calls: seq<Call>)
    requires Small(s, clock) && InOrder(calls, clock)
    ensures |Run(s, calls).lastSent| <= 2 * HOURLY_CAP
    decreases |calls|
  {
    if calls != [] {
      var c := calls[0];
      StepSmall(s, clock, c.key, c.now);
      MapStaysSmall(Step(s, c.key, c.now), c.now, calls[1..]);
    }
  }

  lemma StartsSmall(start: int)
    ensures Small(State(map[], start, 0), start)
  {
  }

  /** Over any run from the start of the process the map never holds more than
      twice the hourly cap. */
  lemma MapIsBounded(start: int, calls: seq<Call>)
    requires InOrder(calls, start)
    ensures |Run(State(map[], start, 0), calls).lastSent| <= 40
  {
    StartsSmall(start);
    MapStaysSmall(State(map[], start, 0), start, calls);
  }

  // Every send is at least a quarter of an hour old.
  ghost predicate AllOld(sends: seq<Sent>, now: int) {
    forall k :: 0 <= k < |sends| ==> now - sends[k].at >= 900_000_000_000
  }

  /** When a window rolls the map keeps exactly the fingerprints sent within the
      cooldown, so it is emptied if and only if every send is older than that. */
  lemma RollKeepsRecent(s: State, l: Log, clock: int, now: int)
    requires Agrees(s, l, clock) && clock <= now && now - s.windowStart > HOUR
    ensures forall fp :: fp in Roll(s, now).lastSent <==> Recent(l.sends, fp, now)
    ensures Roll(s, now).lastSent == map[] <==> AllOld(l.sends, now)
  {
    var r := Roll(s, now);
    RollAgrees(s, l, clock, now);
    forall fp ensures fp in r.lastSent <==> Recent(l.sends, fp, now) {
      BlockedIffRecent(r, LogRoll(l, now), fp, now);
      assert LogRoll(l, now).sends == l.sends;
    }
    if k :| 0 <= k < |l.sends| && now - l.sends[k].at < 900_000_000_000 {
      assert Recent(l.sends, l.sends[k].fp, now);
    }
    if fp :| fp in r.lastSent { assert Recent(l.sends, fp, now); }
  }

  /** Over any run from the start of the process: a roll leaves nothing behind if
      and only if nothing was sent within the cooldown before it. */
  lemma RollForgetsIff(start: int, calls: seq<Call>, now: int)
    requires InOrder(calls, start) && Clock(calls, start) <= now
    requires now - Run(State(map[], start, 0), calls).windowStart > HOUR
    ensures Roll(Run(State(map[], start, 0), calls), now).lastSent == map[] <==>
      AllOld(RunLog(Log([], [start]), calls).sends, now)
  {
    RunsAgree(State(map[], start, 0), Log([], [start]), start, calls);
    RollKeepsRecent(Run(State(map[], start, 0), calls), RunLog(Log([], [start]), calls), Clock(calls, start), now);
  }

  /** A run whose roll leaves a fingerprint behind, still blocked. */
  lemma RollKeepsOne(start: int)
    ensures var s := Run(State(map[], start, 0), [Call("db down", start + HOUR)]);
      var r := Roll(s, start + HOUR + 1);
      r.windowStart == start + HOUR + 1 && "db down" in r.lastSent && !Sends(s, "db down", start + HOUR + 1)
  {
    var calls := [Call("db down", start + HOUR)];
    assert calls[1..] == [];
    assert Run(State(map[], start, 0), calls) == Step(State(map[], start, 0), "db down", start + HOUR);
  }

  // ----- what gets sent

  // Windows start more than an hour apart, and every send is in its window.
  ghost predicate Windowed(l: Log, clock: int) {
    && l.windows != [] && l.windows[|l.windows| - 1] <= clock
    && (forall w :: 0 < w < |l.windows| ==> l.windows[w] - l.windows[w - 1] > HOUR)
    && (forall k :: 0 <= k < |l.sends| ==> InWindow(l, l.sends[k], clock))
  }

  ghost predicate Capped(sends: seq<Sent>) {
    forall w: nat :: CountWindow(sends, w) <= HOURLY_CAP
  }

  ghost predicate Spaced(sends: seq<Sent>) {
    forall j, k :: 0 <= j < k < |sends| && sends[j].fp == sends[k].fp ==>
      sends[k].at - sends[j].at >= FINGERPRINT_COOLDOWN
  }

  // What the log of a run keeps.
  ghost predicate Lawful(l: Log, clock: int) {
    Windowed(l, clock) && Capped(l.sends) && Spaced(l.sends)
  }

  // e was sent in its window, before the next one started.
  ghost predicate InWindow(l: Log, e: Sent, clock: int) {
    && e.window < |l.windows| && l.windows[e.window] <= e.at <= clock
    && (e.window + 1 < |l.windows| ==> e.at <= l.windows[e.window + 1])
  }

  lemma RollLawful(l: Log, clock: int, now: int)
    requires Lawful(l, clock) && clock <= now
    ensures Lawful(LogRoll(l, now), now)
  {
  }

  lemma SendCapped(sends: seq<Sent>, e: Sent)
    requires Capped(sends) && CountWindow(sends, e.window) < HOURLY_CAP
    ensures Capped(sends + [e])
  {
  }

  lemma SendSpaced(sends: seq<Sent>, e: Sent)
    requires Spaced(sends) && !Recent(sends, e.fp, e.at)
    ensures Spaced(sends + [e])
  {
  }

  lemma SendLawful(l: Log, fp: string, now: int)
    requires Lawful(l, now) && !Recent(l.sends, fp, now) && CountWindow(l.sends, |l.windows| - 1) < HOURLY_CAP
    ensures Lawful(l.(sends := l.sends + [Sent(fp, now, |l.windows| - 1)]), now)
  {
    var e := Sent(fp, now, |l.windows| - 1);
    var r := l.(sends := l.sends + [e]);
    forall k | 0 <= k < |r.sends| ensures InWindow(r, r.sends[k], now) {
      if k < |l.sends| { assert InWindow(l, l.sends[k], now); }
    }
    SendCapped(l.sends, e);
    SendSpaced(l.sends, e);
  }

  lemma {:induction false} StepLawful(l: Log, clock: int, fp: string, now: int)
    requires Lawful(l, clock) && clock <= now
    ensures Lawful(LogStep(l, fp, now), now)
  {
    var r := LogRoll(l, now);
    RollLawful(l, clock, now);
    assert r.sends == l.sends && r.windows != [];
    if LogSends(l, fp, now) {
      SendLawful(r, fp, now);
    } else {
      assert LogStep(l, fp, now) == r;
    }
  }

  /** Over any run: sends of one fingerprint are at least the cooldown apart, no
      window sends more than the cap, and windows start more than an hour apart. */
  lemma {:induction false} RunLawful(l: Log, clock: int, calls: seq<Call>) returns (end: int)
    requires Lawful(l, clock) && InOrder(calls, clock)
    ensures Lawful(RunLog(l, calls), end)
    decreases |calls|
  {
    end := clock;
    if calls != [] {
      var c := calls[0];
      StepLawful(l, clock, c.key, c.now);
      end := RunLawful(LogStep(l, c.key, c.now), c.now, calls[1..]);
    }
  }

  function CountBetween(sends: seq<Sent>, from: int, to: int): nat {
    if sends == [] then 0
    else
      CountBetween(sends[..|sends| - 1], from, to) +
      if from <= sends[|sends| - 1].at <= to then 1 else 0
  }

  lemma {:induction false} OnlyTwoWindows(sends: seq<Sent>, from: int, to: int, w: nat)
    requires forall k :: 0 <= k < |sends| && from <= sends[k].at <= to ==> w <= sends[k].window <= w + 1
    ensures CountBetween(sends, from, to) <= CountWindow(sends, w) + CountWindow(sends, w + 1)
  {
    if sends != [] { OnlyTwoWindows(sends[..|sends| - 1], from, to, w); }
  }

  lemma {:induction false} NoneBetween(sends: seq<Sent>, from: int, to: int)
    requires forall k :: 0 <= k < |sends| ==> !(from <= sends[k].at <= to)
    ensures CountBetween(sends, from, to) == 0
  {
    if sends != [] { NoneBetween(sends[..|sends| - 1], from, to); }
  }

  lemma {:induction false} WindowsIncrease(windows: seq<int>, v: nat, w: nat)
    requires v < w < |windows| && forall k :: 0 < k < |windows| ==> windows[k] - windows[k - 1] > HOUR
    ensures windows[w] - windows[v] > HOUR
  {
    if v + 1 < w { WindowsIncrease(windows, v, w - 1); }
  }

  // The earliest window with a send in the interval.
  lemma {:induction false} EarliestWindow(sends: seq<Sent>, from: int, to: int) returns (e: Sent)
    requires exists k :: 0 <= k < |sends| && from <= sends[k].at <= to
    ensures e in sends && from <= e.at <= to
    ensures forall k :: 0 <= k < |sends| && from <= sends[k].at <= to ==> e.window <= sends[k].window
  {
    var n := |sends| - 1;
    if exists k :: 0 <= k < |sends[..n]| && from <= sends[..n][k].at <= to {
      e := EarliestWindow(sends[..n], from, to);
      assert forall k :: 0 <= k < n ==> sends[..n][k] == sends[k];
      if from <= sends[n].at <= to && sends[n].window < e.window { e := sends[n]; }
    } else {
      assert forall k :: 0 <= k < n ==> sends[..n][k] == sends[k];
      e := sends[n];
    }
  }

  /** Any interval of one hour sees at most twice the hourly cap. */
  lemma AnyHourIsBounded(l: Log, clock: int, from: int)
    requires Lawful(l, clock)
    ensures CountBetween(l.sends, from, from + HOUR) <= 2 * HOURLY_CAP
  {
    var to := from + HOUR;
    if exists k :: 0 <= k < |l.sends| && from <= l.sends[k].at <= to {
      var e := EarliestWindow(l.sends, from, to);
      assert InWindow(l, e, clock);
      forall k | 0 <= k < |l.sends| && from <= l.sends[k].at <= to
        ensures e.window <= l.sends[k].window <= e.window + 1
      {
        assert InWindow(l, l.sends[k], clock);
        if e.window + 1 < l.sends[k].window { WindowsIncrease(l.windows, e.window + 1, l.sends[k].window); }
      }
      OnlyTwoWindows(l.sends, from, to, e.window);
    } else {
      NoneBetween(l.sends, from, to);
    }
  }

  // The three limits on what was sent: 40 in any hour, 20 in a window, and a
  // quarter of an hour between two of one fingerprint.
  ghost predicate WithinBudget(sends: seq<Sent>, from: int, w: nat) {
    && CountBetween(sends, from, from + 3_600_000_000_000) <= 40
    && CountWindow(sends, w) <= 20
    && forall j, k :: 0 <= j < k < |sends| && sends[j].fp == sends[k].fp ==> sends[k].at - sends[j].at >= 900_000_000_000
  }

  lemma LawfulIsWithinBudget(l: Log, clock: int, from: int, w: nat)
    requires Lawful(l, clock)
    ensures WithinBudget(l.sends, from, w)
  {
    AnyHourIsBounded(l, clock, from);
  }

  /** They hold for every run from the start of the process. */
  lemma {:induction false} SentryBudget(start: int, calls: seq<Call>, from: int, w: nat)
    requires InOrder(calls, start)
    ensures WithinBudget(RunLog(Log([], [start]), calls).sends, from, w)
  {
    assert Lawful(Log([], [start]), start);
    var end := RunLawful(Log([], [start]), start, calls);
    LawfulIsWithinBudget(RunLog(Log([], [start]), calls), end, from, w);
  }

  // ----- the report cooldown against its own unpruned log

  // Allowed reports, oldest first, as (chatter, time).
  ghost predicate ReportRecent(log: seq<Call>, user: string, now: int) {
    exists k :: 0 <= k < |log| && log[k].key == user && now - log[k].now < 60_000_000_000
  }

  ghost function ReportLog(log: seq<Call>, user: string, now: int): seq<Call> {
    if ReportRecent(log, user, now) then log else log + [Call(user, now)]
  }

  ghost predicate ReportsAgree(m: map<string, int>, log: seq<Call>, clock: int) {
    && (forall u :: u in m ==> m[u] <= clock && ReportLogged(log, u, m[u]))
    && (forall k :: 0 <= k < |log| ==> ReportCovered(m, log[k], clock))
  }

  ghost predicate ReportLogged(log: seq<Call>, user: string, at: int) {
    Call(user, at) in log
  }

  ghost predicate ReportCovered(m: map<string, int>, e: Call, clock: int) {
    (e.key in m && e.now <= m[e.key]) || clock - e.now >= REPORT_COOLDOWN
  }

  lemma ReportStepAgrees(m: map<string, int>, log: seq<Call>, clock: int, user: string, now: int)
    requires ReportsAgree(m, log, clock) && clock <= now
    ensures Blocked(m, user, now, REPORT_COOLDOWN) <==> ReportRecent(log, user, now)
    ensures ReportsAgree(ReportStep(m, user, now), ReportLog(log, user, now), now)
    ensures !Blocked(m, user, now, REPORT_COOLDOWN) ==>
      forall u :: u in ReportStep(m, user, now) ==> now - ReportStep(m, user, now)[u] < REPORT_COOLDOWN
  {
  }

  ghost function ReportDecisions(m: map<string, int>, calls: seq<Call>): seq<bool>
    decreases |calls|
  {
    if calls == [] then []
    else [!Blocked(m, calls[0].key, calls[0].now, REPORT_COOLDOWN)] +
         ReportDecisions(ReportStep(m, calls[0].key, calls[0].now), calls[1..])
  }

  ghost function ReportLogDecisions(log: seq<Call>, calls: seq<Call>): seq<bool>
    decreases |calls|
  {
    if calls == [] then []
    else [!ReportRecent(log, calls[0].key, calls[0].now)] +
         ReportLogDecisions(ReportLog(log, calls[0].key, calls[0].now), calls[1..])
  }

  /** Over any run the pruned map allows exactly the reports that come a full
      cooldown after every report the chatter was allowed before. */
  lemma {:induction false} ReportPruningIsInvisible(m: map<string, int>, log: seq<Call>, clock: int, calls: seq<Call>)
    requires ReportsAgree(m, log, clock) && InOrder(calls, clock)
    ensures ReportDecisions(m, calls) == ReportLogDecisions(log, calls)
    decreases |calls|
  {
    if calls != [] {
      var c := calls[0];
      ReportStepAgrees(m, log, clock, c.key, c.now);
      ReportPruningIsInvisible(ReportStep(m, c.key, c.now), ReportLog(log, c.key, c.now), c.now, calls[1..]);
    }
  }
}
