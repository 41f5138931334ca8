/**
  The two rate limiters that prune their history: the Sentry hook of
  pkg/errors/errors.go and the report cooldown of pkg/chatbot/commands.go.
  Times are nanoseconds.
*/
module RateLimits {
  const MINUTE := 60_000_000_000
  const HOUR := 60 * MINUTE
  const FINGERPRINT_COOLDOWN := 15 * MINUTE
  const HOURLY_CAP: nat := 20
  const REPORT_COOLDOWN := MINUTE

  // The entries whose cooldown has not elapsed.
  function Live(seen: map<string, int>, now: int, ttl: int): map<string, int> {
    map k | k in seen && now - seen[k] < ttl :: seen[k]
  }

  predicate Blocked(seen: map<string, int>, key: string, now: int, ttl: int) {
    key in seen && now - seen[key] < ttl
  }

  /** dropExpired: the loop deletes from the map it ranges over, in any order. */
  method DropExpired(seen: map<string, int>, now: int, ttl: int) returns (r: map<string, int>)
    ensures r == Live(seen, now, ttl)
  {
    r := seen;
    var rest := seen.Keys;
    while rest != {}
      invariant rest <= seen.Keys
      invariant r == map k | k in seen && (k in rest || now - seen[k] < ttl) :: seen[k]
      decreases |rest|
    {
      var k :| k in rest;
      rest := rest - {k};
      if now - seen[k] >= ttl {
        r := r - {k};
      }
    }
  }

  // ----- the Sentry hook

  datatype State = State(lastSent: map<string, int>, windowStart: int, windowCount: nat)

  // A new hourly window starts with the expired fingerprints dropped.
  function Roll(s: State, now: int): State {
    if now - s.windowStart > HOUR then State(Live(s.lastSent, now, FINGERPRINT_COOLDOWN), now, 0) else s
  }

  predicate Sends(s: State, fp: string, now: int) {
    Roll(s, now).windowCount < HOURLY_CAP && !Blocked(Roll(s, now).lastSent, fp, now, FINGERPRINT_COOLDOWN)
  }

  function Step(s: State, fp: string, now: int): State {
    var r := Roll(s, now);
    if Sends(s, fp, now) then State(r.lastSent[fp := now], r.windowStart, r.windowCount + 1) else r
  }

  class Throttle {
    const enabled: bool
    var lastSent: map<string, int>
    var windowStart: int
    var windowCount: nat

    constructor (production: bool, now: int)
      ensures enabled == production && View() == State(map[], now, 0)
    {
      enabled := production;
      lastSent, windowStart, windowCount := map[], now, 0;
    }

    function View(): State
      reads this
    {
      State(lastSent, windowStart, windowCount)
    }

    method BeforeSend(fp: string, now: int) returns (sent: bool)
      modifies this
      ensures !enabled ==> !sent && View() == old(View())
      ensures enabled ==> sent == Sends(old(View()), fp, now) && View() == Step(old(View()), fp, now)
    {
      if !enabled {
        return false;
      }
      if now - windowStart > HOUR {
        windowStart := now;
        windowCount := 0;
        lastSent := DropExpired(lastSent, now, FINGERPRINT_COOLDOWN);
      }
      if windowCount >= HOURLY_CAP {
        return false;
      }
      if fp in lastSent && now - lastSent[fp] < FINGERPRINT_COOLDOWN {
        return false;
      }
      lastSent := lastSent[fp := now];
      windowCount := windowCount + 1;
      return true;
    }
  }

  // ----- the report cooldown

  function ReportStep(reportedAt: map<string, int>, user: string, now: int): map<string, int> {
    if Blocked(reportedAt, user, now, REPORT_COOLDOWN) then reportedAt
    else Live(reportedAt, now, REPORT_COOLDOWN)[user := now]
  }

  class ReportCooldown {
    var reportedAt: map<string, int>

    constructor ()
      ensures reportedAt == map[]
    {
      reportedAt := map[];
    }

    method ReportAllowed(user: string, now: int) returns (allowed: bool)
      modifies this
      ensures allowed == !Blocked(old(reportedAt), user, now, REPORT_COOLDOWN)
      ensures reportedAt == ReportStep(old(reportedAt), user, now)
    {
      if user in reportedAt && now - reportedAt[user] < REPORT_COOLDOWN {
        return false;
      }
      reportedAt := DropExpired(reportedAt, now, REPORT_COOLDOWN);
      reportedAt := reportedAt[user := now];
      return true;
    }
  }
}
