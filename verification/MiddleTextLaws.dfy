/** What the middle-text overlay guarantees in every interleaving. */
module MiddleTextLaws {
  import opened Wrappers
  import Onscreen
  import opened MiddleText

  // ----- every reachable state

  // The overlay is permanent; a timer that is still pending is the server's own.
  ghost predicate Consistent(w: World) {
    && w.overlay.dontExpire
    && (w.middleExpiry.Some? ==> w.middleExpiry.value in w.timers && w.timers[w.middleExpiry.value] in {Pending, Queued})
    && (forall t :: t in w.timers ==> t < w.nextTimer && (w.timers[t] == Pending ==> w.middleExpiry == Some(t)))
  }

  lemma StepConsistent(w: World, e: Event)
    requires Consistent(w)
    ensures Consistent(Step(w, e)) && w.nextTimer <= Step(w, e).nextTimer
  {
  }

  lemma {:induction false} AfterConsistent(start: int, events: seq<Event>, k: nat)
    requires k <= |events|
    ensures Consistent(After(start, events, k))
  {
    if k > 0 {
      AfterConsistent(start, events, k - 1);
      StepConsistent(After(start, events, k - 1), events[k - 1]);
    }
  }

  lemma {:induction false} IdsGrow(start: int, events: seq<Event>, m: nat, n: nat)
    requires m <= n <= |events|
    ensures After(start, events, m).nextTimer <= After(start, events, n).nextTimer
    decreases n
  {
    if m < n {
      IdsGrow(start, events, m, n - 1);
      AfterConsistent(start, events, n - 1);
      StepConsistent(After(start, events, n - 1), events[n - 1]);
    }
  }

  /** In every reachable state the sweep changes nothing: it never hides the
      middle text. */
  lemma SweepNeverHides(start: int, events: seq<Event>, k: nat)
    requires k < |events| && events[k].SweepTurn?
    ensures After(start, events, k + 1) == After(start, events, k)
  {
    AfterConsistent(start, events, k);
  }

  // ----- which timer may hide

  // Event m is a show that arms timer t.
  ghost predicate Arms(start: int, events: seq<Event>, m: nat, t: nat) {
    m < |events| && Shows(events[m]) && events[m].hideAfter > 0 && After(start, events, m).nextTimer == t
  }

  // Event k replaces or cancels whatever timer was pending before it.
  ghost predicate Clears(start: int, events: seq<Event>, k: nat) {
    && k < |events|
    && (Shows(events[k]) || events[k].HideCommand? || events[k].Restart? || Expires(After(start, events, k), events[k]))
  }

  // t was armed by the latest show, with no hide of any kind since.
  ghost predicate ArmedByLatest(start: int, events: seq<Event>, n: nat, t: nat) {
    exists m: nat :: m < n && Arms(start, events, m, t) && forall k :: m < k < n ==> !Clears(start, events, k)
  }

  lemma StepTimer(w: World, e: Event)
    requires Consistent(w)
    ensures Step(w, e).middleExpiry ==
      if Shows(e) then (if e.hideAfter > 0 then Some(w.nextTimer) else None)
      else if e.HideCommand? || e.Restart? || Expires(w, e) then None
      else w.middleExpiry
  {
  }

  // What one more event does to the latest armed timer.
  lemma OneMoreEvent(start: int, events: seq<Event>, n: nat, t: nat)
    requires n < |events|
    ensures ArmedByLatest(start, events, n + 1, t) <==>
      Arms(start, events, n, t) || (!Clears(start, events, n) && ArmedByLatest(start, events, n, t))
  {
  }

  /** After any run, the server's field holds exactly the timer armed by the
      latest show that no later show, hide, expiry or restart has cleared. */
  lemma {:induction false} FieldIsLatest(start: int, events: seq<Event>, n: nat, t: nat)
    requires n <= |events|
    ensures After(start, events, n).middleExpiry == Some(t) <==> ArmedByLatest(start, events, n, t)
  {
    if n > 0 {
      FieldIsLatest(start, events, n - 1, t);
      AfterConsistent(start, events, n - 1);
      StepTimer(After(start, events, n - 1), events[n - 1]);
      OneMoreEvent(start, events, n - 1, t);
    }
  }

  /** No two shows arm the same timer. */
  lemma ArmedOnce(start: int, events: seq<Event>, m: nat, n: nat, t: nat)
    requires Arms(start, events, m, t) && Arms(start, events, n, t)
    ensures m == n
  {
    if m < n { IdsGrow(start, events, m + 1, n); }
    if n < m { IdsGrow(start, events, n + 1, m); }
  }

  /** A callback that runs hides the text if and only if its timer was armed by
      the latest show and no hide, expiry or restart has happened since; a
      callback of any other timer changes nothing the viewer or the stream sees. */
  lemma CallbackHidesIffLatest(start: int, events: seq<Event>, n: nat)
    requires n < |events| && events[n].Callback?
    requires var w := After(start, events, n); events[n].t in w.timers && w.timers[events[n].t] == Queued
    ensures var w, w' := After(start, events, n), After(start, events, n + 1);
      if ArmedByLatest(start, events, n, events[n].t)
      then w'.overlay == w.overlay.Hide() && w'.middleExpiry == None
      else w'.overlay == w.overlay && w'.retained == w.retained && w'.middleExpiry == w.middleExpiry
  {
    AfterConsistent(start, events, n);
    FieldIsLatest(start, events, n, events[n].t);
  }

  /** A show is never hidden by the timer of an earlier one: from a show until
      the next command, the text stays up unless the timer that this very show
      armed runs. */
  lemma {:induction false} ShownUntilItsOwnTimer(start: int, events: seq<Event>, m: nat, n: nat)
    requires m < n <= |events| && Shows(events[m])
    requires forall k :: m < k < n ==> !Shows(events[k]) && !events[k].HideCommand? && !events[k].Restart?
    requires forall k :: m < k < n && events[k].Callback? ==> events[k].t != After(start, events, m).nextTimer
    ensures var w := After(start, events, n);
      && w.overlay.isShowing && w.overlay.content == events[m].msg.value
      && (w.middleExpiry.Some? ==> w.middleExpiry.value == After(start, events, m).nextTimer)
    decreases n
  {
    AfterConsistent(start, events, n - 1);
    var w := After(start, events, n - 1);
    StepTimer(w, events[n - 1]);
    if m < n - 1 {
      ShownUntilItsOwnTimer(start, events, m, n - 1);
    }
  }

  // ----- what the stream holds

  ghost predicate Publishes(w: World, e: Event) {
    Shows(e) || e.HideCommand? || Expires(w, e)
  }

  predicate Delivered(e: Event) {
    (e.ShowCommand? || e.HideCommand? || e.Callback?) ==> e.delivered
  }

  // A restart reads the stream back.
  predicate Restores(e: Event) {
    e.Restart? ==> e.restored
  }

  predicate Synced(w: World) {
    w.retained == Some(w.Live())
  }

  lemma PublishSyncs(w: World, e: Event)
    requires Consistent(w) && Publishes(w, e) && Delivered(e)
    ensures Synced(Step(w, e))
  {
  }

  lemma OthersKeep(w: World, e: Event)
    requires Consistent(w) && !Publishes(w, e)
    ensures Step(w, e).retained == w.retained
    ensures Synced(w) && Restores(e) ==> Synced(Step(w, e)) && Step(w, e).Live() == w.Live()
    ensures !e.Restart? ==> Step(w, e).Live() == w.Live()
  {
  }

  /** Once the latest state change was delivered, the stream holds exactly what
      is live, through any sweeps, timer firings, stale callbacks and restarts
      that read it back. */
  lemma {:induction false} StreamMatchesScreen(start: int, events: seq<Event>, m: nat, n: nat)
    requires m < n <= |events| && Publishes(After(start, events, m), events[m]) && Delivered(events[m])
    requires forall k :: m < k < n ==> !Publishes(After(start, events, k), events[k]) && Restores(events[k])
    ensures Synced(After(start, events, n))
    ensures After(start, events, n).Live() == After(start, events, m + 1).Live()
    decreases n
  {
    AfterConsistent(start, events, n - 1);
    if m == n - 1 {
      PublishSyncs(After(start, events, m), events[m]);
    } else {
      StreamMatchesScreen(start, events, m, n - 1);
      OthersKeep(After(start, events, n - 1), events[n - 1]);
    }
  }

  // Nothing published yet means the overlay is as constructed.
  predicate Faithful(w: World) {
    (w.retained == None && w.Live() == Retained("", true)) || Synced(w)
  }

  /** With every publish delivered and every restart so far restored, a restart
      at any moment of any run shows what was showing before it if and only if
      it reads the stream back, or the overlay was as constructed anyway. */
  lemma {:induction false} RestartIsInvisible(start: int, events: seq<Event>, n: nat, at: int, restored: bool)
    requires n <= |events| && forall k :: 0 <= k < n ==> Delivered(events[k]) && Restores(events[k])
    ensures Faithful(After(start, events, n))
    ensures Step(After(start, events, n), Restart(at, restored)).Live() == After(start, events, n).Live() <==>
      restored || After(start, events, n).Live() == Retained("", true)
  {
    if n > 0 {
      RestartIsInvisible(start, events, n - 1, at, restored);
      var w := After(start, events, n - 1);
      AfterConsistent(start, events, n - 1);
      if Publishes(w, events[n - 1]) {
        PublishSyncs(w, events[n - 1]);
      } else {
        OthersKeep(w, events[n - 1]);
      }
    }
  }

  /** A restart forgets every timer: until the next command no timer exists and
      the stream keeps its state, so nothing but a restart that finds the stream
      in another condition changes what is shown. */
  lemma {:induction false} RestartForgetsAutoHide(start: int, events: seq<Event>, m: nat, n: nat)
    requires m < n <= |events| && events[m].Restart?
    requires forall k :: m < k < n ==> !Shows(events[k]) && !events[k].HideCommand?
    ensures var w := After(start, events, n);
      && w.timers == map[] && w.middleExpiry == None && w.retained == After(start, events, m).retained
      && ((forall k :: m < k < n && events[k].Restart? ==> events[k].restored == events[m].restored) ==>
            w.Live() == After(start, events, m + 1).Live())
    decreases n
  {
    AfterConsistent(start, events, n - 1);
    if m < n - 1 {
      RestartForgetsAutoHide(start, events, m, n - 1);
    }
  }

  // ----- when a text comes down by itself

  // No command from event m on until n, every publish delivered, every restart restored.
  ghost predicate LeftAlone(events: seq<Event>, m: nat, n: nat) {
    && m < n <= |events| && Shows(events[m]) && Delivered(events[m])
    && (forall k :: m < k < n ==> !Shows(events[k]) && !events[k].HideCommand? && Delivered(events[k]) && Restores(events[k]))
  }

  ghost predicate ExpiresIn(start: int, events: seq<Event>, m: nat, n: nat)
    requires n <= |events|
  {
    exists k :: m < k < n && Expires(After(start, events, k), events[k])
  }

  lemma OneMoreExpiry(start: int, events: seq<Event>, m: nat, n: nat)
    requires m < n < |events|
    ensures ExpiresIn(start, events, m, n + 1) <==>
      ExpiresIn(start, events, m, n) || Expires(After(start, events, n), events[n])
  {
  }

  /** A text that no command replaces or hides is down exactly when the callback
      of a pending timer has run since its show. */
  lemma {:induction false} ComesDownIff(start: int, events: seq<Event>, m: nat, n: nat)
    requires LeftAlone(events, m, n)
    ensures Synced(After(start, events, n))
    ensures !After(start, events, n).overlay.isShowing <==> ExpiresIn(start, events, m, n)
    decreases n
  {
    var w, e := After(start, events, n - 1), events[n - 1];
    AfterConsistent(start, events, n - 1);
    if m == n - 1 {
      PublishSyncs(w, e);
    } else {
      ComesDownIff(start, events, m, n - 1);
      OneMoreExpiry(start, events, m, n - 1);
      if Publishes(w, e) {
        PublishSyncs(w, e);
      } else {
        OthersKeep(w, e);
      }
    }
  }

  /** And that timer is the one the show armed, with no restart in between. */
  lemma ExpiryIsItsOwn(start: int, events: seq<Event>, m: nat, k: nat)
    requires m < k < |events| && Shows(events[m]) && Expires(After(start, events, k), events[k])
    requires forall i :: m < i < k ==> !Shows(events[i])
    ensures events[m].hideAfter > 0 && events[k].t == After(start, events, m).nextTimer
    ensures forall i :: m < i < k ==> !events[i].Restart? && !events[i].HideCommand?
  {
    FieldIsLatest(start, events, k, events[k].t);
    var a: nat :| a < k && Arms(start, events, a, events[k].t) && forall i :: a < i < k ==> !Clears(start, events, i);
    if a < m { assert Clears(start, events, m); }
    assert a == m;
    forall i | m < i < k ensures !events[i].Restart? && !events[i].HideCommand? { assert !Clears(start, events, i); }
  }

  // Timer t fires after event m and its callback runs before n, with no restart on the way.
  ghost predicate RunsOut(events: seq<Event>, m: nat, n: nat, t: nat)
    requires n <= |events|
  {
    exists j, k :: m < j < k < n && events[j] == Fire(t) && events[k].Callback? && events[k].t == t
                   && forall i :: m < i < k ==> !events[i].Restart?
  }

  ghost predicate FiredIn(events: seq<Event>, m: nat, n: nat, t: nat)
    requires n <= |events|
  {
    exists j :: m < j < n && events[j] == Fire(t)
  }

  // Until something clears it, a show's timer is pending, and queued once it has fired.
  lemma {:induction false} TimerOfShow(start: int, events: seq<Event>, m: nat, n: nat)
    requires m < n <= |events| && Shows(events[m]) && events[m].hideAfter > 0
    requires forall k :: m < k < n ==> !Clears(start, events, k)
    ensures var w, t := After(start, events, n), After(start, events, m).nextTimer;
      && w.middleExpiry == Some(t) && t in w.timers
      && w.timers[t] == if FiredIn(events, m, n, t) then Queued else Pending
    decreases n
  {
    var t := After(start, events, m).nextTimer;
    AfterConsistent(start, events, n - 1);
    if m < n - 1 {
      TimerOfShow(start, events, m, n - 1);
      assert !Clears(start, events, n - 1);
      assert FiredIn(events, m, n, t) <==> FiredIn(events, m, n - 1, t) || events[n - 1] == Fire(t);
    }
  }

  /** In terms of the events alone: a text that no command replaces or hides comes
      down if and only if it was shown for a limited time, and the timer of that
      very show fired and had its callback run before any restart. */
  lemma TimedTextComesDownIff(start: int, events: seq<Event>, m: nat, n: nat)
    requires LeftAlone(events, m, n)
    ensures !After(start, events, n).overlay.isShowing <==>
      events[m].hideAfter > 0 && RunsOut(events, m, n, After(start, events, m).nextTimer)
  {
    var t := After(start, events, m).nextTimer;
    ComesDownIff(start, events, m, n);
    if ExpiresIn(start, events, m, n) {
      var k := FirstExpiry(start, events, m, n);
      ExpiryRunsOut(start, events, m, n, k);
    }
    if events[m].hideAfter > 0 && RunsOut(events, m, n, t) { RunsOutExpires(start, events, m, n); }
  }

  lemma {:induction false} FirstExpiry(start: int, events: seq<Event>, m: nat, n: nat) returns (k: nat)
    requires n <= |events| && ExpiresIn(start, events, m, n)
    ensures m < k < n && Expires(After(start, events, k), events[k]) && !ExpiresIn(start, events, m, k)
  {
    k :| m < k < n && Expires(After(start, events, k), events[k]);
    if ExpiresIn(start, events, m, k) { k := FirstExpiry(start, events, m, k); }
  }

  lemma ExpiryRunsOut(start: int, events: seq<Event>, m: nat, n: nat, k: nat)
    requires LeftAlone(events, m, n) && m < k < n
    requires Expires(After(start, events, k), events[k]) && !ExpiresIn(start, events, m, k)
    ensures events[m].hideAfter > 0 && RunsOut(events, m, n, After(start, events, m).nextTimer)
  {
    ExpiryIsItsOwn(start, events, m, k);
    forall i | m < i < k ensures !Clears(start, events, i) {
      assert !Expires(After(start, events, i), events[i]);
    }
    TimerOfShow(start, events, m, k);
    var j :| m < j < k && events[j] == Fire(After(start, events, m).nextTimer);
  }

  lemma RunsOutExpires(start: int, events: seq<Event>, m: nat, n: nat)
    requires LeftAlone(events, m, n) && events[m].hideAfter > 0
    requires RunsOut(events, m, n, After(start, events, m).nextTimer)
    ensures ExpiresIn(start, events, m, n)
  {
    var t := After(start, events, m).nextTimer;
    var j, k :| m < j < k < n && events[j] == Fire(t) && events[k].Callback? && events[k].t == t
                && forall i :: m < i < k ==> !events[i].Restart?;
    if !ExpiresIn(start, events, m, k) {
      forall i | m < i < k ensures !Clears(start, events, i) {
        assert !Expires(After(start, events, i), events[i]);
      }
      TimerOfShow(start, events, m, k);
      assert FiredIn(events, m, k, t);
    }
  }

  // ----- hiding, and what shows after any history

  predicate Commands(e: Event) {
    Shows(e) || e.HideCommand?
  }

  /** A hide command takes the text down with its content kept and no timer left
      pending, and down it stays until the next show, through sweeps, firings,
      callbacks, further hides and restored restarts; and when it was delivered
      the stream holds the text as hidden. */
  lemma {:induction false} HideHides(start: int, events: seq<Event>, m: nat, n: nat)
    requires m < n <= |events| && events[m].HideCommand? && Delivered(events[m])
    requires forall k :: m < k < n ==> !Shows(events[k]) && Restores(events[k])
    ensures var w, content := After(start, events, n), After(start, events, m).overlay.content;
      && !w.overlay.isShowing && w.overlay.content == content
      && w.middleExpiry == None && (forall t :: t in w.timers ==> w.timers[t] != Pending)
      && w.retained == Some(Retained(content, false))
    decreases n
  {
    AfterConsistent(start, events, n - 1);
    AfterConsistent(start, events, n);
    if m < n - 1 { HideHides(start, events, m, n - 1); }
  }

  /** Without a restart it does so whether or not anything is delivered. */
  lemma {:induction false} HideHidesUndelivered(start: int, events: seq<Event>, m: nat, n: nat)
    requires m < n <= |events| && events[m].HideCommand?
    requires forall k :: m < k < n ==> !Shows(events[k]) && !events[k].Restart?
    ensures var w := After(start, events, n);
      !w.overlay.isShowing && w.overlay.content == After(start, events, m).overlay.content && w.middleExpiry == None
    decreases n
  {
    AfterConsistent(start, events, n - 1);
    if m < n - 1 { HideHidesUndelivered(start, events, m, n - 1); }
  }

  /** A show that does not decode, or has no text, changes nothing. */
  lemma EmptyShowIsDropped(start: int, events: seq<Event>, k: nat)
    requires k < |events| && events[k].ShowCommand? && (events[k].msg == None || events[k].msg == Some(""))
    ensures After(start, events, k + 1) == After(start, events, k)
  {
  }

  // Before the first command the overlay is as constructed.
  lemma {:induction false} NothingYet(start: int, events: seq<Event>, n: nat)
    requires n <= |events| && forall k :: 0 <= k < n ==> !Commands(events[k]) && Restores(events[k])
    ensures var w := After(start, events, n);
      w.overlay.isShowing && w.overlay.content == "" && w.middleExpiry == None && w.retained == None
  {
    if n > 0 {
      AfterConsistent(start, events, n - 1);
      NothingYet(start, events, n - 1);
    }
  }

  // The timers armed by the first n events.
  function Armed(events: seq<Event>, n: nat): nat
    requires n <= |events|
  {
    if n == 0 then 0
    else Armed(events, n - 1) + if Shows(events[n - 1]) && events[n - 1].hideAfter > 0 then 1 else 0
  }

  lemma {:induction false} TimersAreNumbered(start: int, events: seq<Event>, n: nat)
    requires n <= |events|
    ensures After(start, events, n).nextTimer == Armed(events, n)
  {
    if n > 0 { TimersAreNumbered(start, events, n - 1); }
  }

  // m is the last show or hide command before n.
  ghost predicate LastCommand(events: seq<Event>, m: nat, n: nat)
    requires n <= |events|
  {
    m < n && Commands(events[m]) && forall k :: m < k < n ==> !Commands(events[k])
  }

  // The show at m has hidden itself: its own timer fired and its callback ran, before any restart.
  ghost predicate RanOut(events: seq<Event>, m: nat, n: nat)
    requires m < n <= |events| && Shows(events[m])
  {
    events[m].hideAfter > 0 && RunsOut(events, m, n, Armed(events, m))
  }

  // The last command is a show of this text that has not run out.
  ghost predicate ShownLast(events: seq<Event>, m: nat, n: nat, content: string)
    requires n <= |events|
  {
    LastCommand(events, m, n) && Shows(events[m]) && events[m].msg == Some(content) && !RanOut(events, m, n)
  }

  // What a viewer sees after n events, from the events alone.
  ghost predicate Up(events: seq<Event>, n: nat, content: string)
    requires n <= |events|
  {
    || (content == "" && forall k :: 0 <= k < n ==> !Commands(events[k]))
    || exists m :: ShownLast(events, m, n, content)
  }

  lemma {:induction false} LastCommandBefore(events: seq<Event>, n: nat) returns (m: nat)
    requires n <= |events| && exists k :: 0 <= k < n && Commands(events[k])
    ensures LastCommand(events, m, n)
  {
    if Commands(events[n - 1]) {
      m := n - 1;
    } else {
      m := LastCommandBefore(events, n - 1);
    }
  }

  lemma OneLastCommand(events: seq<Event>, n: nat, x: nat, y: nat)
    requires n <= |events| && LastCommand(events, x, n) && LastCommand(events, y, n)
    ensures x == y
  {
  }

  // A text taken down by its timer keeps its content too.
  lemma {:induction false} ContentKept(start: int, events: seq<Event>, m: nat, n: nat)
    requires LeftAlone(events, m, n)
    ensures After(start, events, n).overlay.content == events[m].msg.value
    decreases n
  {
    var w, e := After(start, events, n - 1), events[n - 1];
    AfterConsistent(start, events, n - 1);
    if m < n - 1 {
      ContentKept(start, events, m, n - 1);
      ComesDownIff(start, events, m, n - 1);
    }
  }

  /** In every interleaving, with publishes delivered and restarts restored, a text
      shows if and only if it is the one of the latest show, with no hide
      command since and its own timer not run out; or nothing was ever
      commanded, and the empty text shows. */
  lemma ShowingIff(start: int, events: seq<Event>, n: nat, content: string)
    requires n <= |events| && forall k :: 0 <= k < n ==> Delivered(events[k]) && Restores(events[k])
    ensures After(start, events, n).Live() == Retained(content, true) <==> Up(events, n, content)
  {
    if exists k :: 0 <= k < n && Commands(events[k]) {
      var m := LastCommandBefore(events, n);
      forall x: nat | LastCommand(events, x, n) ensures x == m { OneLastCommand(events, n, x, m); }
      assert Up(events, n, content) <==> ShownLast(events, m, n, content);
      if Shows(events[m]) {
        assert LeftAlone(events, m, n);
        ContentKept(start, events, m, n);
        TimedTextComesDownIff(start, events, m, n);
        TimersAreNumbered(start, events, m);
      } else {
        HideHides(start, events, m, n);
      }
    } else {
      NothingYet(start, events, n);
      assert forall m :: !ShownLast(events, m, n, content);
    }
  }

  /** A run that loses an auto-hide: a text shown for a minute, a restart before
      its timer fires, and the text is up with no timer left to take it down. */
  lemma AutoHideLost(start: int, at: int)
    ensures var events := [ShowCommand(Some("brb"), 60, true), Restart(at, true), Fire(0), Callback(0, true)];
      var shown, end := After(start, events, 1), After(start, events, 4);
      && shown.middleExpiry == Some(0) && shown.timers == map[0 := Pending]
      && end.overlay.isShowing && end.overlay.content == "brb" && end.middleExpiry == None && end.timers == map[]
  {
    var events := [ShowCommand(Some("brb"), 60, true), Restart(at, true), Fire(0), Callback(0, true)];
    RestartForgetsAutoHide(start, events, 1, 4);
    assert After(start, events, 1) == Step(Start(start), events[0]);
    assert After(start, events, 2) == Step(After(start, events, 1), events[1]);
  }
}
