/** One overlay's live state (pkg/onscreens-server/onscreens.go). Times are nanoseconds. */
module Onscreen {
  import opened Wrappers
  import opened InlineMarkdown

  datatype State = State(content: string, isShowing: bool, expires: int, dontExpire: bool)
  {
    predicate Expired(now: int) {
      !dontExpire && now > expires
    }

    // An expired window restarts now, a live one is pushed out.
    function Extend(now: int, dur: int): State {
      this.(expires := if Expired(now) then now + dur else expires + dur)
    }

    function Show(text: string): State {
      this.(dontExpire := true, isShowing := true, content := text)
    }

    function ShowFor(text: string, now: int, dur: int): State {
      this.(dontExpire := false).Extend(now, dur).(isShowing := true, content := text)
    }

    function Hide(): State {
      this.(isShowing := false)
    }

    function Sweep(now: int): State {
      if isShowing && Expired(now) then Hide() else this
    }
  }

  class Overlay {
    var content: string
    var isShowing: bool
    var expires: int
    var dontExpire: bool
    var rendered: string
    var renderedFrom: string

    constructor (now: int)
      ensures Valid() && View() == State("", false, now, false)
    {
      content, isShowing, expires, dontExpire := "", false, now, false;
      rendered, renderedFrom := "", "";
    }

    // The memo is always what its source renders to.
    ghost predicate Valid()
      reads this
    {
      rendered == Render(renderedFrom)
    }

    function View(): State
      reads this
    {
      State(content, isShowing, expires, dontExpire)
    }

    method Show(text: string)
      requires Valid()
      modifies this
      ensures Valid() && View() == old(View()).Show(text)
    {
      dontExpire, isShowing, content := true, true, text;
    }

    method ShowFor(text: string, now: int, dur: int)
      requires Valid()
      modifies this
      ensures Valid() && View() == old(View()).ShowFor(text, now, dur)
    {
      dontExpire := false;
      expires := if now > expires then now + dur else expires + dur;
      isShowing, content := true, text;
    }

    method Hide()
      requires Valid()
      modifies this
      ensures Valid() && View() == old(View()).Hide()
    {
      isShowing := false;
    }

    method SetContent(text: string)
      requires Valid()
      modifies this
      ensures Valid() && View() == old(View()).(content := text)
    {
      content := text;
    }

    method SetState(text: string, showing: bool)
      requires Valid()
      modifies this
      ensures Valid() && View() == old(View()).(content := text, isShowing := showing)
    {
      content, isShowing := text, showing;
    }

    // One turn of the background loop.
    method Sweep(now: int)
      requires Valid()
      modifies this
      ensures Valid() && View() == old(View()).Sweep(now)
    {
      if isShowing && !dontExpire && now > expires {
        isShowing := false;
      }
    }

    /** The memoized rendering is the rendering of the current content, after any
        operations, and asking for it changes nothing that shows. */
    method RenderedContent() returns (html: string)
      requires Valid()
      modifies this
      ensures Valid() && View() == old(View()) && html == Render(content)
    {
      if renderedFrom != content {
        rendered := RenderInlineMarkdown(content);
        renderedFrom := content;
      }
      html := rendered;
    }
  }

  // ----- expiry over whole runs

  datatype Event =
    | Shown(text: string)
    | ShownFor(text: string, at: int, dur: int)
    | Hidden
    | ContentSet(text: string)
    | StateSet(text: string, showing: bool)
    | Swept(at: int)

  function Apply(s: State, e: Event): State {
    match e
    case Shown(text) => s.Show(text)
    case ShownFor(text, at, dur) => s.ShowFor(text, at, dur)
    case Hidden => s.Hide()
    case ContentSet(text) => s.(content := text)
    case StateSet(text, showing) => s.(content := text, isShowing := showing)
    case Swept(at) => s.Sweep(at)
  }

  function Run(s: State, events: seq<Event>): State {
    if events == [] then s else Apply(Run(s, events[..|events| - 1]), events[|events| - 1])
  }

  // The timed shows of a run, in order.
  function TimedShows(events: seq<Event>): seq<Event>
    ensures forall k :: 0 <= k < |TimedShows(events)| ==> TimedShows(events)[k].ShownFor?
  {
    if events == [] then []
    else
      var e := events[|events| - 1];
      TimedShows(events[..|events| - 1]) + if e.ShownFor? then [e] else []
  }

  // The durations of the shows from the k-th on.
  function Durations(shows: seq<Event>, k: nat): int
    requires k <= |shows| && forall i :: 0 <= i < |shows| ==> shows[i].ShownFor?
    decreases |shows| - k
  {
    if k == |shows| then 0 else shows[k].dur + Durations(shows, k + 1)
  }

  lemma {:induction false} DurationsAppend(shows: seq<Event>, e: Event, k: nat)
    requires k <= |shows| && e.ShownFor? && forall i :: 0 <= i < |shows| ==> shows[i].ShownFor?
    ensures Durations(shows + [e], k) == Durations(shows, k) + e.dur
    decreases |shows| - k
  {
    if k < |shows| { DurationsAppend(shows, e, k + 1); }
  }

  // r is the latest of the starts of the display window: the initial expiry, or
  // a show, each followed by the durations of the shows from there on.
  ghost predicate IsLatest(first: int, shows: seq<Event>, r: int)
    requires forall i :: 0 <= i < |shows| ==> shows[i].ShownFor?
  {
    && first + Durations(shows, 0) <= r
    && (forall k :: 0 <= k < |shows| ==> shows[k].at + Durations(shows, k) <= r)
    && (r == first + Durations(shows, 0) || exists k :: 0 <= k < |shows| && r == shows[k].at + Durations(shows, k))
  }

  lemma ExtendsLatest(first: int, shows: seq<Event>, r: int, e: Event)
    requires e.ShownFor? && (forall i :: 0 <= i < |shows| ==> shows[i].ShownFor?) && IsLatest(first, shows, r)
    ensures IsLatest(first, shows + [e], (if e.at > r then e.at else r) + e.dur)
  {
    var more := shows + [e];
    var next := (if e.at > r then e.at else r) + e.dur;
    forall k: nat | k <= |shows| ensures Durations(more, k) == Durations(shows, k) + e.dur {
      DurationsAppend(shows, e, k);
    }
    assert Durations(shows, |shows|) == 0;
    if e.at > r {
      assert next == more[|shows|].at + Durations(more, |shows|);
    } else if r != first + Durations(shows, 0) {
      var k :| 0 <= k < |shows| && r == shows[k].at + Durations(shows, k);
      assert next == more[k].at + Durations(more, k);
    }
  }

  lemma OneEvent(s: State, before: seq<Event>, e: Event)
    ensures var events := before + [e];
      && Run(s, events) == Apply(Run(s, before), e)
      && TimedShows(events) == if e.ShownFor? then TimedShows(before) + [e] else TimedShows(before)
  {
  }

  lemma ExpiryMoves(s: State, e: Event)
    ensures Apply(s, e).expires == if e.ShownFor? then (if e.at > s.expires then e.at else s.expires) + e.dur else s.expires
  {
  }

  /** After any run of operations, the expiry is the maximum over the timed shows
      of the time of the show plus its duration and all later ones; shows without
      a time, hides, restores and sweeps do not move it. */
  lemma {:induction false} ExpiryIsLatest(s: State, events: seq<Event>)
    ensures IsLatest(s.expires, TimedShows(events), Run(s, events).expires)
  {
    if events != [] {
      var before, e := events[..|events| - 1], events[|events| - 1];
      assert events == before + [e];
      ExpiryIsLatest(s, before);
      OneEvent(s, before, e);
      ExpiryMoves(Run(s, before), e);
      if e.ShownFor? { ExtendsLatest(s.expires, TimedShows(before), Run(s, before).expires, e); }
    }
  }

  // Nothing in events takes the overlay down before `until`.
  ghost predicate LeavesUp(events: seq<Event>, until: int) {
    forall k :: 0 <= k < |events| ==> LeavesUpOne(events[k], until)
  }

  predicate LeavesUpOne(e: Event, until: int) {
    match e
    case Hidden => false
    case StateSet(_, showing) => showing
    case ShownFor(_, _, dur) => dur >= 0
    case Swept(at) => at <= until
    case _ => true
  }

  /** A timed show stays up for at least its own duration: whatever came before
      it, no sweep within that time hides it, even between later shows. */
  lemma {:induction false} NeverCutShort(s: State, text: string, at: int, dur: int, events: seq<Event>)
    requires LeavesUp(events, at + dur)
    ensures var r := Run(s.ShowFor(text, at, dur), events);
      r.isShowing && at + dur <= r.expires
  {
    if events != [] {
      var before := events[..|events| - 1];
      assert forall k :: 0 <= k < |before| ==> before[k] == events[k];
      NeverCutShort(s, text, at, dur, before);
      assert LeavesUpOne(events[|events| - 1], at + dur);
    }
  }

  // ----- what shows after any history

  // The last show of the run, if there is one, was permanent; else the overlay began so.
  ghost predicate Permanent(s: State, events: seq<Event>) {
    || (s.dontExpire && forall k :: 0 <= k < |events| ==> !events[k].ShownFor?)
    || exists m :: 0 <= m < |events| && events[m].Shown? && forall k :: m < k < |events| ==> !events[k].ShownFor?
  }

  // `at` is after every window the timed shows give: the expiry the overlay began
  // with and the time of each show, each with all the durations from there on.
  ghost predicate PastEveryWindow(first: int, shows: seq<Event>, at: int)
    requires forall i :: 0 <= i < |shows| ==> shows[i].ShownFor?
  {
    && at > first + Durations(shows, 0)
    && forall k: nat :: k < |shows| ==> at > shows[k].at + Durations(shows, k)
  }

  // A sweep at this time, after these events, finds the overlay expired.
  ghost predicate ExpiredAt(s: State, events: seq<Event>, at: int) {
    !Permanent(s, events) && PastEveryWindow(s.expires, TimedShows(events), at)
  }

  lemma {:induction false} PermanentIs(s: State, events: seq<Event>)
    ensures Run(s, events).dontExpire <==> Permanent(s, events)
  {
    if events != [] {
      var n := |events| - 1;
      var before, e := events[..n], events[n];
      PermanentIs(s, before);
      if Permanent(s, events) && !e.Shown? {
        if m :| 0 <= m < |events| && events[m].Shown? && forall k :: m < k < |events| ==> !events[k].ShownFor? {
          assert before[m].Shown? && forall k :: m < k < |before| ==> !before[k].ShownFor?;
        }
      }
      if Permanent(s, before) && !e.ShownFor? {
        if m :| 0 <= m < |before| && before[m].Shown? && forall k :: m < k < |before| ==> !before[k].ShownFor? {
          assert events[m].Shown? && forall k :: m < k < |events| ==> !events[k].ShownFor?;
        }
      }
      if e.Shown? { assert events[n].Shown?; }
    }
  }

  lemma ExpiredIs(s: State, events: seq<Event>, at: int)
    ensures Run(s, events).Expired(at) <==> ExpiredAt(s, events, at)
  {
    PermanentIs(s, events);
    ExpiryIsLatest(s, events);
    var shows, r := TimedShows(events), Run(s, events).expires;
    if PastEveryWindow(s.expires, shows, at) && r != s.expires + Durations(shows, 0) {
      var k: nat :| k < |shows| && r == shows[k].at + Durations(shows, k);
      assert at > shows[k].at + Durations(shows, k);
    }
  }

  /** After any run, a sweep leaves the overlay up if and only if it was up and
      either its last show was a permanent one or the time is not past every
      window the timed shows gave it. */
  lemma SweepHidesIff(s: State, events: seq<Event>, at: int)
    ensures Run(s, events + [Swept(at)]).isShowing <==> Run(s, events).isShowing && !ExpiredAt(s, events, at)
    ensures Run(s, events + [Swept(at)]).content == Run(s, events).content
  {
    OneEvent(s, events, Swept(at));
    ExpiredIs(s, events, at);
  }

  predicate Raises(e: Event) {
    e.Shown? || e.ShownFor? || (e.StateSet? && e.showing)
  }

  // Event k takes the overlay down, whatever was up.
  ghost predicate Lowers(s: State, events: seq<Event>, k: nat)
    requires k < |events|
  {
    match events[k]
    case Hidden => true
    case StateSet(_, showing) => !showing
    case Swept(at) => ExpiredAt(s, events[..k], at)
    case _ => false
  }

  // Something raised the overlay, or it began raised, and nothing lowered it since.
  ghost predicate Up(s: State, events: seq<Event>) {
    || (s.isShowing && forall k: nat :: k < |events| ==> !Lowers(s, events, k))
    || exists m: nat :: UpSince(s, events, m)
  }

  ghost predicate UpSince(s: State, events: seq<Event>, m: nat) {
    m < |events| && Raises(events[m]) && forall k: nat :: m < k < |events| ==> !Lowers(s, events, k)
  }

  lemma LowersBefore(s: State, before: seq<Event>, e: Event, k: nat)
    requires k < |before|
    ensures Lowers(s, before + [e], k) == Lowers(s, before, k)
  {
    assert (before + [e])[..k] == before[..k];
  }

  lemma OneMoreUp(s: State, before: seq<Event>, e: Event)
    ensures Up(s, before + [e]) <==> Raises(e) || (Up(s, before) && !Lowers(s, before + [e], |before|))
  {
    var events := before + [e];
    forall k: nat | k < |before| ensures Lowers(s, events, k) == Lowers(s, before, k) { LowersBefore(s, before, e, k); }
    if Raises(e) { assert UpSince(s, events, |before|); }
    if m: nat :| UpSince(s, before, m) {
      if !Lowers(s, events, |before|) { assert UpSince(s, events, m); }
    }
    if m: nat :| UpSince(s, events, m) {
      if m < |before| { assert UpSince(s, before, m); }
    }
  }

  lemma RunStep(s: State, before: seq<Event>, e: Event)
    ensures Run(s, before + [e]).isShowing <==>
      Raises(e) || (Run(s, before).isShowing && !Lowers(s, before + [e], |before|))
  {
    OneEvent(s, before, e);
    assert (before + [e])[..|before|] == before;
    if e.Swept? { ExpiredIs(s, before, e.at); }
  }

  /** The overlay shows after a run if and only if something raised it, or it began
      raised, and no hide, hidden restore or sweep past its window came since. */
  lemma {:induction false} ShowingIff(s: State, events: seq<Event>)
    ensures Run(s, events).isShowing <==> Up(s, events)
  {
    if events != [] {
      var before, e := events[..|events| - 1], events[|events| - 1];
      assert events == before + [e];
      ShowingIff(s, before);
      RunStep(s, before, e);
      OneMoreUp(s, before, e);
    }
  }

  function TextOf(e: Event): Option<string> {
    match e
    case Shown(text) => Some(text)
    case ShownFor(text, _, _) => Some(text)
    case ContentSet(text) => Some(text)
    case StateSet(text, _) => Some(text)
    case _ => None
  }

  /** And its content is the one of the last event that carries a text. */
  lemma {:induction false} ContentIsLast(s: State, events: seq<Event>, m: nat)
    requires m <= |events| && forall k :: m < k < |events| ==> TextOf(events[k]) == None
    requires m < |events| ==> TextOf(events[m]) != None
    requires m == |events| ==> forall k :: 0 <= k < |events| ==> TextOf(events[k]) == None
    ensures Run(s, events).content == if m < |events| then TextOf(events[m]).value else s.content
  {
    if events != [] {
      var n := |events| - 1;
      assert forall k :: 0 <= k < n ==> events[..n][k] == events[k];
      if m != n { ContentIsLast(s, events[..n], if m == |events| then n else m); }
    }
  }

  /** A timed show on a new overlay is up through its duration and down at the
      first sweep after it. */
  lemma TimedShowComesDown(born: int, text: string, at: int, dur: int, sweep: int)
    requires born <= at
    ensures Run(State("", false, born, false), [ShownFor(text, at, dur), Swept(sweep)]).isShowing <==> sweep <= at + dur
  {
    var s, shown := State("", false, born, false), [ShownFor(text, at, dur)];
    assert shown + [Swept(sweep)] == [ShownFor(text, at, dur), Swept(sweep)];
    SweepHidesIff(s, shown, sweep);
    assert shown[..0] == [] && Run(s, []) == s;
    assert TimedShows(shown) == shown && Durations(shown, 1) == 0;
    assert Run(s, shown).isShowing;
    if sweep > at + dur { assert forall k: nat :: k < 1 ==> sweep > shown[k].at + Durations(shown, k); }
  }
}
