/**
  The middle-text overlay of onscreens-server: its commands, auto-hide timers and
  retained state (pkg/onscreens-server/nats.go, middle-state.go, middle-text.go).

  One step is what runs under middleExpiryMu, or one turn of the sweep, or the
  runtime queueing the callback of a timer that fired. A callback that is
  already queued runs later, whatever happened to its timer in between.
*/
module MiddleText {
  import opened Wrappers
  import opened Onscreen

  // Stop reaches a pending timer only.
  datatype Timer = Pending | Queued | Stopped | Ran

  datatype Retained = Retained(msg: string, showing: bool)

  // `timers` is the runtime's view; `middleExpiry` is the server's field;
  // `retained` is the last value the state stream holds.
  datatype World = World(overlay: State, middleExpiry: Option<nat>, timers: map<nat, Timer>, nextTimer: nat,
                         retained: Option<Retained>)
  {
    function Live(): Retained {
      Retained(overlay.content, overlay.isShowing)
    }

    function Publish(state: Retained, delivered: bool): World {
      if delivered then this.(retained := Some(state)) else this
    }

    function Disarm(): World {
      match middleExpiry
      case None => this
      case Some(t) =>
        this.(middleExpiry := None,
              timers := if t in timers && timers[t] == Pending then timers[t := Stopped] else timers)
    }

    function Arm(after: int): World {
      var w := Disarm();
      if after <= 0 then w
      else w.(middleExpiry := Some(nextTimer), timers := w.timers[nextTimer := Pending], nextTimer := nextTimer + 1)
    }

    function HideMiddle(delivered: bool): World {
      var w := Arm(0);
      w.(overlay := w.overlay.Hide()).Publish(Retained(w.overlay.content, false), delivered)
    }
  }

  datatype Event =
    | ShowCommand(msg: Option<string>, hideAfter: int, delivered: bool)  // None: the body does not decode
    | HideCommand(delivered: bool)
    | Fire(t: nat)
    | Callback(t: nat, delivered: bool)
    | SweepTurn(at: int)
    | Restart(at: int, restored: bool)  // false: the stream cannot be ensured, found, read or decoded

  // middle.show is dropped when its body is malformed or its text is empty.
  predicate Shows(e: Event) {
    e.ShowCommand? && e.msg.Some? && e.msg.value != ""
  }

  // The callback runs and finds its own timer still the pending one.
  predicate Expires(w: World, e: Event) {
    e.Callback? && e.t in w.timers && w.timers[e.t] == Queued && w.middleExpiry == Some(e.t)
  }

  function Boot(at: int): State {
    State("", false, at, false).Show("")
  }

  // A new process's overlay, constructed and then restored from what was read back.
  function RestoredFrom(read: Option<Retained>, at: int): State {
    match read
    case None => Boot(at)
    case Some(r) => Boot(at).(content := r.msg, isShowing := r.showing)
  }

  function Start(at: int): World {
    World(Boot(at), None, map[], 0, None)
  }

  function Step(w: World, e: Event): World {
    match e
    case ShowCommand(msg, hideAfter, delivered) =>
      if !Shows(e) then w
      else
        w.(overlay := w.overlay.Show(msg.value)).Publish(Retained(msg.value, true), delivered).Arm(hideAfter)
    case HideCommand(delivered) => w.HideMiddle(delivered)
    case Fire(t) => if t in w.timers && w.timers[t] == Pending then w.(timers := w.timers[t := Queued]) else w
    case Callback(t, delivered) =>
      if !(t in w.timers && w.timers[t] == Queued) then w
      else
        var ran := w.(timers := w.timers[t := Ran]);
        if w.middleExpiry != Some(t) then ran else ran.HideMiddle(delivered)
    case SweepTurn(at) => w.(overlay := w.overlay.Sweep(at))
    case Restart(at, restored) =>
      w.(overlay := RestoredFrom(if restored then w.retained else None, at), middleExpiry := None, timers := map[])
  }

  // The first k events.
  function After(start: int, events: seq<Event>, k: nat): World
    requires k <= |events|
  {
    if k == 0 then Start(start) else Step(After(start, events, k - 1), events[k - 1])
  }

  // ----- the server, in place

  // NewMiddleText: the overlay as the server constructs it.
  method NewMiddleText(now: int) returns (overlay: Overlay)
    ensures fresh(overlay) && overlay.Valid() && overlay.View() == Boot(now)
  {
    overlay := new Overlay(now);
    overlay.Show("");
  }

  // RestoreMiddleText, on the overlay of a new process.
  method RestoreMiddleText(read: Option<Retained>, now: int) returns (overlay: Overlay)
    ensures fresh(overlay) && overlay.Valid() && overlay.View() == RestoredFrom(read, now)
  {
    overlay := NewMiddleText(now);
    if read != None {
      overlay.SetState(read.value.msg, read.value.showing);
    }
  }

  class Server {
    var middleText: Overlay
    var middleExpiry: Option<nat>
    // The runtime's timers and the stream, which outlive a call.
    var timers: map<nat, Timer>
    var nextTimer: nat
    var retained: Option<Retained>

    constructor (now: int)
      ensures Valid() && fresh(middleText) && View() == Start(now)
    {
      var overlay := NewMiddleText(now);
      middleText := overlay;
      middleExpiry, timers, nextTimer, retained := None, map[], 0, None;
    }

    ghost predicate Valid()
      reads this, middleText
    {
      middleText.Valid()
    }

    ghost function View(): World
      reads this, middleText
    {
      World(middleText.View(), middleExpiry, timers, nextTimer, retained)
    }

    method PublishMiddleState(msg: string, showing: bool, delivered: bool)
      requires Valid()
      modifies this`retained
      ensures Valid() && View() == old(View()).Publish(Retained(msg, showing), delivered)
    {
      if delivered {
        retained := Some(Retained(msg, showing));
      }
    }

    method ArmMiddleHide(after: int)
      requires Valid()
      modifies this`middleExpiry, this`timers, this`nextTimer
      ensures Valid() && View() == old(View()).Arm(after)
    {
      if middleExpiry != None {
        var t := middleExpiry.value;
        if t in timers && timers[t] == Pending {
          timers := timers[t := Stopped];
        }
        middleExpiry := None;
      }
      if after <= 0 {
        return;
      }
      timers := timers[nextTimer := Pending];
      middleExpiry := Some(nextTimer);
      nextTimer := nextTimer + 1;
    }

    method HideMiddle(delivered: bool)
      requires Valid()
      modifies this`retained, this`middleExpiry, this`timers, this`nextTimer, middleText
      ensures Valid() && View() == old(View()).HideMiddle(delivered)
    {
      ArmMiddleHide(0);
      middleText.Hide();
      PublishMiddleState(middleText.content, false, delivered);
    }

    method HandleMiddleShow(msg: Option<string>, hideAfter: int, delivered: bool)
      requires Valid()
      modifies this`retained, this`middleExpiry, this`timers, this`nextTimer, middleText
      ensures Valid() && View() == Step(old(View()), ShowCommand(msg, hideAfter, delivered))
    {
      if msg == None || msg.value == "" {
        return;
      }
      middleText.Show(msg.value);
      PublishMiddleState(msg.value, true, delivered);
      ArmMiddleHide(hideAfter);
    }

    method HandleMiddleHide(delivered: bool)
      requires Valid()
      modifies this`retained, this`middleExpiry, this`timers, this`nextTimer, middleText
      ensures Valid() && View() == Step(old(View()), HideCommand(delivered))
    {
      HideMiddle(delivered);
    }

    // One turn of the overlay's background loop.
    method SweepMiddle(now: int)
      requires Valid()
      modifies middleText
      ensures Valid() && View() == Step(old(View()), SweepTurn(now))
    {
      middleText.Sweep(now);
    }

    // The runtime starts the callback of a pending timer, which then waits for the lock.
    method TimerFires(t: nat)
      requires Valid()
      modifies this`timers
      ensures Valid() && View() == Step(old(View()), Fire(t))
    {
      if t in timers && timers[t] == Pending {
        timers := timers[t := Queued];
      }
    }

    // The body of the callback of timer t, once the lock is its own.
    method ExpireMiddle(t: nat, delivered: bool)
      requires Valid() && t in timers && timers[t] == Queued
      modifies this`retained, this`middleExpiry, this`timers, this`nextTimer, middleText
      ensures Valid() && View() == Step(old(View()), Callback(t, delivered))
    {
      timers := timers[t := Ran];
      if middleExpiry != Some(t) {
        return;
      }
      HideMiddle(delivered);
    }

    // A new process on the same stream: construct, then RestoreMiddleText.
    method RestartAndRestore(now: int, restored: bool)
      requires Valid()
      modifies this`middleText, this`middleExpiry, this`timers
      ensures Valid() && fresh(middleText) && View() == Step(old(View()), Restart(now, restored))
    {
      var overlay := RestoreMiddleText(if restored then retained else None, now);
      middleText := overlay;
      middleExpiry, timers := None, map[];
    }
  }
}
