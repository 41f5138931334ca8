/** The in-place form of the GPS repair pass, over the working slices. */
module BackfillCoordsPass {
  import opened BackfillCoords
  import opened BackfillCoordsLaws

  // The slices the pass allocates, one cell per clip.
  class Workspace {
    const clips: seq<Clip>
    const curLat: array<real>
    const curLng: array<real>
    const curState: array<string>
    const fix: array<bool>
    const interp: array<bool>
    const wasOutlier: array<bool>
    const inbound: array<Speed>
    const outbound: array<Speed>

    constructor (clips: seq<Clip>)
      ensures Valid() && fresh(Cells()) && this.clips == clips && View() == Init(clips)
    {
      var n := |clips|;
      this.clips := clips;
      curLat := new real[n](i requires 0 <= i < n => clips[i].lat);
      curLng := new real[n](i requires 0 <= i < n => clips[i].lng);
      curState := new string[n](i requires 0 <= i < n => clips[i].state);
      fix := new bool[n](i requires 0 <= i < n => clips[i].HasFix());
      interp := new bool[n](_ => false);
      wasOutlier := new bool[n](_ => false);
      inbound := new Speed[n](_ => NotMeasured);
      outbound := new Speed[n](_ => NotMeasured);
      new;
      var s := Init(clips);
      assert curLat[..] == s.lat && curLng[..] == s.lng && curState[..] == s.state;
      assert fix[..] == s.fix && interp[..] == s.interp && wasOutlier[..] == s.outlier;
      assert inbound[..] == s.inbound && outbound[..] == s.outbound;
    }

    ghost function Cells(): set<object> {
      {curLat as object, curLng as object, curState as object, fix as object, interp as object,
       wasOutlier as object, inbound as object, outbound as object}
    }

    ghost predicate Valid() {
      && |clips| == curLat.Length == curLng.Length == curState.Length == fix.Length
      && |clips| == interp.Length == wasOutlier.Length == inbound.Length == outbound.Length
      && curLat != curLng && fix != interp && interp != wasOutlier && fix != wasOutlier && inbound != outbound
    }

    ghost function View(): (w: Work)
      reads Cells()
    {
      Work(curLat[..], curLng[..], curState[..], fix[..], interp[..], wasOutlier[..], inbound[..], outbound[..])
    }

    function At(i: nat): Point
      requires i < curLat.Length && i < curLng.Length
      reads curLat, curLng
    {
      Point(curLat[i], curLng[i])
    }

    method PrevTrue(i: nat) returns (r: int)
      requires Valid() && i <= |clips|
      ensures r == Prev(fix[..], i)
    {
      var k := i - 1;
      while k >= 0
        invariant -1 <= k < i && Prev(fix[..], i) == Prev(fix[..], k + 1)
      {
        if fix[k] {
          return k;
        }
        k := k - 1;
      }
      return -1;
    }

    method NextTrue(i: nat) returns (r: int)
      requires Valid() && i < |clips|
      ensures r == Next(fix[..], i)
    {
      var k := i + 1;
      while k < fix.Length
        invariant i < k <= fix.Length && Next(fix[..], i) == Next(fix[..], k - 1)
      {
        if fix[k] {
          return k;
        }
        k := k + 1;
      }
      return -1;
    }

    // The guards of the detection loop, and the two anchors they find.
    method Anchors(p: Limits, i: nat) returns (judged: bool, prev: int, next: int)
      requires Valid() && i < |clips|
      ensures judged == Judged(p, clips, View(), i)
      ensures judged ==> prev == Prev(fix[..], i) && next == Next(fix[..], i)
    {
      judged, prev, next := false, -1, -1;
      if fix[i] && !interp[i] {
        prev := PrevTrue(i);
        next := NextTrue(i);
        judged := prev >= 0 && next >= 0 && clips[i].filmed - clips[prev].filmed <= p.maxInterpGap
          && clips[next].filmed - clips[i].filmed <= p.maxInterpGap;
      }
    }

    // The body of the detection loop.
    method JudgeClip(p: Limits, i: nat) returns (rejected: bool)
      requires Valid() && i < |clips|
      modifies fix, wasOutlier, inbound, outbound
      ensures View() == DetectAt(p, clips, old(View()), i)
      ensures rejected == Rejected(p, clips, old(View()), i)
    {
      ghost var s := View();
      rejected := false;
      var judged, prev, next := Anchors(p, i);
      if !judged {
        return;
      }
      var a, x, b := At(prev), At(i), At(next);
      var speedIn := SpeedMph(p, clips[prev].filmed, clips[i].filmed, a, x);
      var speedOut := SpeedMph(p, clips[i].filmed, clips[next].filmed, x, b);
      inbound[i] := speedIn;
      outbound[i] := speedOut;
      assert inbound[..] == s.inbound[i := speedIn] && outbound[..] == s.outbound[i := speedOut];
      var excursion := p.miles(a, x);
      var direct := p.miles(a, b);
      var detour := excursion + p.miles(x, b);
      rejected := excursion > p.minSpikeMiles && detour > direct * p.detourRatio && speedIn.Exceeds(p.maxSpeedMph);
      if rejected {
        fix[i] := false;
        wasOutlier[i] := true;
        assert fix[..] == s.fix[i := false] && wasOutlier[..] == s.outlier[i := true];
      }
    }

    method DetectPass(p: Limits) returns (newOutliers: nat)
      requires Valid()
      modifies Cells()
      ensures View() == Detect(p, clips, old(View()), |clips|)
      ensures newOutliers == Rejections(p, clips, old(View()), |clips|)
    {
      newOutliers := 0;
      for i := 0 to |clips|
        invariant View() == Detect(p, clips, old(View()), i)
        invariant newOutliers == Rejections(p, clips, old(View()), i)
      {
        var rejected := JudgeClip(p, i);
        if rejected {
          newOutliers := newOutliers + 1;
        }
      }
    }

    ghost predicate CellIs(w: Work, k: int)
      requires Valid() && w.Sized(|clips|) && 0 <= k < |clips|
      reads Cells()
    {
      curLat[k] == w.lat[k] && curLng[k] == w.lng[k] && curState[k] == w.state[k] && fix[k] == w.fix[k] && interp[k] == w.interp[k]
    }

    // The first `done` clips are as f has them, the rest as s has them.
    ghost predicate FilledUpTo(f: Work, s: Work, done: int)
      requires Valid() && s.Sized(|clips|) && f.Sized(|clips|) && 0 <= done <= |clips|
      reads Cells()
    {
      && (forall k :: 0 <= k < done ==> CellIs(f, k))
      && (forall k :: done <= k < |clips| ==> CellIs(s, k))
    }

    // Clip k gets a synthesized fix; the other clips keep theirs.
    method Synthesize(ghost f: Work, ghost s: Work, k: nat, x: Point, state: string)
      requires Valid() && s.Sized(|clips|) && f.Sized(|clips|) && k < |clips| && FilledUpTo(f, s, k)
      requires f.fix[k] && f.interp[k] && f.At(k) == x && f.state[k] == state
      modifies curLat, curLng, curState, fix, interp
      ensures FilledUpTo(f, s, k + 1)
    {
      curLat[k], curLng[k] := x.lat, x.lng;
      curState[k] := state;
      fix[k] := true;
      interp[k] := true;
      forall m | 0 <= m < k ensures CellIs(f, m) { assert old(CellIs(f, m)); }
      forall m | k < m < |clips| ensures CellIs(s, m) { assert old(CellIs(s, m)); }
    }

    // The inner loop of the interpolation sweep: fills the run of holes i..j.
    method FillRun(p: Limits, ghost f: Work, ghost s: Work, i: nat, j: nat)
      requires Valid() && IsFilled(p, clips, s, f) && 0 < i < j < |clips|
      requires s.fix[i - 1] && s.fix[j] && forall k :: i <= k < j ==> !s.fix[k]
      requires clips[j].filmed - clips[i - 1].filmed <= p.maxInterpGap
      requires FilledUpTo(f, s, i)
      modifies curLat, curLng, curState, fix, interp
      ensures FilledUpTo(f, s, j)
    {
      for k := i to j
        invariant FilledUpTo(f, s, k)
      {
        FilledInRun(p, clips, s, f, i, j, k);
        assert CellIs(f, i - 1) && CellIs(s, j) && CellIs(s, k);
        var x := InterpAt(clips[i - 1].filmed, clips[j].filmed, At(i - 1), At(j), clips[k].filmed);
        Synthesize(f, s, k, x, curState[i - 1]);
      }
    }

    // The closing loop: one decision per clip from the converged slices.
    method Decisions() returns (out: seq<Decision>)
      requires Valid()
      ensures |out| == |clips|
      ensures forall i :: 0 <= i < |clips| ==> out[i] == Decide(clips, View(), i)
    {
      out := [];
      for i := 0 to |clips|
        invariant |out| == i && forall k :: 0 <= k < i ==> out[k] == Decide(clips, View(), k)
      {
        var d := Decision(clips[i], Keep, 0.0, 0.0, "", "", wasOutlier[i], inbound[i], outbound[i]);
        if interp[i] {
          d := d.(action := Interpolate, newLat := curLat[i], newLng := curLng[i], newState := curState[i],
                  newSource := SOURCE_INTERPOLATED);
        } else if !wasOutlier[i] && !clips[i].HasFix() {
          d := d.(action := LeaveMissing, newSource := SOURCE_MISSING);
        }
        out := out + [d];
      }
    }

    // A run of holes with no anchor on one side, or anchors too far apart, is left.
    lemma SkipRun(p: Limits, f: Work, s: Work, i: nat, j: nat)
      requires Valid() && IsFilled(p, clips, s, f) && i < j <= |clips|
      requires (i == 0 || s.fix[i - 1]) && (j == |clips| || s.fix[j]) && forall k :: i <= k < j ==> !s.fix[k]
      requires i == 0 || j == |clips| || clips[j].filmed - clips[i - 1].filmed > p.maxInterpGap
      requires FilledUpTo(f, s, i)
      ensures FilledUpTo(f, s, j)
    {
      forall k | i <= k < j ensures CellIs(f, k) {
        LeftInRun(p, clips, s, f, i, j, k);
        assert CellIs(s, k);
      }
    }

    // What the interpolation loop sees when it looks at clip i and the one before.
    lemma CellsAround(p: Limits, f: Work, s: Work, i: nat, done: nat)
      requires Valid() && IsFilled(p, clips, s, f) && i <= done <= |clips| && i < |clips| && FilledUpTo(f, s, done)
      requires i < done ==> i > 0 && !s.fix[i - 1] && !s.fix[i]
      requires 0 < i == done ==> s.fix[i - 1] || s.fix[i]
      ensures i < done ==> fix[i] || !fix[i - 1]
      ensures i == done ==> fix[i] == s.fix[i] && (0 < i && s.fix[i - 1] ==> fix[i - 1])
      ensures i == done && s.fix[i] ==> FilledUpTo(f, s, i + 1)
    {
      assert FilledCell(p, clips, s, f, i);
      if 0 < i {
        assert FilledCell(p, clips, s, f, i - 1);
        assert CellIs(f, i - 1);
      }
      if i < done {
        assert CellIs(f, i);
        SameRunSameAnchors(s.fix, i - 1, i);
      } else {
        assert CellIs(s, i);
        if s.fix[i] { assert CellIs(f, i); }
      }
    }

    // The scan for the end of the run of holes that starts at i.
    method EndOfRun(ghost f: Work, ghost s: Work, i: nat) returns (j: nat)
      requires Valid() && s.Sized(|clips|) && f.Sized(|clips|) && i < |clips| && !fix[i] && FilledUpTo(f, s, i)
      ensures FilledUpTo(f, s, i)
      ensures i < j <= |clips| && (j < |clips| ==> s.fix[j]) && forall k :: i <= k < j ==> !s.fix[k]
    {
      j := i;
      while j < |clips| && !fix[j]
        invariant i <= j <= |clips| && forall k :: i <= k < j ==> !s.fix[k]
      {
        assert CellIs(s, j);
        j := j + 1;
      }
      assert j < |clips| ==> CellIs(s, j);
    }

    lemma Filled(f: Work, s: Work)
      requires Valid() && s.Sized(|clips|) && f.Sized(|clips|) && FilledUpTo(f, s, |clips|)
      ensures curLat[..] == f.lat && curLng[..] == f.lng && curState[..] == f.state
      ensures fix[..] == f.fix && interp[..] == f.interp
    {
      forall k | 0 <= k < |clips|
        ensures curLat[k] == f.lat[k] && curLng[k] == f.lng[k] && curState[k] == f.state[k]
        ensures fix[k] == f.fix[k] && interp[k] == f.interp[k]
      {
        assert CellIs(f, k);
      }
    }

    // Where the interpolation loop stands: `done` clips are final, and they
    // end at i or at the end of the run of holes that clip i - 1 belongs to.
    ghost predicate Frontier(s: Work, i: int, done: int)
      requires s.Sized(|clips|)
    {
      && 0 <= i <= done <= |clips|
      && (i < done ==> i > 0 && !s.fix[i - 1])
      && (forall k :: i <= k < done ==> !s.fix[k])
      && (i < done < |clips| ==> s.fix[done])
      && (0 < i == done < |clips| ==> s.fix[i - 1] || s.fix[i])
    }

    // The body of the interpolation loop.
    method FillFrom(p: Limits, ghost f: Work, ghost s: Work, i: nat, ghost done: nat) returns (ghost done': nat)
      requires Valid() && IsFilled(p, clips, s, f) && i < |clips| && Frontier(s, i, done) && FilledUpTo(f, s, done)
      modifies curLat, curLng, curState, fix, interp
      ensures Frontier(s, i + 1, done') && FilledUpTo(f, s, done')
    {
      CellsAround(p, f, s, i, done);
      if fix[i] || (i > 0 && !fix[i - 1]) {
        done' := if i == done then done + 1 else done;
        return;
      }
      var j := EndOfRun(f, s, i);
      var before, after := i - 1, j;
      if before < 0 || after >= |clips| || clips[after].filmed - clips[before].filmed > p.maxInterpGap {
        SkipRun(p, f, s, i, j);
      } else {
        FillRun(p, f, s, i, j);
      }
      done' := j;
    }

    method FillPass(p: Limits)
      requires Valid()
      modifies curLat, curLng, curState, fix, interp
      ensures View() == Fill(p, clips, old(View()))
    {
      ghost var s := View();
      ghost var f := Fill(p, clips, s);
      FillIsFilled(p, clips, s);
      ghost var done := 0;
      for i := 0 to |clips|
        invariant Frontier(s, i, done) && FilledUpTo(f, s, done)
      {
        done := FillFrom(p, f, s, i, done);
      }
      Filled(f, s);
    }
  }

  /** The whole pass: alternate the two sweeps until detection rejects nothing,
      then one decision per clip. */
  method Analyze(p: Limits, clips: seq<Clip>) returns (out: seq<Decision>)
    ensures AreDecisions(p, clips, out)
    ensures forall k: nat :: k < |clips| && out[k].action == Interpolate ==> Written(p, clips, out, k)
  {
    var w := new Workspace(clips);
    while true
      invariant w.Valid() && fresh(w.Cells()) && w.clips == clips
      invariant Converge(p, clips, w.View()) == Final(p, clips)
      decreases |w.View().Originals()|
    {
      ghost var s := w.View();
      RoundCountsDown(p, clips, s);
      var newOutliers := w.DetectPass(p);
      w.FillPass(p);
      assert w.View() == Round(p, clips, s);
      if newOutliers == 0 {
        assert w.View() == Final(p, clips);
        break;
      }
    }
    out := w.Decisions();
    forall k: nat | k < |clips| && out[k].action == Interpolate ensures Written(p, clips, out, k) {
      WrittenOnTheLine(p, clips, out, k);
    }
  }
}
