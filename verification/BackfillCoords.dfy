/**
  The GPS repair pass of cmd/backfill-coords.

  The pass alternates two sweeps over the clips of one corpus until a detection
  sweep rejects nothing. `Detect`, `Fill` and `Converge` say what the sweeps
  compute, on values; BackfillCoordsPass.dfy holds the in-place algorithm and
  proves that it computes exactly this.
*/
module BackfillCoords {
  datatype Point = Point(lat: real, lng: real)

  // A row of the videos table. Film times are nanoseconds.
  datatype Clip = Clip(id: int, slug: string, lat: real, lng: real, state: string,
                       source: string, filmed: int, corpus: string, speed: int)
  {
    predicate HasFix() { lat != 0.0 || lng != 0.0 }
  }

  // An implied speed: not measured stands for NaN, infinite for +Inf.
  datatype Speed = NotMeasured | Mph(value: real) | Infinite
  {
    predicate Exceeds(limit: real) { Infinite? || (Mph? && value > limit) }
  }

  // The command's flags, and the distance function it calls.
  datatype Limits = Limits(maxSpeedMph: real, minSpikeMiles: real, detourRatio: real,
                           maxInterpGap: int, miles: (Point, Point) -> real)

  const NANOS_PER_HOUR := 3_600_000_000_000.0

  // The working slices of the pass.
  datatype Work = Work(lat: seq<real>, lng: seq<real>, state: seq<string>, fix: seq<bool>,
                       interp: seq<bool>, outlier: seq<bool>, inbound: seq<Speed>, outbound: seq<Speed>)
  {
    predicate Sized(n: nat) {
      n == |lat| == |lng| == |state| == |fix| == |interp| == |outlier| == |inbound| == |outbound|
    }

    function At(i: nat): Point
      requires i < |lat| && i < |lng|
    {
      Point(lat[i], lng[i])
    }

    // The clips that still stand on their own original fix.
    function Originals(): set<int>
      requires |fix| == |interp|
    {
      set i | 0 <= i < |fix| && fix[i] && !interp[i]
    }
  }

  // ----- anchors and measurements

  // The nearest set element before i, or -1.
  function Prev(b: seq<bool>, i: nat): (r: int)
    requires i <= |b|
    ensures -1 <= r < i
    ensures r >= 0 ==> b[r]
    ensures forall k :: r < k < i ==> !b[k]
  {
    if i == 0 then -1 else if b[i - 1] then i - 1 else Prev(b, i - 1)
  }

  // The nearest set element after i, or -1.
  function Next(b: seq<bool>, i: nat): (r: int)
    requires i < |b|
    ensures r == -1 || (i < r < |b| && b[r])
    ensures forall k :: i < k < (if r == -1 then |b| else r) ==> !b[k]
    decreases |b| - i
  {
    if i + 1 == |b| then -1 else if b[i + 1] then i + 1 else Next(b, i + 1)
  }

  function SpeedMph(p: Limits, ta: int, tb: int, a: Point, b: Point): Speed {
    var hours := (if tb >= ta then tb - ta else ta - tb) as real / NANOS_PER_HOUR;
    var miles := p.miles(a, b);
    if hours == 0.0 then (if miles == 0.0 then Mph(0.0) else Infinite) else Mph(miles / hours)
  }

  function InterpAt(ta: int, tb: int, a: Point, b: Point, t: int): Point {
    if tb == ta then a
    else
      var f := (t - ta) as real / (tb - ta) as real;
      Point(a.lat + f * (b.lat - a.lat), a.lng + f * (b.lng - a.lng))
  }

  // The geometric signature of a bad reading: far from its previous anchor,
  // snapping back, and impossibly fast to reach.
  predicate Spikes(p: Limits, ta: int, t: int, a: Point, x: Point, b: Point) {
    var excursion := p.miles(a, x);
    && excursion > p.minSpikeMiles
    && excursion + p.miles(x, b) > p.miles(a, b) * p.detourRatio
    && SpeedMph(p, ta, t, a, x).Exceeds(p.maxSpeedMph)
  }

  // ----- the detection sweep

  // Clip i has an original fix, and anchors on both sides within the gap.
  predicate Judged(p: Limits, clips: seq<Clip>, s: Work, i: nat)
    requires s.Sized(|clips|) && i < |clips|
  {
    && s.fix[i] && !s.interp[i]
    && Prev(s.fix, i) >= 0 && Next(s.fix, i) >= 0
    && clips[i].filmed - clips[Prev(s.fix, i)].filmed <= p.maxInterpGap
    && clips[Next(s.fix, i)].filmed - clips[i].filmed <= p.maxInterpGap
  }

  predicate Rejected(p: Limits, clips: seq<Clip>, s: Work, i: nat)
    requires s.Sized(|clips|) && i < |clips|
  {
    && Judged(p, clips, s, i)
    && var a, b := Prev(s.fix, i), Next(s.fix, i);
       Spikes(p, clips[a].filmed, clips[i].filmed, s.At(a), s.At(i), s.At(b))
  }

  function DetectAt(p: Limits, clips: seq<Clip>, s: Work, i: nat): (r: Work)
    requires s.Sized(|clips|) && i < |clips|
    ensures r.Sized(|clips|)
  {
    if !Judged(p, clips, s, i) then s
    else
      var a, b := Prev(s.fix, i), Next(s.fix, i);
      var s1 := s.(inbound := s.inbound[i := SpeedMph(p, clips[a].filmed, clips[i].filmed, s.At(a), s.At(i))],
                   outbound := s.outbound[i := SpeedMph(p, clips[i].filmed, clips[b].filmed, s.At(i), s.At(b))]);
      if Rejected(p, clips, s, i)
      then s1.(fix := s1.fix[i := false], outlier := s1.outlier[i := true])
      else s1
  }

  // The sweep after its first k clips: each clip sees the rejections before it.
  function Detect(p: Limits, clips: seq<Clip>, s: Work, k: nat): (r: Work)
    requires s.Sized(|clips|) && k <= |clips|
    ensures r.Sized(|clips|)
  {
    if k == 0 then s else DetectAt(p, clips, Detect(p, clips, s, k - 1), k - 1)
  }

  function Rejections(p: Limits, clips: seq<Clip>, s: Work, k: nat): nat
    requires s.Sized(|clips|) && k <= |clips|
  {
    if k == 0 then 0
    else
      Rejections(p, clips, s, k - 1) +
      if Rejected(p, clips, Detect(p, clips, s, k - 1), k - 1) then 1 else 0
  }

  // ----- the interpolation sweep, clip by clip

  // Clip k is a hole whose surrounding anchors are close enough in film time.
  predicate Fillable(p: Limits, clips: seq<Clip>, s: Work, k: nat)
    requires s.Sized(|clips|) && k < |clips|
  {
    && !s.fix[k] && Prev(s.fix, k) >= 0 && Next(s.fix, k) >= 0
    && clips[Next(s.fix, k)].filmed - clips[Prev(s.fix, k)].filmed <= p.maxInterpGap
  }

  function FilledAt(clips: seq<Clip>, s: Work, k: nat): Point
    requires s.Sized(|clips|) && k < |clips|
    requires Prev(s.fix, k) >= 0 && Next(s.fix, k) >= 0
  {
    var a, b := Prev(s.fix, k), Next(s.fix, k);
    InterpAt(clips[a].filmed, clips[b].filmed, s.At(a), s.At(b), clips[k].filmed)
  }

  function Fill(p: Limits, clips: seq<Clip>, s: Work): (r: Work)
    requires s.Sized(|clips|)
    ensures r.Sized(|clips|)
  {
    var n := |clips|;
    s.(lat := seq(n, k requires 0 <= k < n => if Fillable(p, clips, s, k) then FilledAt(clips, s, k).lat else s.lat[k]),
       lng := seq(n, k requires 0 <= k < n => if Fillable(p, clips, s, k) then FilledAt(clips, s, k).lng else s.lng[k]),
       state := seq(n, k requires 0 <= k < n => if Fillable(p, clips, s, k) then s.state[Prev(s.fix, k)] else s.state[k]),
       fix := seq(n, k requires 0 <= k < n => s.fix[k] || Fillable(p, clips, s, k)),
       interp := seq(n, k requires 0 <= k < n => s.interp[k] || Fillable(p, clips, s, k)))
  }

  // ----- the whole pass

  function Init(clips: seq<Clip>): (s: Work)
    ensures s.Sized(|clips|)
  {
    var n := |clips|;
    Work(seq(n, i requires 0 <= i < n => clips[i].lat), seq(n, i requires 0 <= i < n => clips[i].lng),
         seq(n, i requires 0 <= i < n => clips[i].state), seq(n, i requires 0 <= i < n => clips[i].HasFix()),
         seq(n, _ => false), seq(n, _ => false), seq(n, _ => NotMeasured), seq(n, _ => NotMeasured))
  }

  function Round(p: Limits, clips: seq<Clip>, s: Work): (r: Work)
    requires s.Sized(|clips|)
    ensures r.Sized(|clips|)
  {
    Fill(p, clips, Detect(p, clips, s, |clips|))
  }

  predicate Quiet(p: Limits, clips: seq<Clip>, s: Work)
    requires s.Sized(|clips|)
  {
    Rejections(p, clips, s, |clips|) == 0
  }

  function Converge(p: Limits, clips: seq<Clip>, s: Work): (r: Work)
    requires s.Sized(|clips|)
    ensures r.Sized(|clips|)
    decreases |s.Originals()|
  {
    RoundCountsDown(p, clips, s);
    if Quiet(p, clips, s) then Round(p, clips, s) else Converge(p, clips, Round(p, clips, s))
  }

  function Rounds(p: Limits, clips: seq<Clip>, s: Work): nat
    requires s.Sized(|clips|)
    decreases |s.Originals()|
  {
    RoundCountsDown(p, clips, s);
    if Quiet(p, clips, s) then 1 else 1 + Rounds(p, clips, Round(p, clips, s))
  }

  function Final(p: Limits, clips: seq<Clip>): (s: Work)
    ensures s.Sized(|clips|)
  {
    Converge(p, clips, Init(clips))
  }

  // ----- one decision per clip

  datatype Action = Keep | Interpolate | LeaveMissing

  const SOURCE_INTERPOLATED := "interpolated"
  const SOURCE_MISSING := "missing"

  datatype Decision = Decision(clip: Clip, action: Action, newLat: real, newLng: real, newState: string,
                               newSource: string, wasOutlier: bool, inbound: Speed, outbound: Speed)
  {
    // A missing clip already marked missing needs no update.
    predicate Changed() {
      action != Keep && !(action == LeaveMissing && clip.source == SOURCE_MISSING && !clip.HasFix())
    }

    // The stored row after the UPDATE this decision stands for.
    function Applied(): Clip {
      if !Changed() then clip
      else if action == Interpolate
      then clip.(lat := newLat, lng := newLng, state := newState, source := SOURCE_INTERPOLATED)
      else clip.(source := SOURCE_MISSING)
    }
  }

  function Decide(clips: seq<Clip>, s: Work, i: nat): Decision
    requires s.Sized(|clips|) && i < |clips|
  {
    var keep := Decision(clips[i], Keep, 0.0, 0.0, "", "", s.outlier[i], s.inbound[i], s.outbound[i]);
    if s.interp[i] then
      keep.(action := Interpolate, newLat := s.lat[i], newLng := s.lng[i], newState := s.state[i],
            newSource := SOURCE_INTERPOLATED)
    else if s.outlier[i] then keep
    else if !clips[i].HasFix() then keep.(action := LeaveMissing, newSource := SOURCE_MISSING)
    else keep
  }

  // ----- termination: what a round does to the number of original fixes

  lemma DetectAtCountsDown(p: Limits, clips: seq<Clip>, s: Work, i: nat)
    requires s.Sized(|clips|) && i < |clips|
    ensures var d := DetectAt(p, clips, s, i);
      && d.lat == s.lat && d.lng == s.lng && d.state == s.state && d.interp == s.interp
      && d.Originals() == if Rejected(p, clips, s, i) then s.Originals() - {i} else s.Originals()
    ensures Rejected(p, clips, s, i) ==> i in s.Originals()
  {
  }

  lemma {:induction false} DetectCountsDown(p: Limits, clips: seq<Clip>, s: Work, k: nat)
    requires s.Sized(|clips|) && k <= |clips|
    ensures var d := Detect(p, clips, s, k);
      && d.lat == s.lat && d.lng == s.lng && d.state == s.state && d.interp == s.interp
      && d.Originals() <= s.Originals()
      && |d.Originals()| + Rejections(p, clips, s, k) == |s.Originals()|
  {
    if k > 0 {
      DetectCountsDown(p, clips, s, k - 1);
      DetectAtCountsDown(p, clips, Detect(p, clips, s, k - 1), k - 1);
    }
  }

  lemma FillKeepsOriginals(p: Limits, clips: seq<Clip>, s: Work)
    requires s.Sized(|clips|)
    ensures Fill(p, clips, s).Originals() == s.Originals()
  {
  }

  lemma RoundCountsDown(p: Limits, clips: seq<Clip>, s: Work)
    requires s.Sized(|clips|)
    ensures |Round(p, clips, s).Originals()| + Rejections(p, clips, s, |clips|) == |s.Originals()|
  {
    DetectCountsDown(p, clips, s, |clips|);
    FillKeepsOriginals(p, clips, Detect(p, clips, s, |clips|));
  }
}
