/** What the GPS repair pass guarantees over whole runs. */
module BackfillCoordsLaws {
  import opened BackfillCoords

  // The ORDER BY of the query that loads the clips.
  ghost predicate FilmOrder(clips: seq<Clip>) {
    forall i, j :: 0 <= i < j < |clips| ==> clips[i].filmed <= clips[j].filmed
  }

  // lo and hi bound the coordinates of every original fix.
  ghost predicate Bounds(clips: seq<Clip>, lo: Point, hi: Point) {
    forall i :: 0 <= i < |clips| && clips[i].HasFix() ==> Within(Point(clips[i].lat, clips[i].lng), lo, hi)
  }

  predicate Within(x: Point, lo: Point, hi: Point) {
    lo.lat <= x.lat <= hi.lat && lo.lng <= x.lng <= hi.lng
  }

  ghost predicate OriginalAtOrBefore(clips: seq<Clip>, i: int, state: string)
    requires i < |clips|
  {
    exists a :: 0 <= a <= i && clips[a].HasFix() && clips[a].state == state
  }

  ghost predicate OriginalAtOrAfter(clips: seq<Clip>, i: int)
    requires 0 <= i
  {
    exists b :: i <= b < |clips| && clips[b].HasFix()
  }

  // What every state of a run keeps about clip i: a clip stands on its own fix
  // exactly when it had one and it was not rejected; synthesized clips are the
  // others; values not synthesized are the stored ones; a coordinate is always
  // between original fixes, and a state comes from an earlier one.
  ghost predicate Sound(clips: seq<Clip>, s: Work, i: int)
    requires s.Sized(|clips|) && 0 <= i < |clips|
  {
    && (s.fix[i] && !s.interp[i] <==> clips[i].HasFix() && !s.outlier[i])
    && (s.interp[i] ==> s.fix[i])
    && (s.outlier[i] ==> clips[i].HasFix())
    && (!s.interp[i] ==> s.lat[i] == clips[i].lat && s.lng[i] == clips[i].lng && s.state[i] == clips[i].state)
    && (s.fix[i] ==> OriginalAtOrBefore(clips, i, s.state[i]) && OriginalAtOrAfter(clips, i))
    && (s.interp[i] || s.outlier[i] ==>
          (exists a :: 0 <= a < i && clips[a].HasFix()) && (exists b :: i < b < |clips| && clips[b].HasFix()))
    && (s.interp[i] ==> OriginalAtOrBefore(clips, i - 1, s.state[i]))
  }

  ghost predicate Invariant(clips: seq<Clip>, s: Work, lo: Point, hi: Point)
    requires s.Sized(|clips|)
  {
    && (forall i :: 0 <= i < |clips| ==> Sound(clips, s, i))
    && (FilmOrder(clips) && Bounds(clips, lo, hi) ==>
          forall i :: 0 <= i < |clips| && s.fix[i] ==> Within(s.At(i), lo, hi))
  }

  // ----- anchors

  lemma PrevIs(b: seq<bool>, i: nat, r: int)
    requires i <= |b| && -1 <= r < i && (r >= 0 ==> b[r])
    requires forall k :: r < k < i ==> !b[k]
    ensures Prev(b, i) == r
  {
  }

  lemma NextIs(b: seq<bool>, i: nat, r: int)
    requires i < |b| && (r == -1 || (i < r < |b| && b[r]))
    requires forall k :: i < k < (if r == -1 then |b| else r) ==> !b[k]
    ensures Next(b, i) == r
  {
  }

  // Two holes of one run of holes have the same anchors.
  lemma SameRunSameAnchors(b: seq<bool>, j: nat, k: nat)
    requires j <= k < |b| && forall x :: j <= x <= k ==> !b[x]
    ensures Prev(b, j) == Prev(b, k) && Next(b, j) == Next(b, k)
  {
  }

  // ----- linear interpolation stays between its anchors

  lemma MulNonNeg(x: real, y: real)
    requires x >= 0.0 && y >= 0.0
    ensures x * y >= 0.0
  {
  }

  lemma Convex(a: real, d: real, f: real, lo: real, hi: real)
    requires 0.0 <= f <= 1.0 && lo <= a <= hi && lo <= a + d <= hi
    ensures lo <= a + f * d <= hi
  {
    var g := 1.0 - f;
    MulNonNeg(f, a + d - lo);
    MulNonNeg(g, a - lo);
    MulNonNeg(f, hi - a - d);
    MulNonNeg(g, hi - a);
    assert f * (a + d - lo) + g * (a - lo) == a + f * d - lo;
    assert f * (hi - a - d) + g * (hi - a) == hi - (a + f * d);
  }

  lemma Fraction(num: real, den: real)
    requires 0.0 <= num <= den && den > 0.0
    ensures 0.0 <= num / den <= 1.0
  {
  }

  lemma InterpWithin(ta: int, tb: int, t: int, a: Point, b: Point, lo: Point, hi: Point)
    requires ta <= t <= tb && Within(a, lo, hi) && Within(b, lo, hi)
    ensures Within(InterpAt(ta, tb, a, b, t), lo, hi)
  {
    if ta < tb {
      var f := (t - ta) as real / (tb - ta) as real;
      Fraction((t - ta) as real, (tb - ta) as real);
      Convex(a.lat, b.lat - a.lat, f, lo.lat, hi.lat);
      Convex(a.lng, b.lng - a.lng, f, lo.lng, hi.lng);
    }
  }

  // x's share of the way from a to b is t's share of the time from ta to tb; with
  // no time between them x is a.
  predicate Linear(ta: int, tb: int, t: int, a: Point, b: Point, x: Point) {
    if ta == tb then x == a
    else
      var span, since := (tb - ta) as real, (t - ta) as real;
      (x.lat - a.lat) * span == (b.lat - a.lat) * since && (x.lng - a.lng) * span == (b.lng - a.lng) * since
  }

  /** An interpolated point moves from one anchor to the other at a constant rate,
      and meets each at its own time. */
  lemma InterpIsLinear(ta: int, tb: int, t: int, a: Point, b: Point)
    ensures Linear(ta, tb, t, a, b, InterpAt(ta, tb, a, b, t))
    ensures t == ta ==> InterpAt(ta, tb, a, b, t) == a
    ensures ta != t == tb ==> InterpAt(ta, tb, a, b, t) == b
  {
    if ta != tb {
      var span, since := (tb - ta) as real, (t - ta) as real;
      ScaledDifference(a.lat, b.lat, since / span, span, since);
      ScaledDifference(a.lng, b.lng, since / span, span, since);
    }
  }

  lemma ScaledDifference(a: real, b: real, f: real, span: real, since: real)
    requires f * span == since
    ensures (a + f * (b - a) - a) * span == (b - a) * since
  {
    assert a + f * (b - a) - a == f * (b - a);
    assert f * (b - a) * span == (b - a) * (f * span);
  }

  /** The implied speed is the distance over the time between the fixes, either
      way round; in no time at all any move is infinitely fast. */
  lemma SpeedIsDistanceOverTime(p: Limits, ta: int, tb: int, a: Point, b: Point, limit: real)
    requires p.miles(a, b) >= 0.0
    ensures var v := SpeedMph(p, ta, tb, a, b);
      && v == SpeedMph(p, tb, ta, a, b)
      && (ta == tb ==> v == if p.miles(a, b) == 0.0 then Mph(0.0) else Infinite)
      && (ta < tb ==> v.Mph? && v.value * ((tb - ta) as real / NANOS_PER_HOUR) == p.miles(a, b))
      && (ta < tb ==> (v.Exceeds(limit) <==> p.miles(a, b) > limit * ((tb - ta) as real / NANOS_PER_HOUR)))
  {
  }

  // ----- the rejection test, spelled out

  // a and b are the nearest anchors around clip i.
  ghost predicate AnchorsAround(fix: seq<bool>, a: nat, i: nat, b: nat) {
    a < i < b < |fix| && fix[a] && fix[b] && (forall j :: a < j < i ==> !fix[j]) && (forall j :: i < j < b ==> !fix[j])
  }

  // Clip i still has its own fix, and is in one session with its anchors a and b.
  ghost predicate InSession(p: Limits, clips: seq<Clip>, s: Work, a: nat, i: nat, b: nat)
    requires s.Sized(|clips|)
  {
    && AnchorsAround(s.fix, a, i, b) && s.fix[i] && !s.interp[i]
    && clips[i].filmed - clips[a].filmed <= p.maxInterpGap && clips[b].filmed - clips[i].filmed <= p.maxInterpGap
  }

  // miles in this film time are more than the limit allows; any move in no time is.
  predicate TooFast(limit: real, miles: real, nanos: int) {
    if nanos == 0 then miles != 0.0 || 0.0 > limit else miles > limit * (nanos as real / 3_600_000_000_000.0)
  }

  // Far from the previous anchor, snapping back, and impossibly fast to reach.
  ghost predicate SnapsBack(p: Limits, clips: seq<Clip>, s: Work, a: nat, i: nat, b: nat)
    requires s.Sized(|clips|) && a < |clips| && i < |clips| && b < |clips|
  {
    var there, back, direct := p.miles(s.At(a), s.At(i)), p.miles(s.At(i), s.At(b)), p.miles(s.At(a), s.At(b));
    var nanos := clips[i].filmed - clips[a].filmed;
    && there > p.minSpikeMiles && there + back > p.detourRatio * direct
    && TooFast(p.maxSpeedMph, there, if nanos >= 0 then nanos else -nanos)
  }

  lemma JudgedMeans(p: Limits, clips: seq<Clip>, s: Work, i: nat)
    requires s.Sized(|clips|) && i < |clips|
    ensures Judged(p, clips, s, i) <==> exists a, b :: InSession(p, clips, s, a, i, b)
    ensures forall a, b :: InSession(p, clips, s, a, i, b) ==> a == Prev(s.fix, i) && b == Next(s.fix, i)
  {
    if Judged(p, clips, s, i) { assert InSession(p, clips, s, Prev(s.fix, i), i, Next(s.fix, i)); }
  }

  lemma ExceedsMeans(p: Limits, ta: int, tb: int, a: Point, b: Point, limit: real)
    ensures SpeedMph(p, ta, tb, a, b).Exceeds(limit) <==>
      TooFast(limit, p.miles(a, b), if tb >= ta then tb - ta else ta - tb)
  {
    var nanos := if tb >= ta then tb - ta else ta - tb;
    if nanos != 0 { OverTime(p.miles(a, b), nanos as real / NANOS_PER_HOUR, limit); }
  }

  lemma OverTime(miles: real, hours: real, limit: real)
    requires hours > 0.0
    ensures miles / hours > limit <==> miles > limit * hours
  {
    var v := miles / hours;
    assert v * hours == miles;
    if v > limit {
      assert (v - limit) * hours > 0.0;
    } else {
      assert (limit - v) * hours >= 0.0;
    }
  }

  /** A clip is rejected exactly when it still has its own fix, its nearest anchors
      are both in its session, and it juts out, snaps back and is too fast. */
  lemma RejectedMeans(p: Limits, clips: seq<Clip>, s: Work, i: nat)
    requires s.Sized(|clips|) && i < |clips|
    ensures Rejected(p, clips, s, i) <==>
      exists a, b :: InSession(p, clips, s, a, i, b) && SnapsBack(p, clips, s, a, i, b)
  {
    JudgedMeans(p, clips, s, i);
    if Judged(p, clips, s, i) {
      var a, b := Prev(s.fix, i), Next(s.fix, i);
      assert InSession(p, clips, s, a, i, b);
      ExceedsMeans(p, clips[a].filmed, clips[i].filmed, s.At(a), s.At(i), p.maxSpeedMph);
    }
  }

  // ----- every step keeps the invariant

  lemma InitInvariant(clips: seq<Clip>, lo: Point, hi: Point)
    ensures Invariant(clips, Init(clips), lo, hi)
  {
  }

  lemma DetectAtKeeps(p: Limits, clips: seq<Clip>, s: Work, k: nat, lo: Point, hi: Point)
    requires s.Sized(|clips|) && k < |clips| && Invariant(clips, s, lo, hi)
    ensures Invariant(clips, DetectAt(p, clips, s, k), lo, hi)
  {
    var d := DetectAt(p, clips, s, k);
    forall i | 0 <= i < |clips| ensures Sound(clips, d, i) {
      assert Sound(clips, s, i);
      if i == k && Rejected(p, clips, s, k) {
        var a, b := Prev(s.fix, k), Next(s.fix, k);
        assert Sound(clips, s, a) && Sound(clips, s, b);
      }
    }
    forall i | 0 <= i < |clips| && d.fix[i] ensures d.At(i) == s.At(i) && s.fix[i] {}
  }

  lemma {:induction false} DetectKeeps(p: Limits, clips: seq<Clip>, s: Work, k: nat, lo: Point, hi: Point)
    requires s.Sized(|clips|) && k <= |clips| && Invariant(clips, s, lo, hi)
    ensures Invariant(clips, Detect(p, clips, s, k), lo, hi)
  {
    if k > 0 {
      DetectKeeps(p, clips, s, k - 1, lo, hi);
      DetectAtKeeps(p, clips, Detect(p, clips, s, k - 1), k - 1, lo, hi);
    }
  }

  lemma FillKeepsSound(p: Limits, clips: seq<Clip>, s: Work, i: nat)
    requires s.Sized(|clips|) && i < |clips|
    requires forall k :: 0 <= k < |clips| ==> Sound(clips, s, k)
    ensures Sound(clips, Fill(p, clips, s), i)
  {
    assert Sound(clips, s, i);
    if Fillable(p, clips, s, i) {
      var a, b := Prev(s.fix, i), Next(s.fix, i);
      assert Sound(clips, s, a) && Sound(clips, s, b);
      var x :| 0 <= x <= a && clips[x].HasFix() && clips[x].state == s.state[a];
      assert 0 <= x <= i - 1 && clips[x].HasFix() && clips[x].state == s.state[a];
      var y :| b <= y < |clips| && clips[y].HasFix();
      assert i < y;
    }
  }

  lemma {:induction false} FillKeeps(p: Limits, clips: seq<Clip>, s: Work, lo: Point, hi: Point)
    requires s.Sized(|clips|) && Invariant(clips, s, lo, hi)
    ensures Invariant(clips, Fill(p, clips, s), lo, hi)
  {
    var f := Fill(p, clips, s);
    forall i | 0 <= i < |clips| ensures Sound(clips, f, i) { FillKeepsSound(p, clips, s, i); }
    if FilmOrder(clips) && Bounds(clips, lo, hi) {
      forall i | 0 <= i < |clips| && f.fix[i] ensures Within(f.At(i), lo, hi) {
        if Fillable(p, clips, s, i) {
          var a, b := Prev(s.fix, i), Next(s.fix, i);
          InterpWithin(clips[a].filmed, clips[b].filmed, clips[i].filmed, s.At(a), s.At(b), lo, hi);
          assert f.At(i) == FilledAt(clips, s, i);
        } else {
          assert f.At(i) == s.At(i);
        }
      }
    }
  }

  lemma {:induction false} ConvergeKeeps(p: Limits, clips: seq<Clip>, s: Work, lo: Point, hi: Point)
    requires s.Sized(|clips|) && Invariant(clips, s, lo, hi)
    ensures Invariant(clips, Converge(p, clips, s), lo, hi)
    decreases |s.Originals()|
  {
    DetectKeeps(p, clips, s, |clips|, lo, hi);
    FillKeeps(p, clips, Detect(p, clips, s, |clips|), lo, hi);
    if !Quiet(p, clips, s) {
      RoundCountsDown(p, clips, s);
      ConvergeKeeps(p, clips, Round(p, clips, s), lo, hi);
    }
  }

  /** Every state a run ends in keeps the invariant; in particular, for clips in
      film order, every coordinate a clip ends with lies in the box of the
      original fixes. */
  lemma FinalInvariant(p: Limits, clips: seq<Clip>, lo: Point, hi: Point)
    ensures Invariant(clips, Final(p, clips), lo, hi)
  {
    InitInvariant(clips, lo, hi);
    ConvergeKeeps(p, clips, Init(clips), lo, hi);
  }

  /** The pass never rejects the first or the last original fix of a corpus. */
  lemma EndpointsSurvive(p: Limits, clips: seq<Clip>, i: nat)
    requires i < |clips|
    requires (forall j :: 0 <= j < i ==> !clips[j].HasFix()) || (forall j :: i < j < |clips| ==> !clips[j].HasFix())
    ensures !Final(p, clips).outlier[i] && !Final(p, clips).interp[i]
  {
    FinalInvariant(p, clips, Point(0.0, 0.0), Point(0.0, 0.0));
    assert Sound(clips, Final(p, clips), i);
  }

  /** What a decision writes, for every clip of every run: a coordinate only over
      a hole or a rejected fix, inside the box of the original fixes, with the
      state of an earlier original fix; an original fix that was not rejected,
      and a rejected one that no anchors could replace, stay as stored. */
  lemma DecisionsAreSafe(p: Limits, clips: seq<Clip>, lo: Point, hi: Point, i: nat)
    requires i < |clips|
    ensures var c, d := clips[i], Decide(clips, Final(p, clips), i);
      && (d.action == Interpolate ==>
            && (!c.HasFix() || d.wasOutlier)
            && OriginalAtOrBefore(clips, i - 1, d.newState)
            && (FilmOrder(clips) && Bounds(clips, lo, hi) ==> Within(Point(d.newLat, d.newLng), lo, hi)))
      && (d.wasOutlier ==> c.HasFix())
      && (c.HasFix() && !d.wasOutlier ==> d.action == Keep)
      && (d.action == Interpolate ==>
            d.Applied() == c.(lat := d.newLat, lng := d.newLng, state := d.newState, source := "interpolated"))
      && (d.action != Interpolate ==> d.Applied() == if c.HasFix() then c else c.(source := "missing"))
      && (!d.Changed() <==> d.Applied() == c && d.action != Interpolate)
      && (d.action == LeaveMissing ==> c.lat == 0.0 && c.lng == 0.0 && d.newSource == "missing")
      && (c.lat == 0.0 && c.lng == 0.0 ==> d.action != Keep)
      && (d.action == Interpolate ==> d.newSource == "interpolated")
  {
    FinalInvariant(p, clips, lo, hi);
    assert Sound(clips, Final(p, clips), i);
  }

  // ----- what the report says of a flagged clip

  ghost predicate FlaggedTooFast(p: Limits, s: Work, n: nat)
    requires s.Sized(n)
  {
    forall i :: 0 <= i < n && s.outlier[i] ==> s.inbound[i].Exceeds(p.maxSpeedMph)
  }

  lemma {:induction false} DetectKeepsTooFast(p: Limits, clips: seq<Clip>, s: Work, k: nat, lo: Point, hi: Point)
    requires s.Sized(|clips|) && k <= |clips| && Invariant(clips, s, lo, hi) && FlaggedTooFast(p, s, |clips|)
    ensures FlaggedTooFast(p, Detect(p, clips, s, k), |clips|)
  {
    if k > 0 {
      DetectKeepsTooFast(p, clips, s, k - 1, lo, hi);
      DetectKeeps(p, clips, s, k - 1, lo, hi);
      var d := Detect(p, clips, s, k - 1);
      assert Sound(clips, d, k - 1);
    }
  }

  lemma {:induction false} ConvergeKeepsTooFast(p: Limits, clips: seq<Clip>, s: Work, lo: Point, hi: Point)
    requires s.Sized(|clips|) && Invariant(clips, s, lo, hi) && FlaggedTooFast(p, s, |clips|)
    ensures FlaggedTooFast(p, Converge(p, clips, s), |clips|)
    decreases |s.Originals()|
  {
    DetectKeepsTooFast(p, clips, s, |clips|, lo, hi);
    if !Quiet(p, clips, s) {
      DetectKeeps(p, clips, s, |clips|, lo, hi);
      FillKeeps(p, clips, Detect(p, clips, s, |clips|), lo, hi);
      RoundCountsDown(p, clips, s);
      ConvergeKeepsTooFast(p, clips, Round(p, clips, s), lo, hi);
    }
  }

  /** The speed reported for a flagged clip is the one it was rejected for: no
      later round overwrites it with an acceptable one. */
  lemma FlaggedReportsItsSpeed(p: Limits, clips: seq<Clip>, i: nat)
    requires i < |clips| && Decide(clips, Final(p, clips), i).wasOutlier
    ensures Decide(clips, Final(p, clips), i).inbound.Exceeds(p.maxSpeedMph)
  {
    var o := Point(0.0, 0.0);
    InitInvariant(clips, o, o);
    ConvergeKeepsTooFast(p, clips, Init(clips), o, o);
  }

  // ----- termination

  /** A clip that a sweep rejects had never been rejected before, in any state
      a run can reach. */
  lemma RejectedOnce(p: Limits, clips: seq<Clip>, s: Work, i: nat, lo: Point, hi: Point)
    requires s.Sized(|clips|) && i < |clips| && Invariant(clips, s, lo, hi)
    requires Rejected(p, clips, s, i)
    ensures !s.outlier[i] && clips[i].HasFix()
    ensures DetectAt(p, clips, s, i).outlier[i]
  {
    assert Sound(clips, s, i);
  }

  /** A round that is not the last strictly lowers the number of clips standing
      on their own fix, so there is at most one round more than original fixes. */
  lemma {:induction false} RoundsBounded(p: Limits, clips: seq<Clip>, s: Work)
    requires s.Sized(|clips|)
    ensures 1 <= Rounds(p, clips, s) <= |s.Originals()| + 1
    ensures !Quiet(p, clips, s) ==> |Round(p, clips, s).Originals()| < |s.Originals()|
    decreases |s.Originals()|
  {
    RoundCountsDown(p, clips, s);
    if !Quiet(p, clips, s) {
      RoundsBounded(p, clips, Round(p, clips, s));
    }
  }

  // ----- the fixed point

  // s and t differ at most in the speeds kept for the report.
  predicate SamePositions(s: Work, t: Work) {
    && s.lat == t.lat && s.lng == t.lng && s.state == t.state
    && s.fix == t.fix && s.interp == t.interp && s.outlier == t.outlier
  }

  lemma {:induction false} QuietUpTo(p: Limits, clips: seq<Clip>, s: Work, k: nat)
    requires s.Sized(|clips|) && k <= |clips|
    ensures Rejections(p, clips, s, k) == 0 <==> forall i :: 0 <= i < k ==> !Rejected(p, clips, s, i)
    ensures Rejections(p, clips, s, k) == 0 ==> SamePositions(Detect(p, clips, s, k), s)
  {
    if k > 0 {
      QuietUpTo(p, clips, s, k - 1);
      var d := Detect(p, clips, s, k - 1);
      if Rejections(p, clips, s, k - 1) == 0 {
        assert d.At(k - 1) == s.At(k - 1);
        assert Rejected(p, clips, d, k - 1) == Rejected(p, clips, s, k - 1);
      }
    }
  }

  /** A sweep rejects nothing exactly when no clip, judged against the state the
      sweep starts from, meets the rejection test. */
  lemma QuietIffNoneRejected(p: Limits, clips: seq<Clip>, s: Work)
    requires s.Sized(|clips|)
    ensures Quiet(p, clips, s) <==> forall i :: 0 <= i < |clips| ==> !Rejected(p, clips, s, i)
  {
    QuietUpTo(p, clips, s, |clips|);
  }

  // Where clip k is placed once the holes around the fixes of s are filled.
  function PlacedIn(clips: seq<Clip>, s: Work, k: nat): Point
    requires s.Sized(|clips|) && k < |clips|
  {
    if s.fix[k] || Prev(s.fix, k) < 0 || Next(s.fix, k) < 0 then s.At(k) else FilledAt(clips, s, k)
  }

  lemma FilledPoint(p: Limits, clips: seq<Clip>, s: Work, k: nat)
    requires s.Sized(|clips|) && k < |clips|
    ensures var f := Fill(p, clips, s);
      && f.fix[k] == (s.fix[k] || Fillable(p, clips, s, k))
      && (f.fix[k] ==> f.At(k) == PlacedIn(clips, s, k))
  {
  }

  // The interpolation sweep said clip by clip.
  ghost predicate FilledCell(p: Limits, clips: seq<Clip>, s: Work, f: Work, k: nat)
    requires s.Sized(|clips|) && f.Sized(|clips|) && k < |clips|
  {
    if Fillable(p, clips, s, k)
    then f.fix[k] && f.interp[k] && f.At(k) == FilledAt(clips, s, k) && f.state[k] == s.state[Prev(s.fix, k)]
    else f.fix[k] == s.fix[k] && f.interp[k] == s.interp[k] && f.At(k) == s.At(k) && f.state[k] == s.state[k]
  }

  ghost predicate IsFilled(p: Limits, clips: seq<Clip>, s: Work, f: Work) {
    s.Sized(|clips|) && f.Sized(|clips|) && forall k: nat :: k < |clips| ==> FilledCell(p, clips, s, f, k)
  }

  lemma FillIsFilled(p: Limits, clips: seq<Clip>, s: Work)
    requires s.Sized(|clips|)
    ensures IsFilled(p, clips, s, Fill(p, clips, s))
  {
  }

  // Clip k of the maximal run of holes i..j, whose anchors are close enough.
  lemma FilledInRun(p: Limits, clips: seq<Clip>, s: Work, f: Work, i: nat, j: nat, k: nat)
    requires IsFilled(p, clips, s, f) && 0 < i <= k < j < |clips|
    requires s.fix[i - 1] && s.fix[j] && forall x :: i <= x < j ==> !s.fix[x]
    requires clips[j].filmed - clips[i - 1].filmed <= p.maxInterpGap
    ensures f.fix[k] && f.interp[k] && f.state[k] == s.state[i - 1] && f.state[i - 1] == s.state[i - 1]
    ensures f.At(i - 1) == s.At(i - 1)
    ensures f.At(k) == InterpAt(clips[i - 1].filmed, clips[j].filmed, s.At(i - 1), s.At(j), clips[k].filmed)
  {
    PrevIs(s.fix, k, i - 1);
    NextIs(s.fix, k, j);
    assert FilledCell(p, clips, s, f, k) && FilledCell(p, clips, s, f, i - 1);
  }

  lemma LeftInRun(p: Limits, clips: seq<Clip>, s: Work, f: Work, i: nat, j: nat, k: nat)
    requires IsFilled(p, clips, s, f) && i <= k < j <= |clips|
    requires (i == 0 || s.fix[i - 1]) && (j == |clips| || s.fix[j]) && forall x :: i <= x < j ==> !s.fix[x]
    requires i == 0 || j == |clips| || clips[j].filmed - clips[i - 1].filmed > p.maxInterpGap
    ensures !f.fix[k] && f.interp[k] == s.interp[k] && f.At(k) == s.At(k) && f.state[k] == s.state[k]
  {
    PrevIs(s.fix, k, i - 1);
    NextIs(s.fix, k, if j == |clips| then -1 else j);
    assert FilledCell(p, clips, s, f, k);
  }

  // A run of holes is filled whole or not at all.
  lemma {:induction false} SameRunSameFate(p: Limits, clips: seq<Clip>, s: Work, j: nat, k: nat)
    requires s.Sized(|clips|) && j <= k < |clips| && forall x :: j <= x <= k ==> !s.fix[x]
    ensures Fill(p, clips, s).fix[j] == Fill(p, clips, s).fix[k]
  {
    SameRunSameAnchors(s.fix, j, k);
    FilledPoint(p, clips, s, j);
    FilledPoint(p, clips, s, k);
  }

  // Filling keeps every fix there is.
  lemma FillKeepsFixes(p: Limits, clips: seq<Clip>, s: Work)
    requires s.Sized(|clips|)
    ensures |Fill(p, clips, s).fix| == |s.fix|
    ensures forall j :: 0 <= j < |clips| && s.fix[j] ==> Fill(p, clips, s).fix[j]
  {
  }

  // Around a hole left open, the clips between its anchors are left open too.
  lemma {:induction false} LeftoverRun(p: Limits, clips: seq<Clip>, s: Work, k: nat)
    requires s.Sized(|clips|) && k < |clips| && !Fill(p, clips, s).fix[k]
    ensures forall j :: Prev(s.fix, k) < j < k ==> !Fill(p, clips, s).fix[j]
    ensures forall j :: k < j < (if Next(s.fix, k) == -1 then |clips| else Next(s.fix, k)) ==> !Fill(p, clips, s).fix[j]
  {
    FillKeepsFixes(p, clips, s);
    forall j | Prev(s.fix, k) < j < k ensures !Fill(p, clips, s).fix[j] { SameRunSameFate(p, clips, s, j, k); }
    forall j | k < j < (if Next(s.fix, k) == -1 then |clips| else Next(s.fix, k)) ensures !Fill(p, clips, s).fix[j] {
      SameRunSameFate(p, clips, s, k, j);
    }
  }

  lemma SameAnchors(b: seq<bool>, c: seq<bool>, k: nat)
    requires |b| == |c| && k < |b| && forall j :: 0 <= j < |b| && b[j] ==> c[j]
    requires forall j :: Prev(b, k) < j < k ==> !c[j]
    requires forall j :: k < j < (if Next(b, k) == -1 then |b| else Next(b, k)) ==> !c[j]
    ensures Prev(c, k) == Prev(b, k) && Next(c, k) == Next(b, k)
  {
    PrevIs(c, k, Prev(b, k));
    NextIs(c, k, Next(b, k));
  }

  // A hole left by the interpolation sweep keeps its anchors, so it stays a hole.
  lemma {:induction false} LeftoverHole(p: Limits, clips: seq<Clip>, s: Work, k: nat)
    requires s.Sized(|clips|) && k < |clips| && !Fill(p, clips, s).fix[k]
    ensures var f := Fill(p, clips, s);
      Prev(f.fix, k) == Prev(s.fix, k) && Next(f.fix, k) == Next(s.fix, k) && !Fillable(p, clips, f, k)
  {
    FillKeepsFixes(p, clips, s);
    LeftoverRun(p, clips, s, k);
    SameAnchors(s.fix, Fill(p, clips, s).fix, k);
    FilledPoint(p, clips, s, k);
  }

  lemma {:induction false} FillSettles(p: Limits, clips: seq<Clip>, s: Work)
    requires s.Sized(|clips|)
    ensures var f := Fill(p, clips, s); Fill(p, clips, f) == f
  {
    var f := Fill(p, clips, s);
    forall k | 0 <= k < |clips| ensures !Fillable(p, clips, f, k) {
      if !f.fix[k] { LeftoverHole(p, clips, s, k); }
    }
    var g := Fill(p, clips, f);
    assert g.lat == f.lat && g.lng == f.lng && g.state == f.state && g.fix == f.fix && g.interp == f.interp;
  }

  lemma FillRespects(p: Limits, clips: seq<Clip>, s: Work, t: Work)
    requires s.Sized(|clips|) && t.Sized(|clips|) && SamePositions(s, t)
    ensures SamePositions(Fill(p, clips, s), Fill(p, clips, t))
  {
  }

  lemma QuietRespects(p: Limits, clips: seq<Clip>, s: Work, t: Work)
    requires s.Sized(|clips|) && t.Sized(|clips|) && SamePositions(s, t)
    ensures Quiet(p, clips, s) == Quiet(p, clips, t)
  {
    QuietIffNoneRejected(p, clips, s);
    QuietIffNoneRejected(p, clips, t);
    forall i | 0 <= i < |clips| ensures Rejected(p, clips, s, i) == Rejected(p, clips, t, i) {
      forall k | 0 <= k < |clips| ensures s.At(k) == t.At(k) {}
    }
  }

  /** In every run, no run of holes bracketed within maxInterpGap is left open. */
  lemma {:induction false} NoFillableHoleLeft(p: Limits, clips: seq<Clip>, s: Work)
    requires s.Sized(|clips|)
    ensures var f := Converge(p, clips, s);
      Fill(p, clips, f) == f && forall k :: 0 <= k < |clips| ==> !Fillable(p, clips, f, k)
    decreases |s.Originals()|
  {
    if Quiet(p, clips, s) {
      var d := Detect(p, clips, s, |clips|);
      FillSettles(p, clips, d);
      var f := Fill(p, clips, d);
      forall k | 0 <= k < |clips| ensures !Fillable(p, clips, f, k) {
        if !f.fix[k] { LeftoverHole(p, clips, d, k); }
      }
    } else {
      RoundCountsDown(p, clips, s);
      NoFillableHoleLeft(p, clips, Round(p, clips, s));
    }
  }

  // A quiet round only fills holes.
  lemma QuietRound(p: Limits, clips: seq<Clip>, s: Work)
    requires s.Sized(|clips|) && Quiet(p, clips, s)
    ensures SamePositions(Round(p, clips, s), Fill(p, clips, s))
  {
    QuietUpTo(p, clips, s, |clips|);
    FillRespects(p, clips, Detect(p, clips, s, |clips|), s);
  }

  // From a state with no hole left to fill, a run ends where detection is quiet.
  lemma {:induction false} SettledRunsConverge(p: Limits, clips: seq<Clip>, s: Work)
    requires s.Sized(|clips|) && Fill(p, clips, s) == s
    ensures Quiet(p, clips, Converge(p, clips, s))
    decreases |s.Originals()|
  {
    if Quiet(p, clips, s) {
      QuietRound(p, clips, s);
      QuietRespects(p, clips, s, Round(p, clips, s));
    } else {
      RoundCountsDown(p, clips, s);
      FillSettles(p, clips, Detect(p, clips, s, |clips|));
      SettledRunsConverge(p, clips, Round(p, clips, s));
    }
  }

  lemma {:induction false} OutliersStay(p: Limits, clips: seq<Clip>, s: Work, k: nat, i: nat)
    requires s.Sized(|clips|) && i < |clips| && k <= |clips|
    ensures s.outlier[i] ==> Detect(p, clips, s, k).outlier[i]
  {
    if k > 0 {
      OutliersStay(p, clips, s, k - 1, i);
    }
  }

  lemma {:induction false} SomeOutlier(p: Limits, clips: seq<Clip>, s: Work, k: nat) returns (j: nat)
    requires s.Sized(|clips|) && k <= |clips| && Rejections(p, clips, s, k) > 0
    ensures j < |clips| && Detect(p, clips, s, k).outlier[j]
  {
    if Rejected(p, clips, Detect(p, clips, s, k - 1), k - 1) {
      j := k - 1;
    } else {
      j := SomeOutlier(p, clips, s, k - 1);
    }
  }

  lemma {:induction false} OutliersSurvive(p: Limits, clips: seq<Clip>, s: Work, i: nat)
    requires s.Sized(|clips|) && i < |clips| && s.outlier[i]
    ensures Converge(p, clips, s).outlier[i]
    decreases |s.Originals()|
  {
    OutliersStay(p, clips, s, |clips|, i);
    if !Quiet(p, clips, s) {
      RoundCountsDown(p, clips, s);
      OutliersSurvive(p, clips, Round(p, clips, s), i);
    }
  }

  /** The first detection sweep rejects something exactly when the result flags
      some clip as an outlier. */
  lemma FlaggedIffFirstSweepRejects(p: Limits, clips: seq<Clip>)
    ensures (exists i :: 0 <= i < |clips| && Final(p, clips).outlier[i]) <==> !Quiet(p, clips, Init(clips))
  {
    var s := Init(clips);
    if Quiet(p, clips, s) {
      QuietRound(p, clips, s);
    } else {
      var j := SomeOutlier(p, clips, s, |clips|);
      assert Round(p, clips, s).outlier[j];
      RoundCountsDown(p, clips, s);
      OutliersSurvive(p, clips, Round(p, clips, s), j);
      assert Final(p, clips).outlier[j];
    }
  }

  /** When the pass rejected at least one fix, its result is a fixed point of
      both sweeps: no hole can be filled and no surviving original fix meets
      the rejection test against its current anchors. */
  lemma {:induction false} ConvergedWhenSomethingRejected(p: Limits, clips: seq<Clip>)
    requires exists i :: 0 <= i < |clips| && Final(p, clips).outlier[i]
    ensures Quiet(p, clips, Final(p, clips)) && Fill(p, clips, Final(p, clips)) == Final(p, clips)
    ensures forall i :: 0 <= i < |clips| ==> !Rejected(p, clips, Final(p, clips), i)
  {
    var s := Init(clips);
    FlaggedIffFirstSweepRejects(p, clips);
    RoundCountsDown(p, clips, s);
    FillSettles(p, clips, Detect(p, clips, s, |clips|));
    SettledRunsConverge(p, clips, Round(p, clips, s));
    NoFillableHoleLeft(p, clips, s);
    QuietIffNoneRejected(p, clips, Final(p, clips));
  }

  // ----- what becomes of a hole: decided in the round that leaves it

  lemma {:induction false} DetectOnlyRemoves(p: Limits, clips: seq<Clip>, s: Work, k: nat, i: nat)
    requires s.Sized(|clips|) && k <= |clips| && i < |clips|
    ensures Detect(p, clips, s, k).fix[i] ==> s.fix[i]
  {
    if k > 0 { DetectOnlyRemoves(p, clips, s, k - 1, i); }
  }

  // With fewer anchors a hole that could not be filled still cannot be.
  lemma FewerAnchors(p: Limits, clips: seq<Clip>, s: Work, t: Work, k: nat)
    requires FilmOrder(clips) && s.Sized(|clips|) && t.Sized(|clips|) && k < |clips| && !s.fix[k]
    requires forall i :: 0 <= i < |clips| && t.fix[i] ==> s.fix[i]
    ensures Fillable(p, clips, t, k) ==> Fillable(p, clips, s, k)
  {
    if Fillable(p, clips, t, k) {
      var a, b := Prev(s.fix, k), Next(s.fix, k);
      assert Prev(t.fix, k) <= a && 0 <= b <= Next(t.fix, k);
      assert clips[Prev(t.fix, k)].filmed <= clips[a].filmed && clips[b].filmed <= clips[Next(t.fix, k)].filmed;
    }
  }

  // A hole that a round leaves open cannot be filled in the next round either.
  lemma StaysOpen(p: Limits, clips: seq<Clip>, d: Work, k: nat)
    requires FilmOrder(clips) && d.Sized(|clips|) && k < |clips| && !d.fix[k] && !Fillable(p, clips, d, k)
    ensures var next := Detect(p, clips, Fill(p, clips, d), |clips|); !next.fix[k] && !Fillable(p, clips, next, k)
  {
    var f := Fill(p, clips, d);
    FilledPoint(p, clips, d, k);
    LeftoverHole(p, clips, d, k);
    var next := Detect(p, clips, f, |clips|);
    forall i: nat | i < |clips| && next.fix[i] ensures f.fix[i] { DetectOnlyRemoves(p, clips, f, |clips|, i); }
    FewerAnchors(p, clips, f, next, k);
  }

  lemma {:induction false} FilledForGood(p: Limits, clips: seq<Clip>, s: Work, k: nat)
    requires s.Sized(|clips|) && k < |clips| && Round(p, clips, s).interp[k]
    ensures Converge(p, clips, s).interp[k]
    decreases |s.Originals()|
  {
    if !Quiet(p, clips, s) {
      var r := Round(p, clips, s);
      RoundCountsDown(p, clips, s);
      DetectCountsDown(p, clips, r, |clips|);
      FilledForGood(p, clips, r, k);
    }
  }

  /** From any state a run can reach, a clip that a detection sweep leaves without
      a fix ends synthesized if and only if the sweep also leaves it anchors on
      both sides within the gap. */
  lemma {:induction false} HoleFate(p: Limits, clips: seq<Clip>, s: Work, k: nat, lo: Point, hi: Point)
    requires FilmOrder(clips) && s.Sized(|clips|) && k < |clips| && Invariant(clips, s, lo, hi)
    requires !Detect(p, clips, s, |clips|).fix[k]
    ensures Converge(p, clips, s).interp[k] <==> Fillable(p, clips, Detect(p, clips, s, |clips|), k)
    decreases |s.Originals()|
  {
    var d := Detect(p, clips, s, |clips|);
    DetectKeeps(p, clips, s, |clips|, lo, hi);
    assert Sound(clips, d, k);
    if Fillable(p, clips, d, k) {
      FilledForGood(p, clips, s, k);
    } else if !Quiet(p, clips, s) {
      RoundCountsDown(p, clips, s);
      FillKeeps(p, clips, d, lo, hi);
      StaysOpen(p, clips, d, k);
      HoleFate(p, clips, Round(p, clips, s), k, lo, hi);
    }
  }

  /** A clip without a fix is synthesized if and only if the first detection
      sweep leaves it anchors on both sides within the gap; otherwise it is left
      missing. */
  lemma MissingFate(p: Limits, clips: seq<Clip>, k: nat)
    requires FilmOrder(clips) && k < |clips| && !clips[k].HasFix()
    ensures Decide(clips, Final(p, clips), k).action ==
      if Fillable(p, clips, Detect(p, clips, Init(clips), |clips|), k) then Interpolate else LeaveMissing
  {
    var o := Point(0.0, 0.0);
    InitInvariant(clips, o, o);
    DetectOnlyRemoves(p, clips, Init(clips), |clips|, k);
    HoleFate(p, clips, Init(clips), k, o, o);
    FinalInvariant(p, clips, o, o);
    assert Sound(clips, Final(p, clips), k);
  }

  // The state r rounds on from s.
  function RoundsOn(p: Limits, clips: seq<Clip>, s: Work, r: nat): (t: Work)
    requires s.Sized(|clips|)
    ensures t.Sized(|clips|)
    decreases r
  {
    if r == 0 then s else RoundsOn(p, clips, Round(p, clips, s), r - 1)
  }

  // The run from s goes on for r rounds, and the sweep after them rejects clip k.
  ghost predicate RejectedIn(p: Limits, clips: seq<Clip>, s: Work, r: nat, k: nat)
    requires s.Sized(|clips|) && k < |clips|
    decreases r
  {
    if r == 0 then Rejected(p, clips, Detect(p, clips, s, k), k)
    else !Quiet(p, clips, s) && RejectedIn(p, clips, Round(p, clips, s), r - 1, k)
  }

  // The sweep r rounds on from s leaves clip k anchors on both sides within the gap.
  predicate FillableIn(p: Limits, clips: seq<Clip>, s: Work, r: nat, k: nat)
    requires s.Sized(|clips|) && k < |clips|
  {
    Fillable(p, clips, Detect(p, clips, RoundsOn(p, clips, s, r), |clips|), k)
  }

  lemma {:induction false} RoundKeeps(p: Limits, clips: seq<Clip>, s: Work, lo: Point, hi: Point)
    requires s.Sized(|clips|) && Invariant(clips, s, lo, hi)
    ensures Invariant(clips, Round(p, clips, s), lo, hi)
  {
    DetectKeeps(p, clips, s, |clips|, lo, hi);
    FillKeeps(p, clips, Detect(p, clips, s, |clips|), lo, hi);
  }

  lemma RoundGoesOn(p: Limits, clips: seq<Clip>, s: Work)
    requires s.Sized(|clips|) && !Quiet(p, clips, s)
    ensures Converge(p, clips, Round(p, clips, s)) == Converge(p, clips, s)
  {
    RoundCountsDown(p, clips, s);
  }

  // Once rejected, a clip stays without a fix to the end of the sweep.
  lemma {:induction false} RejectedStays(p: Limits, clips: seq<Clip>, s: Work, k: nat, n: nat)
    requires s.Sized(|clips|) && k < n <= |clips| && Rejected(p, clips, Detect(p, clips, s, k), k)
    ensures !Detect(p, clips, s, n).fix[k] && Detect(p, clips, s, n).outlier[k]
    decreases n
  {
    if k < n - 1 { RejectedStays(p, clips, s, k, n - 1); }
  }

  lemma SweepOutliersSurvive(p: Limits, clips: seq<Clip>, s: Work, k: nat)
    requires s.Sized(|clips|) && k < |clips| && Detect(p, clips, s, |clips|).outlier[k]
    ensures Converge(p, clips, s).outlier[k]
  {
    RoundCountsDown(p, clips, s);
    assert Round(p, clips, s).outlier[k];
    if !Quiet(p, clips, s) { OutliersSurvive(p, clips, Round(p, clips, s), k); }
  }

  lemma {:induction false} RejectedFateFrom(p: Limits, clips: seq<Clip>, s: Work, r: nat, k: nat, lo: Point, hi: Point)
    requires FilmOrder(clips) && s.Sized(|clips|) && k < |clips| && Invariant(clips, s, lo, hi)
    requires RejectedIn(p, clips, s, r, k)
    ensures Converge(p, clips, s).outlier[k]
    ensures Converge(p, clips, s).interp[k] <==> FillableIn(p, clips, s, r, k)
    decreases r
  {
    if r == 0 {
      RejectedStays(p, clips, s, k, |clips|);
      HoleFate(p, clips, s, k, lo, hi);
      SweepOutliersSurvive(p, clips, s, k);
    } else {
      RoundGoesOn(p, clips, s);
      RoundKeeps(p, clips, s, lo, hi);
      RejectedFateFrom(p, clips, Round(p, clips, s), r - 1, k, lo, hi);
    }
  }

  /** A rejected fix is replaced if and only if the sweep that rejects it leaves
      it anchors on both sides within the gap; otherwise its stored row is kept
      as it was, flagged. */
  lemma RejectedFate(p: Limits, clips: seq<Clip>, r: nat, k: nat)
    requires FilmOrder(clips) && k < |clips| && RejectedIn(p, clips, Init(clips), r, k)
    ensures var d := Decide(clips, Final(p, clips), k);
      && d.wasOutlier
      && (if FillableIn(p, clips, Init(clips), r, k) then d.action == Interpolate
          else d.action == Keep && d.Applied() == clips[k])
  {
    var o := Point(0.0, 0.0);
    InitInvariant(clips, o, o);
    RejectedFateFrom(p, clips, Init(clips), r, k, o, o);
  }

  lemma OneFlag(p: Limits, clips: seq<Clip>, s: Work, i: nat, k: nat)
    requires s.Sized(|clips|) && i < |clips| && k < |clips|
    ensures DetectAt(p, clips, s, i).outlier[k] <==> s.outlier[k] || (i == k && Rejected(p, clips, s, i))
  {
  }

  lemma {:induction false} FlaggedBySweep(p: Limits, clips: seq<Clip>, s: Work, k: nat, n: nat)
    requires s.Sized(|clips|) && k < |clips| && n <= |clips| && !s.outlier[k] && Detect(p, clips, s, n).outlier[k]
    ensures k < n && Rejected(p, clips, Detect(p, clips, s, k), k)
  {
    if n > 0 {
      var d := Detect(p, clips, s, n - 1);
      OneFlag(p, clips, d, n - 1, k);
      if d.outlier[k] { FlaggedBySweep(p, clips, s, k, n - 1); }
    }
  }

  lemma FlaggedLater(p: Limits, clips: seq<Clip>, s: Work, k: nat)
    requires s.Sized(|clips|) && k < |clips| && Converge(p, clips, s).outlier[k] && !Detect(p, clips, s, |clips|).outlier[k]
    ensures var r := Round(p, clips, s);
      !Quiet(p, clips, s) && !r.outlier[k] && Converge(p, clips, r).outlier[k] && |r.Originals()| < |s.Originals()|
  {
    RoundCountsDown(p, clips, s);
  }

  /** Every clip that ends flagged was rejected in one of the rounds. */
  lemma {:induction false} FlaggedInSomeRound(p: Limits, clips: seq<Clip>, s: Work, k: nat) returns (r: nat)
    requires s.Sized(|clips|) && k < |clips| && !s.outlier[k] && Converge(p, clips, s).outlier[k]
    ensures RejectedIn(p, clips, s, r, k)
    decreases |s.Originals()|
  {
    r := 0;
    if Detect(p, clips, s, |clips|).outlier[k] {
      FlaggedBySweep(p, clips, s, k, |clips|);
    } else {
      FlaggedLater(p, clips, s, k);
      r := FlaggedInSomeRound(p, clips, Round(p, clips, s), k);
      r := r + 1;
    }
  }

  /** So a run keeps a rejected coordinate exactly when some round rejects the
      clip and leaves it without anchors within the gap. */
  lemma SuspectKeptIff(p: Limits, clips: seq<Clip>, k: nat)
    requires FilmOrder(clips) && k < |clips|
    ensures var d := Decide(clips, Final(p, clips), k);
      d.wasOutlier && d.action == Keep <==>
      exists r: nat :: RejectedIn(p, clips, Init(clips), r, k) && !FillableIn(p, clips, Init(clips), r, k)
  {
    var d := Decide(clips, Final(p, clips), k);
    if d.wasOutlier && d.action == Keep {
      var r := FlaggedInSomeRound(p, clips, Init(clips), k);
      RejectedFate(p, clips, r, k);
    }
    if r: nat :| RejectedIn(p, clips, Init(clips), r, k) && !FillableIn(p, clips, Init(clips), r, k) {
      RejectedFate(p, clips, r, k);
    }
  }

  // ----- what a synthesized clip is written with

  // Clip k between its nearest anchors a and b in s: as far along the line from
  // one to the other as it is along their film time, with the state of a.
  ghost predicate OnTheLine(p: Limits, clips: seq<Clip>, s: Work, a: nat, k: nat, b: nat, x: Point, state: string)
    requires s.Sized(|clips|)
  {
    && a < k < b < |clips| && s.fix[a] && s.fix[b] && (forall j :: a < j < b ==> !s.fix[j])
    && clips[b].filmed - clips[a].filmed <= p.maxInterpGap
    && Linear(clips[a].filmed, clips[b].filmed, clips[k].filmed, s.At(a), s.At(b), x)
    && state == s.state[a]
  }

  // The run from s goes on for at least r rounds after its first.
  ghost predicate GoesOn(p: Limits, clips: seq<Clip>, s: Work, r: nat)
    requires s.Sized(|clips|)
    decreases r
  {
    r == 0 || (!Quiet(p, clips, s) && GoesOn(p, clips, Round(p, clips, s), r - 1))
  }

  // The sweep r rounds on leaves clip k on the line between a and b.
  ghost predicate SweepPlaces(p: Limits, clips: seq<Clip>, s: Work, r: nat, a: nat, k: nat, b: nat, x: Point, state: string)
    requires s.Sized(|clips|)
  {
    GoesOn(p, clips, s, r) && OnTheLine(p, clips, Detect(p, clips, RoundsOn(p, clips, s, r), |clips|), a, k, b, x, state)
  }

  lemma {:induction false} SynthesizedKept(p: Limits, clips: seq<Clip>, s: Work, k: nat, n: nat)
    requires s.Sized(|clips|) && k < |clips| && n <= |clips| && s.fix[k] && s.interp[k]
    ensures Detect(p, clips, s, n).fix[k]
  {
    if n > 0 {
      SynthesizedKept(p, clips, s, k, n - 1);
      DetectCountsDown(p, clips, s, n - 1);
    }
  }

  /** Once a clip is synthesized, no later round moves it. */
  lemma {:induction false} SynthesizedForGood(p: Limits, clips: seq<Clip>, s: Work, k: nat)
    requires s.Sized(|clips|) && k < |clips| && s.fix[k] && s.interp[k]
    ensures var f := Converge(p, clips, s);
      f.interp[k] && f.lat[k] == s.lat[k] && f.lng[k] == s.lng[k] && f.state[k] == s.state[k]
    decreases |s.Originals()|
  {
    SynthesizedKept(p, clips, s, k, |clips|);
    DetectCountsDown(p, clips, s, |clips|);
    if !Quiet(p, clips, s) {
      RoundCountsDown(p, clips, s);
      SynthesizedForGood(p, clips, Round(p, clips, s), k);
    }
  }

  lemma FilledOnTheLine(p: Limits, clips: seq<Clip>, d: Work, k: nat)
    requires d.Sized(|clips|) && k < |clips| && Fillable(p, clips, d, k)
    ensures var f := Fill(p, clips, d);
      && f.fix[k] && f.interp[k]
      && OnTheLine(p, clips, d, Prev(d.fix, k), k, Next(d.fix, k), f.At(k), f.state[k])
  {
    var a, b := Prev(d.fix, k), Next(d.fix, k);
    InterpIsLinear(clips[a].filmed, clips[b].filmed, clips[k].filmed, d.At(a), d.At(b));
  }

  lemma FillSkips(p: Limits, clips: seq<Clip>, d: Work, k: nat)
    requires d.Sized(|clips|) && k < |clips| && !Fillable(p, clips, d, k)
    ensures Fill(p, clips, d).interp[k] == d.interp[k]
  {
  }

  lemma SynthesizedNow(p: Limits, clips: seq<Clip>, s: Work, k: nat)
    requires s.Sized(|clips|) && k < |clips| && Fillable(p, clips, Detect(p, clips, s, |clips|), k)
    ensures var d, f := Detect(p, clips, s, |clips|), Converge(p, clips, s);
      SweepPlaces(p, clips, s, 0, Prev(d.fix, k), k, Next(d.fix, k), f.At(k), f.state[k])
  {
    FilledOnTheLine(p, clips, Detect(p, clips, s, |clips|), k);
    if !Quiet(p, clips, s) {
      RoundCountsDown(p, clips, s);
      SynthesizedForGood(p, clips, Round(p, clips, s), k);
    }
  }

  lemma SynthesizedLater(p: Limits, clips: seq<Clip>, s: Work, k: nat)
    requires s.Sized(|clips|) && k < |clips| && !s.interp[k] && Converge(p, clips, s).interp[k]
    requires !Fillable(p, clips, Detect(p, clips, s, |clips|), k)
    ensures var next := Round(p, clips, s);
      && !Quiet(p, clips, s) && !next.interp[k] && Converge(p, clips, next) == Converge(p, clips, s)
      && |next.Originals()| < |s.Originals()|
  {
    RoundCountsDown(p, clips, s);
    DetectCountsDown(p, clips, s, |clips|);
    FillSkips(p, clips, Detect(p, clips, s, |clips|), k);
  }

  lemma {:induction false} SynthesizedFrom(p: Limits, clips: seq<Clip>, s: Work, k: nat) returns (r: nat, a: nat, b: nat)
    requires s.Sized(|clips|) && k < |clips| && !s.interp[k] && Converge(p, clips, s).interp[k]
    ensures var f := Converge(p, clips, s); SweepPlaces(p, clips, s, r, a, k, b, f.At(k), f.state[k])
    decreases |s.Originals()|
  {
    var d := Detect(p, clips, s, |clips|);
    if Fillable(p, clips, d, k) {
      r, a, b := 0, Prev(d.fix, k), Next(d.fix, k);
      SynthesizedNow(p, clips, s, k);
    } else {
      SynthesizedLater(p, clips, s, k);
      r, a, b := SynthesizedFrom(p, clips, Round(p, clips, s), k);
      r := r + 1;
    }
  }

  // ----- the speeds a run reports

  // The sweep from s finds clip k in session between a and b, and measures these
  // speeds into it and out of it.
  ghost predicate MeasuredBetween(p: Limits, clips: seq<Clip>, d: Work, a: nat, k: nat, b: nat, inbound: Speed, outbound: Speed)
    requires d.Sized(|clips|)
  {
    && InSession(p, clips, d, a, k, b)
    && inbound == SpeedMph(p, clips[a].filmed, clips[k].filmed, d.At(a), d.At(k))
    && outbound == SpeedMph(p, clips[k].filmed, clips[b].filmed, d.At(k), d.At(b))
  }

  ghost predicate Measured(p: Limits, clips: seq<Clip>, s: Work, k: nat, inbound: Speed, outbound: Speed)
    requires s.Sized(|clips|) && k < |clips|
  {
    exists a, b :: MeasuredBetween(p, clips, Detect(p, clips, s, k), a, k, b, inbound, outbound)
  }

  ghost predicate JudgedFrom(p: Limits, clips: seq<Clip>, s: Work, k: nat)
    requires s.Sized(|clips|) && k < |clips|
  {
    exists a, b :: InSession(p, clips, Detect(p, clips, s, k), a, k, b)
  }

  // No sweep of the run from s judges clip k.
  ghost predicate NeverJudged(p: Limits, clips: seq<Clip>, s: Work, k: nat)
    requires s.Sized(|clips|) && k < |clips|
    decreases |s.Originals()|
  {
    RoundCountsDown(p, clips, s);
    !JudgedFrom(p, clips, s, k) && (!Quiet(p, clips, s) ==> NeverJudged(p, clips, Round(p, clips, s), k))
  }

  lemma {:induction false} SweepReports(p: Limits, clips: seq<Clip>, s: Work, k: nat, n: nat)
    requires s.Sized(|clips|) && k < n <= |clips|
    ensures var r := Detect(p, clips, s, n);
      if JudgedFrom(p, clips, s, k) then Measured(p, clips, s, k, r.inbound[k], r.outbound[k])
      else r.inbound[k] == s.inbound[k] && r.outbound[k] == s.outbound[k]
  {
    if k < n - 1 {
      SweepReports(p, clips, s, k, n - 1);
    } else {
      var d, r := Detect(p, clips, s, k), Detect(p, clips, s, n);
      NotReportedYet(p, clips, s, k, k);
      JudgedMeans(p, clips, d, k);
      if Judged(p, clips, d, k) {
        assert MeasuredBetween(p, clips, d, Prev(d.fix, k), k, Next(d.fix, k), r.inbound[k], r.outbound[k]);
      }
    }
  }

  lemma RoundReports(p: Limits, clips: seq<Clip>, s: Work, k: nat)
    requires s.Sized(|clips|) && k < |clips|
    ensures var r := Round(p, clips, s);
      if JudgedFrom(p, clips, s, k) then Measured(p, clips, s, k, r.inbound[k], r.outbound[k])
      else r.inbound[k] == s.inbound[k] && r.outbound[k] == s.outbound[k]
  {
    SweepReports(p, clips, s, k, |clips|);
  }

  lemma {:induction false} NotReportedYet(p: Limits, clips: seq<Clip>, s: Work, k: nat, n: nat)
    requires s.Sized(|clips|) && n <= k < |clips|
    ensures Detect(p, clips, s, n).inbound[k] == s.inbound[k] && Detect(p, clips, s, n).outbound[k] == s.outbound[k]
  {
    if n > 0 { NotReportedYet(p, clips, s, k, n - 1); }
  }

  // r is the last round of the run from s that judges clip k, with these speeds.
  ghost predicate LastMeasured(p: Limits, clips: seq<Clip>, s: Work, r: nat, k: nat, inbound: Speed, outbound: Speed)
    requires s.Sized(|clips|) && k < |clips|
    decreases r
  {
    if r == 0 then
      && Measured(p, clips, s, k, inbound, outbound)
      && (Quiet(p, clips, s) || NeverJudged(p, clips, Round(p, clips, s), k))
    else !Quiet(p, clips, s) && LastMeasured(p, clips, Round(p, clips, s), r - 1, k, inbound, outbound)
  }

  /** The speeds a run reports for a clip are those of the last sweep that judged
      it; a clip that no sweep judged keeps what it started with. */
  lemma {:induction false} ReportedSpeeds(p: Limits, clips: seq<Clip>, s: Work, k: nat) returns (r: nat)
    requires s.Sized(|clips|) && k < |clips|
    ensures var f := Converge(p, clips, s);
      if NeverJudged(p, clips, s, k) then f.inbound[k] == s.inbound[k] && f.outbound[k] == s.outbound[k]
      else LastMeasured(p, clips, s, r, k, f.inbound[k], f.outbound[k])
    decreases |s.Originals()|
  {
    r := 0;
    RoundReports(p, clips, s, k);
    if !Quiet(p, clips, s) {
      var next := Round(p, clips, s);
      RoundCountsDown(p, clips, s);
      var q := ReportedSpeeds(p, clips, next, k);
      if !NeverJudged(p, clips, next, k) { r := q + 1; }
    }
  }

  // What an anchor is in the sweep after r rounds: the stored row of a clip
  // with its own fix, or what the run writes over the clip.
  ghost predicate AnchorIs(p: Limits, clips: seq<Clip>, out: seq<Decision>, r: nat, a: nat)
    requires |out| == |clips| && a < |clips|
  {
    var d := Detect(p, clips, RoundsOn(p, clips, Init(clips), r), |clips|);
    if d.interp[a]
    then out[a].action == Interpolate && d.At(a) == Point(out[a].newLat, out[a].newLng) && d.state[a] == out[a].newState
    else clips[a].HasFix() && d.At(a) == Point(clips[a].lat, clips[a].lng) && d.state[a] == clips[a].state
  }

  // Some sweep of the run placed clip k on the line between its anchors of the time.
  ghost predicate Written(p: Limits, clips: seq<Clip>, out: seq<Decision>, k: nat)
    requires |out| == |clips| && k < |clips|
  {
    exists r, a, b ::
      && SweepPlaces(p, clips, Init(clips), r, a, k, b, Point(out[k].newLat, out[k].newLng), out[k].newState)
      && AnchorIs(p, clips, out, r, a) && AnchorIs(p, clips, out, r, b)
  }

  lemma {:induction false} RoundsOnKeep(p: Limits, clips: seq<Clip>, s: Work, r: nat, lo: Point, hi: Point)
    requires s.Sized(|clips|) && Invariant(clips, s, lo, hi) && GoesOn(p, clips, s, r)
    ensures Invariant(clips, RoundsOn(p, clips, s, r), lo, hi)
    ensures Converge(p, clips, RoundsOn(p, clips, s, r)) == Converge(p, clips, s)
    decreases r
  {
    if r > 0 {
      RoundKeeps(p, clips, s, lo, hi);
      RoundGoesOn(p, clips, s);
      RoundsOnKeep(p, clips, Round(p, clips, s), r - 1, lo, hi);
    }
  }

  // The decisions of a run, in the order of the clips.
  ghost predicate AreDecisions(p: Limits, clips: seq<Clip>, out: seq<Decision>) {
    |out| == |clips| && forall i :: 0 <= i < |clips| ==> out[i] == Decide(clips, Final(p, clips), i)
  }

  lemma AnchorOfRun(p: Limits, clips: seq<Clip>, out: seq<Decision>, r: nat, a: nat)
    requires AreDecisions(p, clips, out) && GoesOn(p, clips, Init(clips), r) && a < |clips|
    requires Detect(p, clips, RoundsOn(p, clips, Init(clips), r), |clips|).fix[a]
    ensures AnchorIs(p, clips, out, r, a)
  {
    var o := Point(0.0, 0.0);
    var s := RoundsOn(p, clips, Init(clips), r);
    InitInvariant(clips, o, o);
    RoundsOnKeep(p, clips, Init(clips), r, o, o);
    DetectKeeps(p, clips, s, |clips|, o, o);
    DetectCountsDown(p, clips, s, |clips|);
    assert Sound(clips, Detect(p, clips, s, |clips|), a) && Sound(clips, s, a);
    if s.interp[a] { SynthesizedForGood(p, clips, s, a); }
  }

  /** Every coordinate a run writes: some sweep left the clip between two anchors
      within the gap, and the clip is as far along the line from one to the
      other as it is along their film time, with the state of the earlier one.
      The anchors are stored fixes, or other clips as this run writes them. */
  lemma WrittenOnTheLine(p: Limits, clips: seq<Clip>, out: seq<Decision>, k: nat)
    requires AreDecisions(p, clips, out) && k < |clips| && out[k].action == Interpolate
    ensures Written(p, clips, out, k)
  {
    var r, a, b := SynthesizedFrom(p, clips, Init(clips), k);
    AnchorOfRun(p, clips, out, r, a);
    AnchorOfRun(p, clips, out, r, b);
    assert SweepPlaces(p, clips, Init(clips), r, a, k, b, Point(out[k].newLat, out[k].newLng), out[k].newState);
  }

  /** The speeds of a decision are those of the last sweep that judged its clip,
      or not measured when none did. */
  lemma {:induction false} DecisionSpeeds(p: Limits, clips: seq<Clip>, out: seq<Decision>, k: nat) returns (r: nat)
    requires AreDecisions(p, clips, out) && k < |clips|
    ensures if NeverJudged(p, clips, Init(clips), k) then out[k].inbound == NotMeasured && out[k].outbound == NotMeasured
            else LastMeasured(p, clips, Init(clips), r, k, out[k].inbound, out[k].outbound)
  {
    r := ReportedSpeeds(p, clips, Init(clips), k);
  }

  // a and b are the nearest stored fixes around clip k.
  ghost predicate FixesAround(clips: seq<Clip>, a: nat, k: nat, b: nat) {
    a < k < b < |clips| && clips[a].HasFix() && clips[b].HasFix() && forall j :: a < j < b ==> !clips[j].HasFix()
  }

  /** In a run that rejects nothing, in terms of the rows alone: a written clip has
      no fix, and goes on the line, in film time, between the nearest stored
      fixes around it, which are within the gap; the row gets that point, the
      state of the earlier fix and the mark of an interpolated row. */
  lemma WrittenBetweenFixes(p: Limits, clips: seq<Clip>, out: seq<Decision>, k: nat) returns (a: nat, b: nat)
    requires AreDecisions(p, clips, out) && (forall i :: 0 <= i < |clips| ==> !out[i].wasOutlier)
    requires k < |clips| && out[k].action == Interpolate
    ensures !clips[k].HasFix() && FixesAround(clips, a, k, b) && clips[b].filmed - clips[a].filmed <= p.maxInterpGap
    ensures var row := out[k].Applied();
      && Linear(clips[a].filmed, clips[b].filmed, clips[k].filmed, Point(clips[a].lat, clips[a].lng),
                Point(clips[b].lat, clips[b].lng), Point(row.lat, row.lng))
      && row.state == clips[a].state && row.source == "interpolated"
      && row == clips[k].(lat := row.lat, lng := row.lng, state := row.state, source := row.source)
  {
    var r;
    r, a, b := SynthesizedFrom(p, clips, Init(clips), k);
    forall i | 0 <= i < |clips| ensures !Final(p, clips).outlier[i] { assert !out[i].wasOutlier; }
    FlaggedIffFirstSweepRejects(p, clips);
    assert r == 0;
    QuietUpTo(p, clips, Init(clips), |clips|);
    var d := Detect(p, clips, Init(clips), |clips|);
    forall j | a <= j <= b ensures d.At(j) == Point(clips[j].lat, clips[j].lng) && d.fix[j] == clips[j].HasFix() {}
  }

  // ----- when nothing is rejected: filled holes are never judged against

  function Placed(clips: seq<Clip>, k: nat): Point
    requires k < |clips|
  {
    PlacedIn(clips, Init(clips), k)
  }

  // Clip i snaps back against its two immediate neighbours, as placed.
  predicate SpikesOnceFilled(p: Limits, clips: seq<Clip>, i: nat)
    requires i < |clips|
  {
    && Judged(p, clips, Init(clips), i) && 0 < i < |clips| - 1
    && Spikes(p, clips[i - 1].filmed, clips[i].filmed, Placed(clips, i - 1), Placed(clips, i), Placed(clips, i + 1))
  }

  lemma AnchorsLeftOf(b: seq<bool>, i: nat, j: nat)
    requires i < |b| && b[i] && Prev(b, i) < j < i
    ensures Prev(b, j) == Prev(b, i) && Next(b, j) == i
  {
  }

  lemma AnchorsRightOf(b: seq<bool>, i: nat, j: nat)
    requires i < |b| && b[i] && i < j < (if Next(b, i) == -1 then |b| else Next(b, i))
    ensures Prev(b, j) == i && Next(b, j) == Next(b, i)
  {
  }

  // The fix flags on either side of clip i after filling.
  lemma {:induction false} LeftFlags(p: Limits, clips: seq<Clip>, s: Work, i: nat)
    requires s.Sized(|clips|) && i < |clips| && s.fix[i]
    ensures var a := Prev(s.fix, i);
      forall j :: a < j < i ==>
        (Fill(p, clips, s).fix[j] <==> a >= 0 && clips[i].filmed - clips[a].filmed <= p.maxInterpGap)
  {
    var a := Prev(s.fix, i);
    forall j | a < j < i
      ensures Fill(p, clips, s).fix[j] <==> a >= 0 && clips[i].filmed - clips[a].filmed <= p.maxInterpGap
    {
      AnchorsLeftOf(s.fix, i, j);
      FilledPoint(p, clips, s, j);
    }
  }

  lemma {:induction false} RightFlags(p: Limits, clips: seq<Clip>, s: Work, i: nat)
    requires s.Sized(|clips|) && i < |clips| && s.fix[i]
    ensures var b := Next(s.fix, i);
      forall j :: i < j < (if b == -1 then |clips| else b) ==>
        (Fill(p, clips, s).fix[j] <==> b >= 0 && clips[b].filmed - clips[i].filmed <= p.maxInterpGap)
  {
    var b := Next(s.fix, i);
    forall j | i < j < (if b == -1 then |clips| else b)
      ensures Fill(p, clips, s).fix[j] <==> b >= 0 && clips[b].filmed - clips[i].filmed <= p.maxInterpGap
    {
      AnchorsRightOf(s.fix, i, j);
      FilledPoint(p, clips, s, j);
    }
  }

  lemma {:induction false} LeftAnchor(p: Limits, clips: seq<Clip>, s: Work, i: nat)
    requires s.Sized(|clips|) && i < |clips| && s.fix[i]
    ensures var a := Prev(s.fix, i);
      Prev(Fill(p, clips, s).fix, i) ==
      if a >= 0 && clips[i].filmed - clips[a].filmed <= p.maxInterpGap then i - 1 else a
  {
    var a := Prev(s.fix, i);
    var fix := Fill(p, clips, s).fix;
    LeftFlags(p, clips, s, i);
    if a >= 0 {
      FilledPoint(p, clips, s, a);
      assert fix[a];
    }
    PrevIs(fix, i, if a >= 0 && clips[i].filmed - clips[a].filmed <= p.maxInterpGap then i - 1 else a);
  }

  lemma {:induction false} RightAnchor(p: Limits, clips: seq<Clip>, s: Work, i: nat)
    requires s.Sized(|clips|) && i < |clips| && s.fix[i]
    ensures var b := Next(s.fix, i);
      Next(Fill(p, clips, s).fix, i) ==
      if b >= 0 && clips[b].filmed - clips[i].filmed <= p.maxInterpGap then i + 1 else b
  {
    var b := Next(s.fix, i);
    var fix := Fill(p, clips, s).fix;
    RightFlags(p, clips, s, i);
    if b >= 0 {
      FilledPoint(p, clips, s, b);
      assert fix[b];
    }
    NextIs(fix, i, if b >= 0 && clips[b].filmed - clips[i].filmed <= p.maxInterpGap then i + 1 else b);
  }

  // Filling leaves clip i judged exactly when it was, and then against its two
  // immediate neighbours.
  lemma {:induction false} NeighboursAfterFill(p: Limits, clips: seq<Clip>, s: Work, i: nat)
    requires FilmOrder(clips) && s.Sized(|clips|) && i < |clips|
    ensures var f := Fill(p, clips, s);
      && (Judged(p, clips, f, i) <==> Judged(p, clips, s, i))
      && (Judged(p, clips, s, i) ==>
            && 0 < i < |clips| - 1 && Prev(f.fix, i) == i - 1 && Next(f.fix, i) == i + 1
            && f.At(i - 1) == PlacedIn(clips, s, i - 1) && f.At(i) == PlacedIn(clips, s, i)
            && f.At(i + 1) == PlacedIn(clips, s, i + 1))
  {
    if s.fix[i] {
      LeftAnchor(p, clips, s, i);
      RightAnchor(p, clips, s, i);
      forall k: nat | k < |clips|
        ensures Fill(p, clips, s).fix[k] ==> Fill(p, clips, s).At(k) == PlacedIn(clips, s, k)
      {
        FilledPoint(p, clips, s, k);
      }
    }
  }

  lemma {:induction false} RejectedAfterFill(p: Limits, clips: seq<Clip>, i: nat)
    requires FilmOrder(clips) && i < |clips|
    ensures Rejected(p, clips, Fill(p, clips, Init(clips)), i) <==> SpikesOnceFilled(p, clips, i)
  {
    NeighboursAfterFill(p, clips, Init(clips), i);
  }

  /** When the first sweep rejects nothing the pass stops right after filling,
      without judging any fix against a filled hole. Its result is then a fixed
      point of detection exactly when no judged original fix snaps back against
      its two immediate neighbours, each an original fix or the point linearly
      between the two original fixes around it. */
  lemma ConvergedIff(p: Limits, clips: seq<Clip>)
    requires FilmOrder(clips)
    ensures Quiet(p, clips, Final(p, clips)) <==>
      (!Quiet(p, clips, Init(clips)) || forall i :: 0 <= i < |clips| ==> !SpikesOnceFilled(p, clips, i))
  {
    var s := Init(clips);
    if Quiet(p, clips, s) {
      QuietRound(p, clips, s);
      QuietRespects(p, clips, Final(p, clips), Fill(p, clips, s));
      QuietIffNoneRejected(p, clips, Fill(p, clips, s));
      forall i | 0 <= i < |clips|
        ensures Rejected(p, clips, Fill(p, clips, s), i) <==> SpikesOnceFilled(p, clips, i)
      {
        RejectedAfterFill(p, clips, i);
      }
    } else {
      FlaggedIffFirstSweepRejects(p, clips);
      ConvergedWhenSomethingRejected(p, clips);
    }
  }

  // Four clips a minute or two apart on one meridian, the second without a fix.
  const MINUTE := 60_000_000_000

  function OnMeridian(minute: int, lat: real, lng: real): Clip {
    Clip(0, "", lat, lng, "", "ocr", minute * MINUTE, "", 1)
  }

  const UNJUDGED := [OnMeridian(0, 1.0, 1.0), OnMeridian(2, 0.0, 0.0), OnMeridian(3, 31.0, 1.0), OnMeridian(4, 26.0, 1.0)]

  const FLAT := Limits(100.0, 2.0, 2.0, 30 * MINUTE,
                       (a: Point, b: Point) => if a.lat <= b.lat then b.lat - a.lat else a.lat - b.lat)

  /** A run whose result is not a fixed point: nothing is rejected, the hole is
      filled, and the third clip now meets the rejection test. */
  lemma UnjudgedAfterFill()
    ensures Quiet(FLAT, UNJUDGED, Init(UNJUDGED)) && !Quiet(FLAT, UNJUDGED, Final(FLAT, UNJUDGED))
  {
    var s := Init(UNJUDGED);
    PrevIs(s.fix, 2, 0);
    NextIs(s.fix, 2, 3);
    PrevIs(s.fix, 1, 0);
    NextIs(s.fix, 1, 2);
    PrevIs(s.fix, 0, -1);
    NextIs(s.fix, 3, -1);
    forall i | 0 <= i < 4 ensures !Rejected(FLAT, UNJUDGED, s, i) {
      if i == 2 { assert FLAT.miles(s.At(0), s.At(2)) == 30.0; }
    }
    QuietIffNoneRejected(FLAT, UNJUDGED, s);
    assert Placed(UNJUDGED, 1).lat == 21.0;
    assert SpikesOnceFilled(FLAT, UNJUDGED, 2);
    ConvergedIff(FLAT, UNJUDGED);
  }

  const KEPT := [OnMeridian(0, 1.0, 1.0), OnMeridian(20, 61.0, 1.0), OnMeridian(40, 1.0, 1.0)]

  /** A run that keeps a rejected coordinate: the second clip spikes, and its
      anchors are forty minutes apart where thirty are allowed. */
  lemma SuspectKept()
    ensures var d := Decide(KEPT, Final(FLAT, KEPT), 1);
      d.wasOutlier && d.action == Keep && d.Applied() == KEPT[1]
  {
    var s := Init(KEPT);
    PrevIs(s.fix, 0, -1);
    assert Detect(FLAT, KEPT, s, 1) == s;
    PrevIs(s.fix, 1, 0);
    NextIs(s.fix, 1, 2);
    assert FLAT.miles(s.At(0), s.At(1)) == 60.0;
    assert Rejected(FLAT, KEPT, s, 1);
    assert RejectedIn(FLAT, KEPT, s, 0, 1);
    var d := Detect(FLAT, KEPT, s, 2);
    assert d.fix == [true, false, true];
    PrevIs(d.fix, 2, 0);
    NextIs(d.fix, 2, -1);
    assert Detect(FLAT, KEPT, s, 3) == d;
    PrevIs(d.fix, 1, 0);
    NextIs(d.fix, 1, 2);
    assert !FillableIn(FLAT, KEPT, s, 0, 1);
    RejectedFate(FLAT, KEPT, 0, 1);
  }
}
