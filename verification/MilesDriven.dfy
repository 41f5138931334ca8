/**
  The miles-driven pass (cmd/backfill-miles-driven): each clip is credited the
  distance to the next fix of its corpus. Film times are nanoseconds.
*/
module MilesDriven {
  import opened Wrappers

  const NANOS_PER_HOUR := 3_600_000_000_000.0

  datatype Clip = Clip(id: int, slug: string, lat: real, lng: real, source: string, filmed: int,
                       miles: Option<real>, corpus: string, speed: int)
  {
    predicate HasFix() { (lat != 0.0 || lng != 0.0) && (source == "ocr" || source == "interpolated") }
  }

  // The command's flags, and the distance function it calls.
  datatype Limits = Limits(maxGap: int, maxSpeedMph: real, miles: (real, real, real, real) -> real)

  // math.Round rounds halves away from zero.
  function Round(x: real): real {
    if x >= 0.0 then (x + 0.5).Floor as real else -((0.5 - x).Floor as real)
  }

  function Round3(x: real): real {
    Round(x * 1000.0) / 1000.0
  }

  // Why a clip is credited nothing, if it is.
  datatype Reason = Counted | NoFix | NoLaterFix | Gap | Speed

  datatype Decision = Decision(clip: Clip, newMiles: Option<real>, reason: Reason)
  {
    predicate Changed() {
      if clip.miles.Some? && newMiles.Some? then Round3(clip.miles.value) != Round3(newMiles.value)
      else clip.miles.Some? || newMiles.Some?
    }

    function Applied(): Clip {
      if Changed() then clip.(miles := newMiles) else clip
    }
  }

  // The first clip from i on that has a fix, or -1.
  function NextFix(clips: seq<Clip>, i: nat): (r: int)
    requires i <= |clips|
    ensures r == -1 || (i <= r < |clips| && clips[r].HasFix())
    ensures forall j :: i <= j < (if r == -1 then |clips| else r) ==> !clips[j].HasFix()
    decreases |clips| - i
  {
    if i == |clips| then -1 else if clips[i].HasFix() then i else NextFix(clips, i + 1)
  }

  function Hours(gap: int): real {
    gap as real / NANOS_PER_HOUR
  }

  function Distance(p: Limits, a: Clip, b: Clip): real {
    p.miles(a.lat, a.lng, b.lat, b.lng)
  }

  function Verdict(p: Limits, clips: seq<Clip>, i: nat): Reason
    requires i < |clips|
  {
    var next := NextFix(clips, i + 1);
    if !clips[i].HasFix() then NoFix
    else if next < 0 then NoLaterFix
    else
      var gap := clips[next].filmed - clips[i].filmed;
      if gap <= 0 || gap > p.maxGap then Gap
      else if Distance(p, clips[i], clips[next]) / Hours(gap) > p.maxSpeedMph then Speed
      else Counted
  }

  // The unrounded credit of clip i.
  function Credit(p: Limits, clips: seq<Clip>, i: nat): Option<real>
    requires i < |clips|
  {
    if Verdict(p, clips, i) == Counted then Some(Distance(p, clips[i], clips[NextFix(clips, i + 1)])) else None
  }

  function Decide(p: Limits, clips: seq<Clip>, i: nat): Decision
    requires i < |clips|
  {
    var credit := Credit(p, clips, i);
    Decision(clips[i], if credit.Some? then Some(Round3(credit.value)) else None, Verdict(p, clips, i))
  }

  method NextFixFrom(clips: seq<Clip>, i: nat) returns (next: int)
    requires i <= |clips|
    ensures next == NextFix(clips, i)
  {
    next := -1;
    for j := i to |clips|
      invariant NextFix(clips, i) == NextFix(clips, j)
    {
      if clips[j].HasFix() {
        return j;
      }
    }
  }

  method Analyze(p: Limits, clips: seq<Clip>) returns (out: seq<Decision>)
    ensures |out| == |clips| && forall i :: 0 <= i < |clips| ==> out[i] == Decide(p, clips, i)
  {
    out := [];
    for i := 0 to |clips|
      invariant |out| == i && forall k :: 0 <= k < i ==> out[k] == Decide(p, clips, k)
    {
      var c := clips[i];
      var d := Decision(c, None, Counted);
      var next := NextFixFrom(clips, i + 1);
      if !c.HasFix() {
        d := d.(reason := NoFix);
      } else if next < 0 {
        d := d.(reason := NoLaterFix);
      } else {
        var gap := clips[next].filmed - c.filmed;
        if gap <= 0 || gap > p.maxGap {
          d := d.(reason := Gap);
        } else {
          var miles := Distance(p, c, clips[next]);
          if miles / Hours(gap) > p.maxSpeedMph {
            d := d.(reason := Speed);
          } else {
            d := d.(newMiles := Some(Round3(miles)));
          }
        }
      }
      out := out + [d];
    }
  }

  // ----- the total is bounded by the time on film

  ghost predicate FilmOrder(clips: seq<Clip>) {
    forall i, j :: 0 <= i < j < |clips| ==> clips[i].filmed <= clips[j].filmed
  }

  ghost predicate NonNegative(miles: (real, real, real, real) -> real) {
    forall a, b, c, d :: miles(a, b, c, d) >= 0.0
  }

  function Worth(miles: Option<real>): real {
    if miles.Some? then miles.value else 0.0
  }

  // What each clip is credited, unrounded and as written.
  function Credits(p: Limits, clips: seq<Clip>): seq<real> {
    seq(|clips|, i requires 0 <= i < |clips| => Worth(Credit(p, clips, i)))
  }

  function Written(p: Limits, clips: seq<Clip>): seq<real> {
    seq(|clips|, i requires 0 <= i < |clips| => Worth(Decide(p, clips, i).newMiles))
  }

  function Total(miles: seq<real>, i: nat): real
    requires i <= |miles|
    decreases |miles| - i
  {
    if i == |miles| then 0.0 else miles[i] + Total(miles, i + 1)
  }

  // The number of credited clips from i on.
  function Credited(p: Limits, clips: seq<Clip>, i: nat): nat
    requires i <= |clips|
    decreases |clips| - i
  {
    if i == |clips| then 0 else (if Credit(p, clips, i).Some? then 1 else 0) + Credited(p, clips, i + 1)
  }

  function LastFix(clips: seq<Clip>): (r: int)
    ensures r == -1 || (0 <= r < |clips| && clips[r].HasFix())
    ensures forall j :: r < j < |clips| ==> !clips[j].HasFix()
  {
    if clips == [] then -1
    else if clips[|clips| - 1].HasFix() then |clips| - 1
    else LastFix(clips[..|clips| - 1])
  }

  // No speed is too slow to be credited below zero miles an hour.
  function SpeedCap(p: Limits): real {
    if p.maxSpeedMph < 0.0 then 0.0 else p.maxSpeedMph
  }

  lemma CreditBound(p: Limits, clips: seq<Clip>, i: nat)
    requires i < |clips| && Credit(p, clips, i).Some? && NonNegative(p.miles)
    ensures var next := NextFix(clips, i + 1);
      next >= 0 && Credit(p, clips, i).value <= SpeedCap(p) * Hours(clips[next].filmed - clips[i].filmed)
  {
  }

  // Clip j has the first fix after clip i, within the gap, and no faster than the limit allows.
  ghost predicate Drives(p: Limits, clips: seq<Clip>, i: int, j: int) {
    && 0 <= i < j < |clips| && clips[i].HasFix() && clips[j].HasFix()
    && (forall k :: i < k < j ==> !clips[k].HasFix())
    && 0 < clips[j].filmed - clips[i].filmed <= p.maxGap
    && Distance(p, clips[i], clips[j]) <= p.maxSpeedMph * Hours(clips[j].filmed - clips[i].filmed)
  }

  /** A clip is credited exactly when the next fix of its corpus is a continuous
      and possible drive away, and then with the distance to that fix. */
  lemma CreditedIff(p: Limits, clips: seq<Clip>, i: nat, miles: real)
    requires i < |clips|
    ensures Credit(p, clips, i) == Some(miles) <==>
      exists j :: Drives(p, clips, i, j) && miles == Distance(p, clips[i], clips[j])
  {
  }

  predicate AddsUp(bound: int -> real, a: int, b: int) {
    bound(a + b) == bound(a) + bound(b) && (a >= 0 ==> bound(a) >= 0.0)
  }

  // Every clip's miles are at most the bound of its gap to the next fix.
  ghost predicate WithinGaps(clips: seq<Clip>, miles: seq<real>, bound: int -> real) {
    && |miles| == |clips| && (forall a, b :: AddsUp(bound, a, b))
    && forall i :: 0 <= i < |clips| ==> WithinGap(clips, i, miles[i], bound)
  }

  ghost predicate WithinGap(clips: seq<Clip>, i: int, miles: real, bound: int -> real)
    requires 0 <= i < |clips|
  {
    var next := NextFix(clips, i + 1);
    if clips[i].HasFix() && next >= 0 then miles <= bound(clips[next].filmed - clips[i].filmed) else miles == 0.0
  }

  // The gaps up to the last fix, one after the other.
  lemma {:induction false} GapsAddUp(clips: seq<Clip>, miles: seq<real>, bound: int -> real, last: int, i: nat)
    requires i <= |clips| && FilmOrder(clips) && WithinGaps(clips, miles, bound)
    requires -1 <= last < |clips| && (last >= 0 ==> clips[last].HasFix()) && forall j :: last < j < |clips| ==> !clips[j].HasFix()
    ensures var first := NextFix(clips, i);
      if first < 0 then Total(miles, i) == 0.0
      else first <= last && Total(miles, i) <= bound(clips[last].filmed - clips[first].filmed)
    decreases |clips| - i
  {
    if i < |clips| {
      GapsAddUp(clips, miles, bound, last, i + 1);
      assert WithinGap(clips, i, miles[i], bound);
      var next := NextFix(clips, i + 1);
      if clips[i].HasFix() {
        if next >= 0 {
          assert AddsUp(bound, clips[next].filmed - clips[i].filmed, clips[last].filmed - clips[next].filmed);
        } else {
          assert AddsUp(bound, clips[last].filmed - clips[i].filmed, 0);
        }
      }
    }
  }

  // The gaps between consecutive fixes are disjoint, so their bounds add up.
  lemma DisjointGaps(clips: seq<Clip>, miles: seq<real>, bound: int -> real, i: nat)
    requires i <= |clips| && FilmOrder(clips) && WithinGaps(clips, miles, bound)
    ensures var first, last := NextFix(clips, i), LastFix(clips);
      if first < 0 then Total(miles, i) == 0.0
      else first <= last && Total(miles, i) <= bound(clips[last].filmed - clips[first].filmed)
  {
    GapsAddUp(clips, miles, bound, LastFix(clips), i);
  }

  // The miles that fit in a gap at the speed limit.
  function AtSpeed(cap: real): int -> real {
    gap => cap * Hours(gap)
  }

  lemma SpeedAddsUp(cap: real, a: int, b: int)
    requires cap >= 0.0
    ensures AddsUp(AtSpeed(cap), a, b)
  {
  }

  lemma CreditsWithinGaps(p: Limits, clips: seq<Clip>)
    requires FilmOrder(clips) && NonNegative(p.miles)
    ensures WithinGaps(clips, Credits(p, clips), AtSpeed(SpeedCap(p)))
  {
    var bound := AtSpeed(SpeedCap(p));
    forall a, b ensures AddsUp(bound, a, b) { SpeedAddsUp(SpeedCap(p), a, b); }
    forall i | 0 <= i < |clips| ensures WithinGap(clips, i, Credits(p, clips)[i], bound) {
      var next := NextFix(clips, i + 1);
      if Credit(p, clips, i).Some? {
        CreditBound(p, clips, i);
      } else if clips[i].HasFix() && next >= 0 {
        assert AddsUp(bound, clips[next].filmed - clips[i].filmed, 0);
      }
    }
  }

  /** For clips in film order the credited gaps are disjoint, so the unrounded
      miles total at most the speed limit times the hours from the first fix to
      the last. */
  lemma TotalIsBounded(p: Limits, clips: seq<Clip>)
    requires FilmOrder(clips) && NonNegative(p.miles)
    ensures var first, last := NextFix(clips, 0), LastFix(clips);
      if first < 0 then Total(Credits(p, clips), 0) == 0.0
      else first <= last && Total(Credits(p, clips), 0) <= AtSpeed(SpeedCap(p))(clips[last].filmed - clips[first].filmed)
  {
    CreditsWithinGaps(p, clips);
    DisjointGaps(clips, Credits(p, clips), AtSpeed(SpeedCap(p)), 0);
  }

  lemma RoundOfInt(n: int)
    ensures Round(n as real) == n as real
  {
    if n >= 0 {
      assert (n as real + 0.5).Floor == n;
    } else {
      assert (0.5 - n as real).Floor == -n;
    }
  }

  // The nearest whole number, and a whole number rounds to itself.
  lemma RoundError(x: real) returns (n: int)
    ensures Round(x) == n as real && x - 0.5 <= n as real <= x + 0.5
  {
    n := if x >= 0.0 then (x + 0.5).Floor else -((0.5 - x).Floor);
  }

  lemma FloorIs(y: real, n: int)
    ensures y.Floor == n <==> n as real <= y < n as real + 1.0
  {
  }

  /** Rounding goes to the nearest whole number, and from halfway away from zero. */
  lemma RoundHalfAway(x: real, n: int)
    ensures Round(x) == n as real <==>
      if x >= 0.0 then n as real - 0.5 <= x < n as real + 0.5 else n as real - 0.5 < x <= n as real + 0.5
  {
    if x >= 0.0 {
      FloorIs(x + 0.5, n);
      assert Round(x) == (x + 0.5).Floor as real;
    } else {
      FloorIs(0.5 - x, -n);
      assert Round(x) == -((0.5 - x).Floor) as real;
    }
  }

  // x has at most three decimals.
  ghost predicate ThreeDecimals(x: real) {
    exists n: int :: IsThousandths(x, n)
  }

  predicate IsThousandths(x: real, n: int) {
    x * 1000.0 == n as real
  }

  lemma Round3Error(x: real)
    ensures x - 0.0005 <= Round3(x) <= x + 0.0005
    ensures ThreeDecimals(Round3(x)) && Round3(Round3(x)) == Round3(x)
  {
    var n := RoundError(x * 1000.0);
    assert IsThousandths(Round3(x), n);
    assert Round3(x) == n as real / 1000.0;
    assert Round3(x) * 1000.0 == n as real;
    RoundOfInt(n);
  }

  /** Rounding to three decimals moves the total by at most half a thousandth of
      a mile per credited clip. */
  lemma {:induction false} RoundedTotalIsClose(p: Limits, clips: seq<Clip>, i: nat)
    requires i <= |clips|
    ensures var slack := 0.0005 * Credited(p, clips, i) as real;
      Total(Credits(p, clips), i) - slack <= Total(Written(p, clips), i) <= Total(Credits(p, clips), i) + slack
    decreases |clips| - i
  {
    if i < |clips| {
      RoundedTotalIsClose(p, clips, i + 1);
      if Credit(p, clips, i).Some? { Round3Error(Credit(p, clips, i).value); }
    }
  }

  /** The miles the pass writes for a corpus are at most the speed limit times its
      hours on film, plus the rounding. */
  lemma WrittenMilesAreBounded(p: Limits, clips: seq<Clip>)
    requires FilmOrder(clips) && NonNegative(p.miles) && NextFix(clips, 0) >= 0
    ensures var first, last := NextFix(clips, 0), LastFix(clips);
      Total(Written(p, clips), 0) <=
        AtSpeed(SpeedCap(p))(clips[last].filmed - clips[first].filmed) + 0.0005 * Credited(p, clips, 0) as real
  {
    TotalIsBounded(p, clips);
    RoundedTotalIsClose(p, clips, 0);
  }

  // ----- a second run changes nothing

  function AppliedRows(p: Limits, clips: seq<Clip>): (rows: seq<Clip>)
    ensures |rows| == |clips|
  {
    seq(|clips|, i requires 0 <= i < |clips| => Decide(p, clips, i).Applied())
  }

  // Rows that differ in their stored miles only.
  ghost predicate SameTrack(a: seq<Clip>, b: seq<Clip>) {
    |a| == |b| && forall i :: 0 <= i < |a| ==> a[i].(miles := None) == b[i].(miles := None)
  }

  lemma SameCredit(p: Limits, a: seq<Clip>, b: seq<Clip>, i: nat)
    requires SameTrack(a, b) && i < |a|
    ensures Credit(p, a, i) == Credit(p, b, i) && Verdict(p, a, i) == Verdict(p, b, i)
  {
  }

  /** After the results are written, a second run computes the same values and
      changes no row. */
  lemma SecondRunChangesNothing(p: Limits, clips: seq<Clip>, i: nat)
    requires i < |clips|
    ensures !Decide(p, AppliedRows(p, clips), i).Changed()
    ensures Decide(p, AppliedRows(p, clips), i).newMiles == Decide(p, clips, i).newMiles
  {
    var rows := AppliedRows(p, clips);
    assert SameTrack(clips, rows);
    SameCredit(p, clips, rows, i);
  }

  // A row with a usable coordinate.
  predicate Usable(c: Clip) {
    !(c.lat == 0.0 && c.lng == 0.0) && (c.source == "ocr" || c.source == "interpolated")
  }

  // Clip j is the first usable row after clip i.
  ghost predicate NextUsable(clips: seq<Clip>, i: int, j: int) {
    0 <= i < j < |clips| && Usable(clips[j]) && forall k :: i < k < j ==> !Usable(clips[k])
  }

  lemma NextFixIs(clips: seq<Clip>, i: nat, j: int)
    requires i < |clips|
    ensures NextUsable(clips, i, j) <==> j >= 0 && j == NextFix(clips, i + 1)
  {
    forall k | 0 <= k < |clips| ensures Usable(clips[k]) == clips[k].HasFix() {}
  }

  /** The reason given for a clip: nothing usable to start from, nothing usable
      after it, a gap that is not continuous recording, or miles that are more
      than the speed limit allows in the gap. */
  lemma ReasonIs(p: Limits, clips: seq<Clip>, i: nat, j: int)
    requires i < |clips|
    ensures var reason := Decide(p, clips, i).reason;
      && (reason == NoFix <==> !Usable(clips[i]))
      && (reason == NoLaterFix <==> Usable(clips[i]) && forall k :: i < k < |clips| ==> !Usable(clips[k]))
      && (NextUsable(clips, i, j) && Usable(clips[i]) ==>
            var gap := clips[j].filmed - clips[i].filmed;
            && (reason == Gap <==> gap <= 0 || gap > p.maxGap)
            && (reason == Speed <==> 0 < gap <= p.maxGap
                                     && Distance(p, clips[i], clips[j]) > p.maxSpeedMph * (gap as real / 3_600_000_000_000.0)))
      && (reason == Counted <==> Decide(p, clips, i).newMiles.Some?)
  {
    NextFixIs(clips, i, j);
    var next := NextFix(clips, i + 1);
    forall k | 0 <= k < |clips| ensures Usable(clips[k]) == clips[k].HasFix() {}
    if next >= 0 {
      assert Usable(clips[next]);
      if clips[next].filmed > clips[i].filmed {
        OverTime(Distance(p, clips[i], clips[next]), Hours(clips[next].filmed - clips[i].filmed), p.maxSpeedMph);
      }
    }
  }

  lemma OverTime(miles: real, hours: real, limit: real)
    requires hours > 0.0
    ensures miles / hours > limit <==> miles > limit * hours
  {
    assert miles / hours * hours == miles;
    if miles / hours > limit {
      assert (miles / hours - limit) * hours > 0.0;
    } else {
      assert (limit - miles / hours) * hours >= 0.0;
    }
  }

  /** What a run leaves in a row: miles exactly when the clip is credited, which are
      the credit to the nearest thousandth once rounded; nothing else of the row
      changes, and the miles only when they differ at three decimals. */
  lemma RowsAreWritten(p: Limits, clips: seq<Clip>, i: nat)
    requires i < |clips|
    ensures var row, credit := AppliedRows(p, clips)[i], Credit(p, clips, i);
      && row.(miles := None) == clips[i].(miles := None)
      && (row.miles.Some? <==> credit.Some?)
      && (credit.Some? ==>
            && var stored := Round3(row.miles.value); credit.value - 0.0005 <= stored <= credit.value + 0.0005)
      && (credit.Some? && clips[i].miles.Some? && Round3(clips[i].miles.value) == Round3(credit.value) ==>
            row.miles == clips[i].miles)
      && (credit.Some? && (clips[i].miles.None? || Round3(clips[i].miles.value) != Round3(credit.value)) ==>
            row.miles == Some(Round3(credit.value)))
  {
    if Credit(p, clips, i).Some? { Round3Error(Credit(p, clips, i).value); }
  }
}
