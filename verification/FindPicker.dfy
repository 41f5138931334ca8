/** Choosing which matching frame !find jumps to (pkg/chatbot/find.go). */
module FindPicker {
  import opened Decimal

  datatype Hit = Hit(slug: string, tsSec: real, distance: real)

  const FIND_MAX_DISTANCE := 0.93
  const FIND_MOMENT_BUCKET_SEC := 60.0
  const FIND_RANDOMIZE_TOP_N: nat := 10

  // int() truncates toward zero.
  function Bucket(h: Hit): int {
    var x := h.tsSec / FIND_MOMENT_BUCKET_SEC;
    if x >= 0.0 then x.Floor else -((-x).Floor)
  }

  function Key(h: Hit): string {
    h.slug + ":" + Itoa(Bucket(h))
  }

  predicate Close(h: Hit) {
    h.distance <= FIND_MAX_DISTANCE
  }

  predicate SameMoment(a: Hit, b: Hit) {
    a.slug == b.slug && Bucket(a) == Bucket(b)
  }

  // Hit i is the first close hit of its moment.
  ghost predicate Leads(hits: seq<Hit>, i: nat)
    requires i < |hits|
  {
    Close(hits[i]) && forall j :: 0 <= j < i && Close(hits[j]) ==> !SameMoment(hits[j], hits[i])
  }

  // The leading hits among the first n, in order.
  ghost function Moments(hits: seq<Hit>, n: nat): seq<Hit>
    requires n <= |hits|
  {
    if n == 0 then []
    else Moments(hits, n - 1) + if Leads(hits, n - 1) then [hits[n - 1]] else []
  }

  function FirstTen(moments: seq<Hit>): seq<Hit> {
    if |moments| <= FIND_RANDOMIZE_TOP_N then moments else moments[..FIND_RANDOMIZE_TOP_N]
  }

  // The random pick, given the roll.
  function Choose(pool: seq<Hit>, roll: nat): (h: Hit)
    requires pool != []
    ensures h in pool
  {
    pool[roll % |pool|]
  }

  // A roll among the first ten moments, or the nearest hit when there is none.
  ghost function Pick(hits: seq<Hit>, roll: nat): Hit
    requires hits != []
  {
    var pool := FirstTen(Moments(hits, |hits|));
    if pool == [] then hits[0] else Choose(pool, roll)
  }

  /** The loop collects exactly the first ten leading hits, and the roll picks one. */
  method PickFindHit(hits: seq<Hit>, roll: nat) returns (pick: Hit)
    requires hits != []
    ensures pick == Pick(hits, roll)
  {
    var seen: set<string> := {};
    var moments: seq<Hit> := [];
    for i := 0 to |hits|
      invariant moments == Moments(hits, i) && |moments| < FIND_RANDOMIZE_TOP_N
      invariant seen == SeenKeys(hits, i)
    {
      var h := hits[i];
      Collect(hits, i);
      if Close(h) && Key(h) !in seen {
        seen := seen + {Key(h)};
        moments := moments + [h];
        if |moments| == FIND_RANDOMIZE_TOP_N {
          FullPool(hits, i + 1);
          return Choose(moments, roll);
        }
      }
    }
    return if |moments| == 0 then hits[0] else Choose(moments, roll);
  }

  // The keys of the close hits among the first i.
  ghost function SeenKeys(hits: seq<Hit>, i: nat): set<string>
    requires i <= |hits|
  {
    if i == 0 then {} else SeenKeys(hits, i - 1) + if Close(hits[i - 1]) then {Key(hits[i - 1])} else {}
  }

  lemma {:induction false} SeenMoment(hits: seq<Hit>, i: nat, h: Hit)
    requires i <= |hits|
    ensures Key(h) in SeenKeys(hits, i) <==> exists j :: 0 <= j < i && Close(hits[j]) && SameMoment(hits[j], h)
  {
    if i > 0 {
      SeenMoment(hits, i - 1, h);
      KeyNamesTheMoment(hits[i - 1], h);
    }
  }

  // What the loop does with hit i.
  lemma Collect(hits: seq<Hit>, i: nat)
    requires i < |hits|
    ensures var isNew := Close(hits[i]) && Key(hits[i]) !in SeenKeys(hits, i);
      && Moments(hits, i + 1) == (if isNew then Moments(hits, i) + [hits[i]] else Moments(hits, i))
      && SeenKeys(hits, i + 1) == (if isNew then SeenKeys(hits, i) + {Key(hits[i])} else SeenKeys(hits, i))
  {
    SeenMoment(hits, i, hits[i]);
  }

  lemma FullPool(hits: seq<Hit>, n: nat)
    requires n <= |hits| && |Moments(hits, n)| == FIND_RANDOMIZE_TOP_N
    ensures FirstTen(Moments(hits, |hits|)) == Moments(hits, n)
  {
    MomentsGrow(hits, n, |hits|);
  }

  lemma {:induction false} MomentsGrow(hits: seq<Hit>, m: nat, n: nat)
    requires m <= n <= |hits|
    ensures Moments(hits, m) <= Moments(hits, n)
    decreases n
  {
    if m < n { MomentsGrow(hits, m, n - 1); }
  }

  /** The string key tells moments apart, whatever characters a slug holds. */
  lemma KeyNamesTheMoment(a: Hit, b: Hit)
    ensures Key(a) == Key(b) <==> SameMoment(a, b)
  {
    if Key(a) == Key(b) {
      ItoaHasNoColon(Bucket(a));
      ItoaHasNoColon(Bucket(b));
      LastColon(a.slug, Itoa(Bucket(a)), b.slug, Itoa(Bucket(b)));
      ItoaIsInjective(Bucket(a), Bucket(b));
    }
  }

  lemma LastColon(s: string, x: string, t: string, y: string)
    requires s + ":" + x == t + ":" + y && ':' !in x && ':' !in y
    ensures s == t && x == y
  {
    var a, b := s + ":" + x, t + ":" + y;
    forall i | |s| < i < |a| ensures a[i] != ':' { assert a[i] == x[i - |s| - 1]; }
    forall i | |t| < i < |b| ensures b[i] != ':' { assert b[i] == y[i - |t| - 1]; }
    assert a[|s|] == ':' && b[|t|] == ':';
    assert s == a[..|s|] == b[..|t|] == t;
    assert x == a[|s| + 1..] == b[|t| + 1..] == y;
  }

  // ----- the pool, without the loop

  ghost predicate NearestFirst(hits: seq<Hit>) {
    forall i, j :: 0 <= i < j < |hits| ==> hits[i].distance <= hits[j].distance
  }

  // Positions of the leading hits: where each moment of the pool comes from.
  lemma {:induction false} MomentAt(hits: seq<Hit>, n: nat, k: nat) returns (i: nat)
    requires n <= |hits| && k < |Moments(hits, n)|
    ensures i < n && Leads(hits, i) && Moments(hits, n)[k] == hits[i] && k == |Moments(hits, i)|
  {
    if k < |Moments(hits, n - 1)| {
      i := MomentAt(hits, n - 1, k);
    } else {
      i := n - 1;
    }
  }

  lemma {:induction false} LeaderIsMoment(hits: seq<Hit>, i: nat, n: nat)
    requires i < n <= |hits| && Leads(hits, i)
    ensures hits[i] in Moments(hits, n)
    decreases n
  {
    if i < n - 1 { LeaderIsMoment(hits, i, n - 1); }
  }

  lemma {:induction false} LeaderOf(hits: seq<Hit>, i: nat) returns (j: nat)
    requires i < |hits| && Close(hits[i])
    ensures j <= i && Leads(hits, j) && SameMoment(hits[j], hits[i])
  {
    if Leads(hits, i) {
      j := i;
    } else {
      var k :| 0 <= k < i && Close(hits[k]) && SameMoment(hits[k], hits[i]);
      j := LeaderOf(hits, k);
    }
  }

  /** Every moment with a close hit is in the list, by a hit at least as near as
      any of its own. */
  lemma EveryMomentIsRepresented(hits: seq<Hit>, i: nat) returns (m: Hit)
    requires NearestFirst(hits) && i < |hits| && Close(hits[i])
    ensures m in Moments(hits, |hits|) && SameMoment(m, hits[i]) && m.distance <= hits[i].distance
  {
    var j := LeaderOf(hits, i);
    LeaderIsMoment(hits, j, |hits|);
    m := hits[j];
  }

  /** The list holds each moment once, within the ceiling, nearest moments first;
      and its entry for a moment is the nearest hit that the moment has. */
  lemma MomentsAreOrderedGroups(hits: seq<Hit>, k: nat, l: nat, i: nat)
    requires NearestFirst(hits) && k < |Moments(hits, |hits|)|
    ensures var ms := Moments(hits, |hits|);
      && Close(ms[k]) && ms[k] in hits
      && (l < |ms| && k < l ==> !SameMoment(ms[k], ms[l]) && ms[k].distance <= ms[l].distance)
      && (i < |hits| && SameMoment(ms[k], hits[i]) ==> ms[k].distance <= hits[i].distance)
  {
    var ms := Moments(hits, |hits|);
    var a := MomentAt(hits, |hits|, k);
    if l < |ms| && k < l {
      var b := MomentAt(hits, |hits|, l);
      if b < a { MomentsGrow(hits, b, a); }
    }
    assert i < a && Close(hits[i]) ==> !SameMoment(hits[i], hits[a]);
  }

  /** When the nearest hit is under the ceiling the pool is never empty, and no
      moment left out is nearer than one taken. */
  lemma PoolIsTheNearestTen(hits: seq<Hit>, k: nat, l: nat)
    requires NearestFirst(hits) && hits != [] && Close(hits[0])
    ensures FirstTen(Moments(hits, |hits|)) != []
    ensures var ms, pool := Moments(hits, |hits|), FirstTen(Moments(hits, |hits|));
      && |pool| == (if |ms| <= 10 then |ms| else 10)
      && (k < |pool| <= l < |ms| ==> pool[k].distance <= ms[l].distance && !SameMoment(pool[k], ms[l]))
  {
    LeaderIsMoment(hits, 0, |hits|);
    var ms := Moments(hits, |hits|);
    if k < |FirstTen(ms)| <= l < |ms| {
      MomentsAreOrderedGroups(hits, k, l, 0);
    }
  }

  lemma PoolEntry(hits: seq<Hit>, k: nat, i: nat)
    requires NearestFirst(hits) && k < |FirstTen(Moments(hits, |hits|))|
    ensures var h := FirstTen(Moments(hits, |hits|))[k];
      h in hits && Close(h) && (i < |hits| && SameMoment(h, hits[i]) ==> h.distance <= hits[i].distance)
  {
    MomentsAreOrderedGroups(hits, k, 0, i);
  }

  lemma SmallRemainder(roll: nat, n: nat)
    requires n > 0
    ensures roll % n < n && (roll < n ==> roll % n == roll)
  {
  }

  /** So a pick is always a close hit, and the nearest of its moment; and every
      pool entry is picked by some roll. */
  lemma PickIsANearMoment(hits: seq<Hit>, roll: nat, i: nat)
    requires NearestFirst(hits) && hits != [] && Close(hits[0])
    ensures var pick, pool := Pick(hits, roll), FirstTen(Moments(hits, |hits|));
      && pick in pool && pick in hits && Close(pick)
      && (i < |hits| && SameMoment(pick, hits[i]) ==> pick.distance <= hits[i].distance)
      && (roll < |pool| ==> pick == pool[roll])
  {
    PoolIsTheNearestTen(hits, 0, 0);
    PickedEntry(hits, FirstTen(Moments(hits, |hits|)), roll, i);
  }

  lemma {:induction false} PickedEntry(hits: seq<Hit>, pool: seq<Hit>, roll: nat, i: nat)
    requires NearestFirst(hits) && pool == FirstTen(Moments(hits, |hits|)) != []
    ensures var h := Choose(pool, roll);
      && h in hits && Close(h) && (i < |hits| && SameMoment(h, hits[i]) ==> h.distance <= hits[i].distance)
      && (roll < |pool| ==> h == pool[roll])
  {
    SmallRemainder(roll, |pool|);
    PoolEntry(hits, roll % |pool|, i);
  }

  /** A bucket is a whole minute of a clip, counted toward zero. */
  lemma BucketIsAMinute(h: Hit)
    ensures h.tsSec >= 0.0 ==> 60.0 * Bucket(h) as real <= h.tsSec < 60.0 * (Bucket(h) + 1) as real
    ensures h.tsSec <= 0.0 ==> 60.0 * (Bucket(h) - 1) as real < h.tsSec <= 60.0 * Bucket(h) as real
  {
    var x := h.tsSec / 60.0;
    assert h.tsSec == 60.0 * x;
  }

  // The n-th whole minute of a clip.
  predicate InMinute(h: Hit, n: int) {
    60.0 * n as real <= h.tsSec < 60.0 * (n + 1) as real
  }

  lemma OneMinute(h: Hit, n: int)
    requires h.tsSec >= 0.0
    ensures InMinute(h, n) <==> n == Bucket(h)
  {
    BucketIsAMinute(h);
    if n < Bucket(h) { assert 60.0 * (n + 1) as real <= 60.0 * Bucket(h) as real; }
    if n > Bucket(h) { assert 60.0 * (Bucket(h) + 1) as real <= 60.0 * n as real; }
  }

  /** Two hits are of one moment exactly when they are in one minute of one clip. */
  lemma SameMomentIs(a: Hit, b: Hit)
    requires a.tsSec >= 0.0 && b.tsSec >= 0.0
    ensures SameMoment(a, b) <==> a.slug == b.slug && exists n :: InMinute(a, n) && InMinute(b, n)
  {
    OneMinute(a, Bucket(a));
    OneMinute(b, Bucket(a));
    if n :| InMinute(a, n) && InMinute(b, n) {
      OneMinute(a, n);
      OneMinute(b, n);
    }
  }

  lemma {:induction false} NoMoments(hits: seq<Hit>, n: nat)
    requires n <= |hits| && forall i :: 0 <= i < |hits| ==> hits[i].distance > 0.93
    ensures Moments(hits, n) == []
  {
    if n > 0 { NoMoments(hits, n - 1); }
  }

  /** A pick is within the ceiling whenever any hit is, and the first hit otherwise. */
  lemma PickIsClose(hits: seq<Hit>, roll: nat)
    requires NearestFirst(hits) && hits != []
    ensures hits[0].distance <= 0.93 ==> Pick(hits, roll).distance <= 0.93
    ensures hits[0].distance > 0.93 ==> Pick(hits, roll) == hits[0]
  {
    if Close(hits[0]) {
      PickIsANearMoment(hits, roll, 0);
    } else {
      NoMoments(hits, |hits|);
    }
  }
}
