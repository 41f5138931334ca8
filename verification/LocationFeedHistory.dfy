/** Exactly when the clip-data feed asks its services, and exactly what it shows. */
module LocationFeedHistory {
  import opened Wrappers
  import opened LocationFeed

  /** A cell is a square of a twentieth of a degree. */
  lemma CellIs(c: Clip)
    ensures var cell := c.Cell();
      && 0.05 * cell.0 as real <= c.lat < 0.05 * (cell.0 + 1) as real
      && 0.05 * cell.1 as real <= c.lng < 0.05 * (cell.1 + 1) as real
  {
    assert c.lat == 0.05 * (c.lat / 0.05) && c.lng == 0.05 * (c.lng / 0.05);
  }

  // ----- jumps

  // The last clip that could be described before tick k.
  function Before(ticks: seq<Tick>, k: nat): Option<Clip>
    requires k <= |ticks|
  {
    if k == 0 then None
    else if ticks[k - 1].clip.Described() then Some(ticks[k - 1].clip)
    else Before(ticks, k - 1)
  }

  // A described clip of another day or state than the one before it.
  predicate Jumped(ticks: seq<Tick>, k: nat)
    requires k < |ticks|
  {
    var c, b := ticks[k].clip, Before(ticks, k);
    c.Described() && (b.None? || b.value.day != c.day || b.value.state != c.state)
  }

  // A described clip of another state within the day of the one before it.
  predicate CrossedLine(ticks: seq<Tick>, k: nat)
    requires k < |ticks|
  {
    var c, b := ticks[k].clip, Before(ticks, k);
    c.Described() && b.Some? && b.value.day == c.day && b.value.state != c.state
  }

  // Clips have a local day, as every date has.
  ghost predicate Dated(ticks: seq<Tick>) {
    forall k :: 0 <= k < |ticks| ==> ticks[k].clip.day != ""
  }

  lemma {:induction false} FeedStandsAt(ticks: seq<Tick>, k: nat)
    requires k <= |ticks|
    ensures var f, b := After(ticks, k), Before(ticks, k);
      if b.None? then f.day == "" && f.state == "" else f.day == b.value.day && f.state == b.value.state
  {
    if k > 0 { FeedStandsAt(ticks, k - 1); }
  }

  lemma {:induction false} BeforeIsDated(ticks: seq<Tick>, k: nat)
    requires k <= |ticks| && Dated(ticks) && Before(ticks, k).Some?
    ensures Before(ticks, k).value.day != ""
  {
    if !ticks[k - 1].clip.Described() { BeforeIsDated(ticks, k - 1); }
  }

  lemma JumpedMeans(ticks: seq<Tick>, k: nat)
    requires k < |ticks| && Dated(ticks)
    ensures var f, c := After(ticks, k), ticks[k].clip;
      && (Jumped(ticks, k) <==> c.Described() && (c.day != f.day || c.state != f.state))
      && (CrossedLine(ticks, k) <==> StateLineCrossed(ticks, k))
  {
    FeedStandsAt(ticks, k);
  }

  // ----- the history of one service

  // For each tick: was the service asked, had it an answer, did the footage jump, or cross a line.
  datatype Trace = Trace(asked: seq<bool>, answered: seq<bool>, jumped: seq<bool>, line: seq<bool>)
  {
    predicate Sized(n: nat) {
      n == |asked| == |answered| == |jumped| == |line|
    }

    predicate Got(k: nat)
      requires k < |asked| && k < |answered|
    {
      asked[k] && answered[k]
    }
  }

  predicate Answered(a: Answer) {
    a.Got? && a.text != ""
  }

  // The tick whose answer is held before tick k, and the tick that asked last.
  function HeldAt(tr: Trace, k: nat): (m: Option<nat>)
    requires tr.Sized(|tr.asked|) && k <= |tr.asked|
    ensures m.Some? ==> m.value < k
  {
    if k == 0 then None
    else if tr.Got(k - 1) then Some(k - 1)
    else if tr.jumped[k - 1] then None
    else HeldAt(tr, k - 1)
  }

  function AskedAt(tr: Trace, k: nat): (m: Option<nat>)
    requires tr.Sized(|tr.asked|) && k <= |tr.asked|
    ensures m.Some? ==> m.value < k
  {
    if k == 0 then None
    else if tr.asked[k - 1] then Some(k - 1)
    else if tr.line[k - 1] then None
    else AskedAt(tr, k - 1)
  }

  // Tick m got the last answer before k, and no jump came since.
  ghost predicate Held(tr: Trace, m: nat, k: nat)
    requires tr.Sized(|tr.asked|) && k <= |tr.asked|
  {
    m < k && tr.Got(m) && forall j :: m < j < k ==> !tr.jumped[j] && !tr.Got(j)
  }

  // Tick m asked last before k, and no line was crossed since.
  ghost predicate AskedLast(tr: Trace, m: nat, k: nat)
    requires tr.Sized(|tr.asked|) && k <= |tr.asked|
  {
    m < k && tr.asked[m] && forall j :: m < j < k ==> !tr.line[j] && !tr.asked[j]
  }

  lemma {:induction false} HeldAtIs(tr: Trace, m: nat, k: nat)
    requires tr.Sized(|tr.asked|) && k <= |tr.asked|
    ensures HeldAt(tr, k) == Some(m) <==> Held(tr, m, k)
  {
    if k > 0 { HeldAtIs(tr, m, k - 1); }
  }

  ghost predicate NothingHeld(tr: Trace, k: nat)
    requires tr.Sized(|tr.asked|) && k <= |tr.asked|
  {
    forall m: nat :: !Held(tr, m, k)
  }

  lemma HeldAtIsAll(tr: Trace, k: nat)
    requires tr.Sized(|tr.asked|) && k <= |tr.asked|
    ensures HeldAt(tr, k) == None <==> NothingHeld(tr, k)
    ensures forall m: nat :: Held(tr, m, k) <==> HeldAt(tr, k) == Some(m)
  {
    forall m: nat ensures HeldAt(tr, k) == Some(m) <==> Held(tr, m, k) { HeldAtIs(tr, m, k); }
    if HeldAt(tr, k).Some? { assert Held(tr, HeldAt(tr, k).value, k); }
  }

  lemma {:induction false} AskedAtIs(tr: Trace, m: nat, k: nat)
    requires tr.Sized(|tr.asked|) && k <= |tr.asked|
    ensures AskedAt(tr, k) == Some(m) <==> AskedLast(tr, m, k)
  {
    if k > 0 { AskedAtIs(tr, m, k - 1); }
  }

  // A question of the last five minutes holds the one at k up, unless a line is crossed there.
  ghost predicate Throttled(ticks: seq<Tick>, tr: Trace, m: nat, k: nat)
    requires tr.Sized(|ticks|) && k < |ticks|
  {
    AskedLast(tr, m, k) && !tr.line[k] && ticks[k].now - ticks[m].now <= 300_000_000_000
  }

  lemma ThrottledIs(ticks: seq<Tick>, tr: Trace, k: nat)
    requires tr.Sized(|ticks|) && k < |ticks|
    ensures (exists m: nat :: Throttled(ticks, tr, m, k)) <==>
      AskedAt(tr, k).Some? && !tr.line[k] && ticks[k].now - ticks[AskedAt(tr, k).value].now <= 300_000_000_000
  {
    forall m: nat ensures AskedAt(tr, k) == Some(m) <==> AskedLast(tr, m, k) { AskedAtIs(tr, m, k); }
    if AskedAt(tr, k).Some? {
      assert AskedLast(tr, AskedAt(tr, k).value, k);
      if !tr.line[k] && ticks[k].now - ticks[AskedAt(tr, k).value].now <= 300_000_000_000 {
        assert Throttled(ticks, tr, AskedAt(tr, k).value, k);
      }
    }
  }

  // ----- the geocoder

  ghost function CityTrace(ticks: seq<Tick>): (tr: Trace)
    ensures tr.Sized(|ticks|)
  {
    Trace(seq(|ticks|, k requires 0 <= k < |ticks| => CityAsked(ticks, k)),
          seq(|ticks|, k requires 0 <= k < |ticks| => Answered(ticks[k].geo)),
          seq(|ticks|, k requires 0 <= k < |ticks| => Jumped(ticks, k)),
          seq(|ticks|, k requires 0 <= k < |ticks| => CrossedLine(ticks, k)))
  }

  // What the feed keeps of a held answer and of the last question.
  ghost predicate CityKept(ticks: seq<Tick>, k: nat)
    requires k <= |ticks|
  {
    var f, tr := After(ticks, k), CityTrace(ticks);
    && (match HeldAt(tr, k)
        case None => f.city == ""
        case Some(m) =>
          Answered(ticks[m].geo) && f.city == ticks[m].geo.text && f.cityCell == ticks[m].clip.Cell())
    && (match AskedAt(tr, k)
        case None => f.cityAt == None
        case Some(m) => f.cityAt == Some(ticks[m].now))
  }

  lemma CityStep(ticks: seq<Tick>, k: nat)
    requires k < |ticks| && Dated(ticks)
    ensures var f, g, t := After(ticks, k), After(ticks, k + 1), ticks[k];
      && (if CityAsked(ticks, k) && Answered(t.geo) then g.city == t.geo.text && g.cityCell == t.clip.Cell()
          else if Jumped(ticks, k) then g.city == ""
          else g.city == f.city && g.cityCell == f.cityCell)
      && g.cityAt == (if CityAsked(ticks, k) then Some(t.now) else if CrossedLine(ticks, k) then None else f.cityAt)
  {
    if ticks[k].clip.Described() { JumpedMeans(ticks, k); }
  }

  lemma {:induction false} CityIsKept(ticks: seq<Tick>, k: nat)
    requires k <= |ticks| && Dated(ticks)
    ensures CityKept(ticks, k)
  {
    if k > 0 {
      CityIsKept(ticks, k - 1);
      CityStep(ticks, k - 1);
    }
  }

  // A held city answers for the clip of tick k.
  ghost predicate CityServes(ticks: seq<Tick>, m: nat, k: nat)
    requires k < |ticks|
  {
    Held(CityTrace(ticks), m, k) && !Jumped(ticks, k) && ticks[m].clip.Cell() == ticks[k].clip.Cell()
  }

  lemma {:induction false} CityServesIs(ticks: seq<Tick>, k: nat)
    requires k < |ticks|
    ensures var held := HeldAt(CityTrace(ticks), k);
      (exists m: nat :: CityServes(ticks, m, k)) <==>
      held.Some? && !Jumped(ticks, k) && ticks[held.value].clip.Cell() == ticks[k].clip.Cell()
  {
    var tr := CityTrace(ticks);
    HeldAtIsAll(tr, k);
    if HeldAt(tr, k).Some? && !Jumped(ticks, k) && ticks[HeldAt(tr, k).value].clip.Cell() == ticks[k].clip.Cell() {
      assert CityServes(ticks, HeldAt(tr, k).value, k);
    }
  }

  /** The geocoder is asked exactly when the clip can be described and has no city
      of its own, no city got for its cell is held, and no question of the last
      five minutes since a state line holds it up. */
  lemma CityAskedIff(ticks: seq<Tick>, k: nat)
    requires k < |ticks| && Dated(ticks)
    ensures CityAsked(ticks, k) <==>
      && ticks[k].clip.Described() && ticks[k].clip.city == ""
      && !(exists m: nat :: CityServes(ticks, m, k))
      && !(exists m: nat :: Throttled(ticks, CityTrace(ticks), m, k))
  {
    CityIsKept(ticks, k);
    JumpedMeans(ticks, k);
    CityServesIs(ticks, k);
    ThrottledIs(ticks, CityTrace(ticks), k);
  }

  /** A described clip is shown with its own row's place, or else with the city
      held for its day and state, or else with its state; an undescribed one
      is not published. */
  lemma ShownPlaceIs(ticks: seq<Tick>, k: nat, m: nat)
    requires k < |ticks| && Dated(ticks)
    ensures var c, shown := ticks[k].clip, Publishes(After(ticks, k), ticks[k]);
      && (shown.None? <==> c.flagged || !c.located || !c.dated)
      && (shown.Some? ==>
            && shown.value.state == c.state && shown.value.day == c.day
            && (c.city != "" ==> shown.value.place == c.place)
            && (c.city == "" && Held(CityTrace(ticks), m, k + 1) ==> shown.value.place == ticks[m].geo.text)
            && (c.city == "" && NothingHeld(CityTrace(ticks), k + 1) ==> shown.value.place == c.state))
  {
    CityIsKept(ticks, k + 1);
    HeldAtIsAll(CityTrace(ticks), k + 1);
  }

  // ----- the weather archive

  ghost function WeatherTrace(ticks: seq<Tick>): (tr: Trace)
    ensures tr.Sized(|ticks|)
  {
    Trace(seq(|ticks|, k requires 0 <= k < |ticks| => WeatherAsked(ticks, k)),
          seq(|ticks|, k requires 0 <= k < |ticks| => Answered(ticks[k].weather)),
          seq(|ticks|, k requires 0 <= k < |ticks| => Jumped(ticks, k)),
          seq(|ticks|, k requires 0 <= k < |ticks| => CrossedLine(ticks, k)))
  }

  // What the feed keeps of a held answer and of the last question.
  ghost predicate WeatherKept(ticks: seq<Tick>, k: nat)
    requires k <= |ticks|
  {
    var f, tr := After(ticks, k), WeatherTrace(ticks);
    && (match HeldAt(tr, k)
        case None => f.conditions == ""
        case Some(m) =>
          && Answered(ticks[m].weather) && f.conditions == ticks[m].weather.text
          && f.conditionsCell == ticks[m].clip.Cell() && f.conditionsHour == ticks[m].clip.hour)
    && (match AskedAt(tr, k)
        case None => f.conditionsAt == None
        case Some(m) => f.conditionsAt == Some(ticks[m].now))
  }

  lemma WeatherStep(ticks: seq<Tick>, k: nat)
    requires k < |ticks| && Dated(ticks)
    ensures var f, g, t := After(ticks, k), After(ticks, k + 1), ticks[k];
      && (if WeatherAsked(ticks, k) && Answered(t.weather) then
            && g.conditions == t.weather.text
            && g.conditionsCell == t.clip.Cell() && g.conditionsHour == t.clip.hour
          else if Jumped(ticks, k) then g.conditions == ""
          else g.conditions == f.conditions && g.conditionsCell == f.conditionsCell && g.conditionsHour == f.conditionsHour)
      && g.conditionsAt == (if WeatherAsked(ticks, k) then Some(t.now) else if CrossedLine(ticks, k) then None else f.conditionsAt)
  {
    if ticks[k].clip.Described() { JumpedMeans(ticks, k); }
  }

  lemma {:induction false} WeatherIsKept(ticks: seq<Tick>, k: nat)
    requires k <= |ticks| && Dated(ticks)
    ensures WeatherKept(ticks, k)
  {
    if k > 0 {
      WeatherIsKept(ticks, k - 1);
      WeatherStep(ticks, k - 1);
    }
  }

  // Held conditions answer for the clip of tick k.
  ghost predicate WeatherServes(ticks: seq<Tick>, m: nat, k: nat)
    requires k < |ticks|
  {
    && Held(WeatherTrace(ticks), m, k) && !Jumped(ticks, k)
    && ticks[m].clip.Cell() == ticks[k].clip.Cell() && ticks[m].clip.hour == ticks[k].clip.hour
  }

  lemma {:induction false} WeatherServesIs(ticks: seq<Tick>, k: nat)
    requires k < |ticks|
    ensures var held := HeldAt(WeatherTrace(ticks), k);
      (exists m: nat :: WeatherServes(ticks, m, k)) <==>
      && held.Some? && !Jumped(ticks, k)
      && ticks[held.value].clip.Cell() == ticks[k].clip.Cell() && ticks[held.value].clip.hour == ticks[k].clip.hour
  {
    var tr := WeatherTrace(ticks);
    HeldAtIsAll(tr, k);
    if HeldAt(tr, k).Some? && !Jumped(ticks, k) {
      var m := HeldAt(tr, k).value;
      if ticks[m].clip.Cell() == ticks[k].clip.Cell() && ticks[m].clip.hour == ticks[k].clip.hour {
        assert WeatherServes(ticks, m, k);
      }
    }
  }

  /** The archive is asked exactly when the clip can be described, no conditions got
      for its cell and hour are held, and no question of the last five minutes
      since a state line holds it up. */
  lemma WeatherAskedIff(ticks: seq<Tick>, k: nat)
    requires k < |ticks| && Dated(ticks)
    ensures WeatherAsked(ticks, k) <==>
      && ticks[k].clip.Described()
      && !(exists m: nat :: WeatherServes(ticks, m, k))
      && !(exists m: nat :: Throttled(ticks, WeatherTrace(ticks), m, k))
  {
    WeatherIsKept(ticks, k);
    JumpedMeans(ticks, k);
    WeatherServesIs(ticks, k);
    ThrottledIs(ticks, WeatherTrace(ticks), k);
  }

  lemma WeatherShown(ticks: seq<Tick>, k: nat)
    requires k < |ticks| && ticks[k].clip.Described()
    ensures Publishes(After(ticks, k), ticks[k]).value.weather == After(ticks, k + 1).conditions
  {
  }

  /** A described clip is shown with the conditions held for its day and state, or
      with none. */
  lemma ShownWeatherIs(ticks: seq<Tick>, k: nat, m: nat)
    requires k < |ticks| && Dated(ticks) && ticks[k].clip.Described()
    ensures var text := Publishes(After(ticks, k), ticks[k]).value.weather;
      && (Held(WeatherTrace(ticks), m, k + 1) ==> text == ticks[m].weather.text)
      && (NothingHeld(WeatherTrace(ticks), k + 1) ==> text == "")
  {
    WeatherShown(ticks, k);
    WeatherIsKept(ticks, k + 1);
    HeldAtIsAll(WeatherTrace(ticks), k + 1);
  }
}
