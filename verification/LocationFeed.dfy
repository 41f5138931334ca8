/**
  The clip-data feed and its two throttled caches (pkg/locationfeed/locationfeed.go).
  Times are nanoseconds; a lookup time of None is Go's zero time, longer ago than
  any throttle. The geocoder's and the archive's answers are parameters.
*/
module LocationFeed {
  import opened Wrappers

  const LOOKUP_THROTTLE := 300_000_000_000
  const LOOKUP_CELL := 0.05

  // What the feed reads of the playing clip: day and hour are local to the footage.
  datatype Clip = Clip(flagged: bool, located: bool, dated: bool, lat: real, lng: real,
                       day: string, hour: string, state: string, city: string, place: string)
  {
    predicate Described() { !flagged && located && dated }

    function Cell(): (int, int) { ((lat / LOOKUP_CELL).Floor, (lng / LOOKUP_CELL).Floor) }
  }

  datatype Answer = Failed | Got(text: string)

  datatype Display = Display(place: string, state: string, day: string, weather: string)

  datatype Feed = Feed(day: string, state: string,
                       city: string, cityCell: (int, int), cityAt: Option<int>,
                       conditions: string, conditionsCell: (int, int), conditionsHour: string, conditionsAt: Option<int>)

  const EMPTY := Feed("", "", "", (0, 0), None, "", (0, 0), "", None)

  predicate Elapsed(at: Option<int>, now: int) {
    at == None || now - at.value > LOOKUP_THROTTLE
  }

  // The footage moved to another state within its day.
  predicate StateLine(f: Feed, c: Clip) {
    c.day == f.day && c.state != f.state
  }

  function InvalidateOnJump(f: Feed, c: Clip): Feed {
    if c.day == f.day && c.state == f.state then f
    else
      var g := f.(day := c.day, state := c.state, city := "", conditions := "");
      if c.day == f.day then g.(cityAt := None, conditionsAt := None) else g
  }

  predicate AsksCity(f: Feed, c: Clip, now: int) {
    c.city == "" && (f.city == "" || c.Cell() != f.cityCell) && Elapsed(f.cityAt, now)
  }

  function WithCity(f: Feed, c: Clip, now: int, geo: Answer): Feed {
    if !AsksCity(f, c, now) then f
    else
      var g := f.(cityAt := Some(now));
      if geo.Got? && geo.text != "" then g.(city := geo.text, cityCell := c.Cell()) else g
  }

  function Place(f: Feed, c: Clip): string {
    if c.city != "" then c.place else if f.city != "" then f.city else c.state
  }

  predicate AsksWeather(f: Feed, c: Clip, now: int) {
    (f.conditions == "" || c.Cell() != f.conditionsCell || c.hour != f.conditionsHour) && Elapsed(f.conditionsAt, now)
  }

  function WithConditions(f: Feed, c: Clip, now: int, weather: Answer): Feed {
    if !AsksWeather(f, c, now) then f
    else
      var g := f.(conditionsAt := Some(now));
      if weather.Got? && weather.text != ""
      then g.(conditions := weather.text, conditionsCell := c.Cell(), conditionsHour := c.hour) else g
  }

  // One call of Emit, with the answers the services would give.
  datatype Tick = Tick(clip: Clip, now: int, geo: Answer, weather: Answer)

  function Step(f: Feed, t: Tick): Feed {
    if !t.clip.Described() then f
    else WithConditions(WithCity(InvalidateOnJump(f, t.clip), t.clip, t.now, t.geo), t.clip, t.now, t.weather)
  }

  function Publishes(f: Feed, t: Tick): Option<Display> {
    if !t.clip.Described() then None
    else
      var g := Step(f, t);
      Some(Display(Place(g, t.clip), t.clip.state, t.clip.day, g.conditions))
  }

  class Emitter {
    var day: string
    var state: string
    var city: string
    var cityCell: (int, int)
    var cityAt: Option<int>
    var conditions: string
    var conditionsCell: (int, int)
    var conditionsHour: string
    var conditionsAt: Option<int>

    constructor ()
      ensures View() == EMPTY
    {
      day, state, city, cityCell, cityAt := "", "", "", (0, 0), None;
      conditions, conditionsCell, conditionsHour, conditionsAt := "", (0, 0), "", None;
    }

    function View(): Feed
      reads this
    {
      Feed(day, state, city, cityCell, cityAt, conditions, conditionsCell, conditionsHour, conditionsAt)
    }

    method Invalidate(c: Clip)
      modifies this
      ensures View() == InvalidateOnJump(old(View()), c)
    {
      var sameDay := c.day == day;
      if sameDay && c.state == state {
        return;
      }
      day, state := c.day, c.state;
      city, conditions := "", "";
      if sameDay {
        cityAt, conditionsAt := None, None;
      }
    }

    method PlaceOf(c: Clip, now: int, geo: Answer) returns (place: string)
      modifies this
      ensures View() == WithCity(old(View()), c, now, geo) && place == Place(View(), c)
    {
      if c.city != "" {
        return c.place;
      }
      if (city == "" || c.Cell() != cityCell) && Elapsed(cityAt, now) {
        cityAt := Some(now);
        if geo.Got? && geo.text != "" {
          city, cityCell := geo.text, c.Cell();
        }
      }
      return if city != "" then city else c.state;
    }

    method ConditionsFor(c: Clip, now: int, weather: Answer) returns (text: string)
      modifies this
      ensures View() == WithConditions(old(View()), c, now, weather) && text == conditions
    {
      var stale := conditions == "" || c.Cell() != conditionsCell || c.hour != conditionsHour;
      if stale && Elapsed(conditionsAt, now) {
        conditionsAt := Some(now);
        if weather.Got? && weather.text != "" {
          conditions, conditionsCell, conditionsHour := weather.text, c.Cell(), c.hour;
        }
      }
      text := conditions;
    }

    method Emit(t: Tick) returns (published: Option<Display>)
      modifies this
      ensures View() == Step(old(View()), t) && published == Publishes(old(View()), t)
    {
      if !t.clip.Described() {
        return None;
      }
      Invalidate(t.clip);
      var place := PlaceOf(t.clip, t.now, t.geo);
      var text := ConditionsFor(t.clip, t.now, t.weather);
      return Some(Display(place, t.clip.state, t.clip.day, text));
    }
  }

  // ----- whole runs

  function After(ticks: seq<Tick>, k: nat): Feed
    requires k <= |ticks|
  {
    if k == 0 then EMPTY else Step(After(ticks, k - 1), ticks[k - 1])
  }

  // Call k asks the geocoder, or the archive.
  predicate CityAsked(ticks: seq<Tick>, k: nat)
    requires k < |ticks|
  {
    var t := ticks[k];
    t.clip.Described() && AsksCity(InvalidateOnJump(After(ticks, k), t.clip), t.clip, t.now)
  }

  predicate WeatherAsked(ticks: seq<Tick>, k: nat)
    requires k < |ticks|
  {
    var t := ticks[k];
    && t.clip.Described()
    && AsksWeather(WithCity(InvalidateOnJump(After(ticks, k), t.clip), t.clip, t.now, t.geo), t.clip, t.now)
  }

  predicate StateLineCrossed(ticks: seq<Tick>, k: nat)
    requires k < |ticks|
  {
    ticks[k].clip.Described() && StateLine(After(ticks, k), ticks[k].clip)
  }

  // Call m fetched what f has cached, for footage of f's day and state.
  ghost predicate CityFetched(ticks: seq<Tick>, m: nat, f: Feed) {
    && m < |ticks| && CityAsked(ticks, m) && ticks[m].geo == Got(f.city)
    && ticks[m].clip.day == f.day && ticks[m].clip.state == f.state && ticks[m].clip.Cell() == f.cityCell
  }

  ghost predicate WeatherFetched(ticks: seq<Tick>, m: nat, f: Feed) {
    && m < |ticks| && WeatherAsked(ticks, m) && ticks[m].weather == Got(f.conditions)
    && ticks[m].clip.day == f.day && ticks[m].clip.state == f.state
    && ticks[m].clip.Cell() == f.conditionsCell && ticks[m].clip.hour == f.conditionsHour
  }

  /** At any moment a cached city was fetched for footage with the local day and
      the state that the feed stands at. */
  lemma {:induction false} CityIsCurrent(ticks: seq<Tick>, k: nat) returns (m: nat)
    requires k <= |ticks| && After(ticks, k).city != ""
    ensures m < k && CityFetched(ticks, m, After(ticks, k))
  {
    var t := ticks[k - 1];
    var f, g := After(ticks, k - 1), After(ticks, k);
    if CityAsked(ticks, k - 1) && t.geo.Got? && t.geo.text != "" {
      m := k - 1;
    } else {
      assert g.city == f.city && g.cityCell == f.cityCell && g.day == f.day && g.state == f.state;
      m := CityIsCurrent(ticks, k - 1);
    }
  }

  /** And so were the cached conditions, for the cell and hour they are kept for. */
  lemma {:induction false} ConditionsAreCurrent(ticks: seq<Tick>, k: nat) returns (m: nat)
    requires k <= |ticks| && After(ticks, k).conditions != ""
    ensures m < k && WeatherFetched(ticks, m, After(ticks, k))
  {
    var t := ticks[k - 1];
    var f, g := After(ticks, k - 1), After(ticks, k);
    if WeatherAsked(ticks, k - 1) && t.weather.Got? && t.weather.text != "" {
      m := k - 1;
    } else {
      assert g.conditions == f.conditions && g.conditionsCell == f.conditionsCell && g.conditionsHour == f.conditionsHour;
      assert g.day == f.day && g.state == f.state;
      m := ConditionsAreCurrent(ticks, k - 1);
    }
  }

  lemma StandsAtTheClip(ticks: seq<Tick>, k: nat)
    requires k < |ticks| && ticks[k].clip.Described()
    ensures After(ticks, k + 1).day == ticks[k].clip.day && After(ticks, k + 1).state == ticks[k].clip.state
  {
  }

  /** So a place that is neither the clip's own row nor its state was fetched for
      footage of the clip's own day and state. */
  lemma ShownPlaceIsAboutTheClip(ticks: seq<Tick>, k: nat) returns (m: nat)
    requires k < |ticks| && ticks[k].clip.Described()
    ensures var c, place := ticks[k].clip, Publishes(After(ticks, k), ticks[k]).value.place;
      if c.city != "" then place == c.place
      else place == c.state || (m <= k < |ticks| && CityAsked(ticks, m) && ticks[m].geo == Got(place)
                                && ticks[m].clip.day == c.day && ticks[m].clip.state == c.state)
  {
    m := 0;
    StandsAtTheClip(ticks, k);
    if After(ticks, k + 1).city != "" { m := CityIsCurrent(ticks, k + 1); }
  }

  /** And the weather shown with a clip is empty, or was. */
  lemma ShownWeatherIsAboutTheClip(ticks: seq<Tick>, k: nat) returns (m: nat)
    requires k < |ticks| && ticks[k].clip.Described()
    ensures var c, text := ticks[k].clip, Publishes(After(ticks, k), ticks[k]).value.weather;
      text == "" || (m <= k < |ticks| && WeatherAsked(ticks, m) && ticks[m].weather == Got(text)
                     && ticks[m].clip.day == c.day && ticks[m].clip.state == c.state)
  {
    m := 0;
    StandsAtTheClip(ticks, k);
    if After(ticks, k + 1).conditions != "" { m := ConditionsAreCurrent(ticks, k + 1); }
  }

  // ----- how often the services are asked

  lemma {:induction false} CityTimeKept(ticks: seq<Tick>, m: nat, k: nat)
    requires m < k <= |ticks| && CityAsked(ticks, m)
    requires forall j :: m < j < k ==> !CityAsked(ticks, j) && !StateLineCrossed(ticks, j)
    ensures After(ticks, k).cityAt == Some(ticks[m].now)
    decreases k
  {
    if m < k - 1 {
      CityTimeKept(ticks, m, k - 1);
      assert !CityAsked(ticks, k - 1) && !StateLineCrossed(ticks, k - 1);
    }
  }

  lemma {:induction false} WeatherTimeKept(ticks: seq<Tick>, m: nat, k: nat)
    requires m < k <= |ticks| && WeatherAsked(ticks, m)
    requires forall j :: m < j < k ==> !WeatherAsked(ticks, j) && !StateLineCrossed(ticks, j)
    ensures After(ticks, k).conditionsAt == Some(ticks[m].now)
    decreases k
  {
    if m < k - 1 {
      WeatherTimeKept(ticks, m, k - 1);
      assert !WeatherAsked(ticks, k - 1) && !StateLineCrossed(ticks, k - 1);
    }
  }

  /** Two consecutive questions to the geocoder are more than the throttle apart,
      unless the footage crossed a state line within its day in between. */
  lemma CityLookupsAreSpaced(ticks: seq<Tick>, m: nat, n: nat)
    requires m < n < |ticks| && CityAsked(ticks, m) && CityAsked(ticks, n)
    requires forall j :: m < j < n ==> !CityAsked(ticks, j)
    ensures ticks[n].now - ticks[m].now > LOOKUP_THROTTLE || exists j: nat :: m < j <= n && StateLineCrossed(ticks, j)
  {
    if forall j: nat :: m < j <= n ==> !StateLineCrossed(ticks, j) {
      CityTimeKept(ticks, m, n);
      assert !StateLineCrossed(ticks, n);
    }
  }

  /** And so are two consecutive questions to the weather archive. */
  lemma WeatherLookupsAreSpaced(ticks: seq<Tick>, m: nat, n: nat)
    requires m < n < |ticks| && WeatherAsked(ticks, m) && WeatherAsked(ticks, n)
    requires forall j :: m < j < n ==> !WeatherAsked(ticks, j)
    ensures ticks[n].now - ticks[m].now > LOOKUP_THROTTLE || exists j: nat :: m < j <= n && StateLineCrossed(ticks, j)
  {
    if forall j: nat :: m < j <= n ==> !StateLineCrossed(ticks, j) {
      WeatherTimeKept(ticks, m, n);
      assert !StateLineCrossed(ticks, n);
    }
  }

  /** A burst of jumps to other days cannot get round the throttle: two questions
      to the geocoder, with any number of others between them, stay spaced
      through footage that does not change state within a day after the first. */
  lemma {:induction false} BurstsStayThrottled(ticks: seq<Tick>, m: nat, n: nat)
    requires m < n < |ticks| && CityAsked(ticks, m) && CityAsked(ticks, n)
    requires forall i, j :: m <= i < j <= n ==> ticks[i].now <= ticks[j].now
    requires forall j :: m < j <= n ==> !StateLineCrossed(ticks, j)
    ensures ticks[n].now - ticks[m].now > LOOKUP_THROTTLE
    decreases n
  {
    if k: nat :| m < k < n && CityAsked(ticks, k) {
      BurstsStayThrottled(ticks, m, k);
    } else {
      CityLookupsAreSpaced(ticks, m, n);
    }
  }

  /** And neither do questions to the weather archive come closer. */
  lemma {:induction false} WeatherBurstsStayThrottled(ticks: seq<Tick>, m: nat, n: nat)
    requires m < n < |ticks| && WeatherAsked(ticks, m) && WeatherAsked(ticks, n)
    requires forall i, j :: m <= i < j <= n ==> ticks[i].now <= ticks[j].now
    requires forall j :: m < j <= n ==> !StateLineCrossed(ticks, j)
    ensures ticks[n].now - ticks[m].now > LOOKUP_THROTTLE
    decreases n
  {
    if k: nat :| m < k < n && WeatherAsked(ticks, k) {
      WeatherBurstsStayThrottled(ticks, m, k);
    } else {
      WeatherLookupsAreSpaced(ticks, m, n);
    }
  }
}
