/** The weather controller: a tick counter that wraps at 100 and nudges the
    intensity (drops spawned per tick) by one, within [1, 10], on each wrap. */
module Weather {

  /** The lowest and highest intensity the controller keeps to. */
  const MIN_INTENSITY: int := 1
  const MAX_INTENSITY: int := 10

  /** The counter (the weather field) and the intensity. */
  datatype Forecast = Forecast(weather: int, intensity: int)

  predicate InRange(intensity: int) {
    MIN_INTENSITY <= intensity <= MAX_INTENSITY
  }

  /** The state the controller keeps between ticks once running. */
  predicate Settled(s: Forecast) {
    0 <= s.weather < 100 && InRange(s.intensity)
  }

  /** max(1, min(10, i)). */
  function Clip(i: int): (r: int)
    ensures InRange(r)
    ensures InRange(i) ==> r == i
    ensures i < MIN_INTENSITY ==> r == MIN_INTENSITY
    ensures i > MAX_INTENSITY ==> r == MAX_INTENSITY
  {
    if i < MIN_INTENSITY then MIN_INTENSITY else if i > MAX_INTENSITY then MAX_INTENSITY else i
  }

  /** A nudge drawn by random.choice([-1, 1]). */
  predicate IsNudge(nudge: int) {
    nudge == -1 || nudge == 1
  }

  /** weather_forecast: the counter goes up by one; when it reaches 100 it
      restarts at 0 and the intensity takes the nudge and is clipped. */
  function Tick(s: Forecast, nudge: int): (r: Forecast)
    requires IsNudge(nudge)
    ensures s.weather + 1 != 100 ==> r == Forecast(s.weather + 1, s.intensity)
    ensures s.weather + 1 == 100 ==> r.weather == 0 && InRange(r.intensity)
    ensures s.weather + 1 == 100 && InRange(s.intensity + nudge) ==> r.intensity == s.intensity + nudge
    ensures s.weather + 1 == 100 && InRange(s.intensity) && !InRange(s.intensity + nudge) ==> r.intensity == s.intensity
    ensures InRange(s.intensity) ==> -1 <= r.intensity - s.intensity <= 1
    ensures Settled(s) ==> Settled(r)
  {
    var weather := s.weather + 1;
    if weather == 100 then Forecast(0, Clip(s.intensity + nudge)) else Forecast(weather, s.intensity)
  }

  /** The controller after one tick per nudge, in order. */
  function Run(s: Forecast, nudges: seq<int>): Forecast
    requires forall k :: 0 <= k < |nudges| ==> IsNudge(nudges[k])
  {
    if nudges == [] then s else Tick(Run(s, nudges[..|nudges| - 1]), nudges[|nudges| - 1])
  }

  /** Over any number n of ticks from a settled state: the state stays
      settled, the counter is the start plus n modulo 100, the intensity moves
      by at most one per wrap of the counter, and once the counter has wrapped
      the intensity is in range whatever it was before. */
  lemma {:induction false} RunSpec(s: Forecast, nudges: seq<int>)
    requires forall k :: 0 <= k < |nudges| ==> IsNudge(nudges[k])
    requires 0 <= s.weather < 100
    ensures Run(s, nudges).weather == (s.weather + |nudges|) % 100
    ensures InRange(s.intensity) ==> Settled(Run(s, nudges))
    ensures InRange(s.intensity) ==>
              -((s.weather + |nudges|) / 100) <= Run(s, nudges).intensity - s.intensity <= (s.weather + |nudges|) / 100
    ensures s.weather + |nudges| < 100 ==> Run(s, nudges) == Forecast(s.weather + |nudges|, s.intensity)
    ensures s.weather + |nudges| >= 100 ==> InRange(Run(s, nudges).intensity)
  {
    if nudges != [] {
      var n := |nudges| - 1;
      var prev := nudges[..n];
      RunSpec(s, prev);
      var t := Run(s, prev);
      assert Run(s, nudges) == Tick(t, nudges[n]);
      var m := s.weather + n;
      if t.weather + 1 == 100 {
        assert (m + 1) / 100 == m / 100 + 1;
        assert (m + 1) % 100 == 0;
      } else {
        assert (m + 1) / 100 == m / 100;
        assert (m + 1) % 100 == m % 100 + 1;
      }
    }
  }
}
