/** The RainFall object: the screen size, the weather controller's two
    integers, the configured colours and the list of active drops, with the
    operations of one animation tick. The terminal size is passed to the
    constructor and every random draw is passed to the operation that makes
    it. */
module Rainfall {
  import opened Palette
  import opened Drops
  import opened Layout
  import opened Weather

  /** new_drop spawns range(intensity) drops: none for a non-positive value. */
  function SpawnCount(intensity: int): nat {
    if intensity < 0 then 0 else intensity
  }

  /** Draws for one call of new_drop: one glyph of DROPSHAPES, one colour of
      the palette and one column of randint(0, xmax), which includes xmax,
      per spawned drop. */
  predicate SpawnDraws(shapes: seq<string>, colors: seq<string>, xs: seq<int>, count: nat,
                       xmax: int, palette: seq<string>)
  {
    && |shapes| == count && |colors| == count && |xs| == count
    && forall k :: 0 <= k < count ==> shapes[k] in DROPSHAPES && colors[k] in palette && 0 <= xs[k] <= xmax
  }

  /** Draws for the splash colours of one update step: one palette colour per
      drop, used by those that reach the splash rows. */
  predicate SplashDraws(splashColors: seq<string>, count: nat, palette: seq<string>) {
    |splashColors| == count && forall i :: 0 <= i < count ==> splashColors[i] in palette
  }

  class RainFall {
    var xmax: int
    var ymax: int
    var weather: int
    var rainfall: seq<Drop>
    var intensity: int
    var dropColors: seq<string>
    var monochrome: bool

    /** The object invariant: a non-negative screen, the counter in [0, 99],
        colours that can be looked up, and every drop well formed. */
    ghost predicate Valid()
      reads this
    {
      && 0 <= xmax && 0 <= ymax
      && 0 <= weather < 100
      && PaletteUsable(monochrome, dropColors)
      && AllWellFormed(rainfall, xmax, ymax, monochrome, dropColors)
    }

    /** __init__, with the terminal's columns and lines as parameters. */
    constructor (intensity: int, dropColors: seq<string>, monochrome: bool, columns: nat, lines: nat)
      requires PaletteUsable(monochrome, dropColors)
      ensures Valid()
      ensures xmax == columns && ymax == lines && weather == 0 && rainfall == []
      ensures this.intensity == intensity && this.dropColors == dropColors && this.monochrome == monochrome
    {
      xmax := columns;
      ymax := lines;
      weather := 0;
      rainfall := [];
      this.intensity := intensity;
      this.dropColors := dropColors;
      this.monochrome := monochrome;
    }

    /** The rows rain prints: row i holds the drops whose y is i. */
    method Frame() returns (rows: seq<string>)
      requires Valid()
      ensures |rows| == ymax
      ensures forall i :: 0 <= i < ymax ==> rows[i] == Row(OnRow(rainfall, i), xmax)
    {
      WellFormedColumns(rainfall, xmax, ymax, monochrome, dropColors);
      var width: nat := xmax;
      rows := [];
      for i := 0 to ymax
        invariant |rows| == i
        invariant forall j :: 0 <= j < i ==> rows[j] == Row(OnRow(rainfall, j), xmax)
      {
        var line := ComposeRow(rainfall, i, width);
        rows := rows + [line];
      }
    }

    /** new_drop: appends one drop per draw, on row 0, leaving the others. */
    method NewDrop(shapes: seq<string>, colors: seq<string>, xs: seq<int>)
      requires Valid()
      requires SpawnDraws(shapes, colors, xs, SpawnCount(intensity), xmax, dropColors)
      modifies this`rainfall
      ensures Valid()
      ensures |rainfall| == |old(rainfall)| + SpawnCount(intensity)
      ensures rainfall == old(rainfall) + Spawn(shapes, colors, xs, monochrome)
    {
      ghost var before := rainfall;
      for i := 0 to SpawnCount(intensity)
        invariant rainfall == before + Spawn(shapes[..i], colors[..i], xs[..i], monochrome)
      {
        var shape := shapes[i];
        var color := colors[i];
        var raindrop := Drop(xs[i], 0, ColorizeString(monochrome, shape, color));
        assert Spawn(shapes[..i + 1], colors[..i + 1], xs[..i + 1], monochrome)
            == Spawn(shapes[..i], colors[..i], xs[..i], monochrome) + [raindrop];
        rainfall := rainfall + [raindrop];
      }
      assert shapes[..|shapes|] == shapes && colors[..|colors|] == colors && xs[..|xs|] == xs;
      SpawnSpec(shapes, colors, xs, xmax, ymax, monochrome, dropColors);
    }

    /** rain: prints the rows of the current drops, then moves every drop one
        row down (splashing and evaporating as it goes), then spawns new drops.

        The source updates the list while iterating over it and removes an
        expired drop with list.remove, which skips the drop after each removed
        one for that tick and deletes the first equal entry. This model
        deliberately follows the evident intent instead: every drop is
        advanced exactly once, and the expired ones are filtered out into the
        next list. */
    method Rain(splashColors: seq<string>, shapes: seq<string>, colors: seq<string>, xs: seq<int>)
      returns (rows: seq<string>)
      requires Valid()
      requires SplashDraws(splashColors, |rainfall|, dropColors)
      requires SpawnDraws(shapes, colors, xs, SpawnCount(intensity), xmax, dropColors)
      modifies this`rainfall
      ensures Valid()
      ensures |rows| == ymax
      ensures forall i :: 0 <= i < ymax ==> rows[i] == Row(OnRow(old(rainfall), i), xmax)
      ensures forall d :: d in rainfall ==> 0 <= d.y <= ymax && 0 <= d.x <= xmax
      ensures forall d :: d in rainfall && Splashing(d, ymax) ==> IsSplash(d.shape, monochrome, dropColors)
      ensures rainfall == Advance(old(rainfall), ymax, monochrome, splashColors) + Spawn(shapes, colors, xs, monochrome)
    {
      rows := Frame();

      // update raindrop positions
      var next := AdvanceDrops(rainfall, ymax, monochrome, splashColors);
      AdvanceWellFormed(rainfall, xmax, ymax, monochrome, dropColors, splashColors);
      rainfall := next;

      NewDrop(shapes, colors, xs);
    }

    /** weather_forecast: one tick of the weather controller. */
    method WeatherForecast(nudge: int)
      requires Valid() && IsNudge(nudge)
      modifies this`weather, this`intensity
      ensures Valid()
      ensures Forecast(weather, intensity) == Weather.Tick(Forecast(old(weather), old(intensity)), nudge)
      ensures InRange(old(intensity)) ==> InRange(intensity)
    {
      weather := weather + 1;
      if weather == 100 {
        weather := 0;
        intensity := intensity + nudge;
        // clip intensity between 1 and 10
        intensity := Clip(intensity);
      }
    }

    /** One iteration of start_rain's loop: rain, then weather_forecast. */
    method Step(splashColors: seq<string>, shapes: seq<string>, colors: seq<string>, xs: seq<int>, nudge: int)
      returns (rows: seq<string>)
      requires Valid() && IsNudge(nudge)
      requires SplashDraws(splashColors, |rainfall|, dropColors)
      requires SpawnDraws(shapes, colors, xs, SpawnCount(intensity), xmax, dropColors)
      modifies this`rainfall, this`weather, this`intensity
      ensures Valid()
      ensures |rows| == ymax
      ensures forall i :: 0 <= i < ymax ==> rows[i] == Row(OnRow(old(rainfall), i), xmax)
      ensures rainfall == Advance(old(rainfall), ymax, monochrome, splashColors) + Spawn(shapes, colors, xs, monochrome)
      ensures Forecast(weather, intensity) == Weather.Tick(Forecast(old(weather), old(intensity)), nudge)
    {
      rows := Rain(splashColors, shapes, colors, xs);
      WeatherForecast(nudge);
    }
  }
}
