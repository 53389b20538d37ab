/** Raindrops and what one tick does to them: every drop moves one row down,
    turns into a splash near the floor and evaporates below it; new drops are
    spawned at the top row. */
module Drops {
  import opened Palette

  /** One raindrop: its column, its row and the (possibly colourised) string
      drawn for it. */
  datatype Drop = Drop(x: int, y: int, shape: string)

  /** The glyphs a falling drop may take. */
  const DROPSHAPES: seq<string> := ["|", "\U{2502}", "\U{2503}", "\U{257D}", "\U{257F}", "\U{2551}",
                                    "\U{2506}", "\U{2507}", "\U{250A}", "\U{250B}", "\U{2575}",
                                    "\U{2579}", "\U{257B}"]

  /** The glyph of a drop that hits the ground. */
  const SPLASH: string := "o"

  /** Every colour of the palette may be used under the mode. */
  predicate PaletteUsable(monochrome: bool, palette: seq<string>) {
    forall c :: c in palette ==> Usable(monochrome, c)
  }

  /** The drop string shows a falling glyph in a palette colour. */
  ghost predicate IsFalling(s: string, monochrome: bool, palette: seq<string>) {
    exists g, c :: g in DROPSHAPES && c in palette && Usable(monochrome, c)
                   && s == ColorizeString(monochrome, g, c)
  }

  /** The drop string shows the splash glyph in a palette colour. */
  ghost predicate IsSplash(s: string, monochrome: bool, palette: seq<string>) {
    exists c :: c in palette && Usable(monochrome, c) && s == ColorizeString(monochrome, SPLASH, c)
  }

  /** A drop has reached the splash rows: it has fallen at least once and
      stands on one of the two bottom rows or below. */
  predicate Splashing(d: Drop, ymax: int) {
    d.y >= 1 && d.y >= ymax - 1
  }

  /** What holds of every drop in the field between ticks: the column lies in
      [0, xmax] (the spawn range includes xmax), the row in [0, ymax], and the
      string is a splash exactly on the splash rows. */
  ghost predicate WellFormed(d: Drop, xmax: int, ymax: int, monochrome: bool, palette: seq<string>) {
    && 0 <= d.x <= xmax
    && 0 <= d.y <= ymax
    && (if Splashing(d, ymax) then IsSplash(d.shape, monochrome, palette)
        else IsFalling(d.shape, monochrome, palette))
  }

  ghost predicate AllWellFormed(ds: seq<Drop>, xmax: int, ymax: int, monochrome: bool, palette: seq<string>) {
    forall d :: d in ds ==> WellFormed(d, xmax, ymax, monochrome, palette)
  }

  /** Every well-formed drop lies in the columns [0, xmax]. */
  lemma WellFormedColumns(ds: seq<Drop>, xmax: int, ymax: int, monochrome: bool, palette: seq<string>)
    requires AllWellFormed(ds, xmax, ymax, monochrome, palette)
    ensures forall d :: d in ds ==> 0 <= d.x <= xmax
  {
    forall d | d in ds
      ensures 0 <= d.x <= xmax
    {
      assert WellFormed(d, xmax, ymax, monochrome, palette);
    }
  }

  /** One drop after one tick: one row lower, and given the splash glyph in
      the drawn colour once the new row is past ymax - 2. */
  function Fallen(d: Drop, ymax: int, monochrome: bool, color: string): (r: Drop)
    requires Usable(monochrome, color)
  {
    var y := d.y + 1;
    Drop(d.x, y, if y > ymax - 2 then ColorizeString(monochrome, SPLASH, color) else d.shape)
  }

  /** The drop is still on the screen or on the row just below it. */
  predicate Survives(d: Drop, ymax: int) {
    d.y <= ymax
  }

  /** The field after the update step: every drop advanced once (drop i draws
      colors[i] if it splashes) and those below ymax dropped, in order. */
  function Advance(ds: seq<Drop>, ymax: int, monochrome: bool, colors: seq<string>): seq<Drop>
    requires |colors| == |ds| && forall i :: 0 <= i < |colors| ==> Usable(monochrome, colors[i])
  {
    if ds == [] then []
    else
      var n := |ds| - 1;
      var d := Fallen(ds[n], ymax, monochrome, colors[n]);
      Advance(ds[..n], ymax, monochrome, colors[..n]) + (if Survives(d, ymax) then [d] else [])
  }

  /** Advance over the first i + 1 drops is Advance over the first i and then
      drop i. */
  lemma AdvancePrefixStep(ds: seq<Drop>, ymax: int, monochrome: bool, colors: seq<string>, i: int)
    requires |colors| == |ds| && forall i :: 0 <= i < |colors| ==> Usable(monochrome, colors[i])
    requires 0 <= i < |ds|
    ensures Advance(ds[..i + 1], ymax, monochrome, colors[..i + 1])
         == Advance(ds[..i], ymax, monochrome, colors[..i])
            + (if Survives(Fallen(ds[i], ymax, monochrome, colors[i]), ymax)
               then [Fallen(ds[i], ymax, monochrome, colors[i])] else [])
  {
    assert ds[..i + 1][..i] == ds[..i] && colors[..i + 1][..i] == colors[..i];
    AdvanceUnfold(ds[..i + 1], ymax, monochrome, colors[..i + 1]);
  }

  /** The update loop of rain: walks the drops by index, moves each one row
      down, gives it the splash glyph past row ymax - 2 and keeps it only
      while it is not below ymax. */
  method AdvanceDrops(rainfall: seq<Drop>, ymax: int, monochrome: bool, splashColors: seq<string>)
    returns (next: seq<Drop>)
    requires |splashColors| == |rainfall| && forall i :: 0 <= i < |splashColors| ==> Usable(monochrome, splashColors[i])
    ensures next == Advance(rainfall, ymax, monochrome, splashColors)
  {
    next := [];
    for i := 0 to |rainfall|
      invariant next == Advance(rainfall[..i], ymax, monochrome, splashColors[..i])
    {
      var raindrop := rainfall[i];
      var y := raindrop.y + 1;
      var shape := raindrop.shape;
      // once a raindrop reaches the ground, it splashes
      if y > ymax - 2 {
        shape := ColorizeString(monochrome, SPLASH, splashColors[i]);
      }
      raindrop := Drop(raindrop.x, y, shape);
      assert raindrop == Fallen(rainfall[i], ymax, monochrome, splashColors[i]);
      AdvancePrefixStep(rainfall, ymax, monochrome, splashColors, i);
      // raindrops outside the window evaporate
      if raindrop.y <= ymax {
        next := next + [raindrop];
      }
    }
    assert rainfall[..|rainfall|] == rainfall && splashColors[..|splashColors|] == splashColors;
  }

  /** r is s without its entry k, which is the first entry equal to d. */
  predicate RemovedAt(s: seq<Drop>, d: Drop, k: int, r: seq<Drop>) {
    0 <= k < |s| && s[k] == d && d !in s[..k] && r == s[..k] + s[k + 1..]
  }

  /** Removing the first d from s[1..] at k, when s[0] is not d, removes it
      from s at k + 1. */
  lemma RemovedAtCons(s: seq<Drop>, d: Drop, k: int, r: seq<Drop>)
    requires s != [] && s[0] != d && RemovedAt(s[1..], d, k, r)
    ensures RemovedAt(s, d, k + 1, [s[0]] + r)
  {
    assert s[..k + 1] == [s[0]] + s[1..][..k];
    assert s[k + 2..] == s[1..][k + 1..];
  }

  /** list.remove: deletes the first entry equal to d and keeps the others in
      order. */
  function RemoveFirst(s: seq<Drop>, d: Drop): (r: seq<Drop>)
    requires d in s
    ensures |r| == |s| - 1
    ensures exists k :: RemovedAt(s, d, k, r)
  {
    if s[0] == d then
      assert RemovedAt(s, d, 0, s[1..]) by { assert s[..0] == []; }
      s[1..]
    else
      var r' := RemoveFirst(s[1..], d);
      ghost var k :| RemovedAt(s[1..], d, k, r');
      RemovedAtCons(s, d, k, r');
      [s[0]] + r'
  }

  /** The update loop exactly as the source runs it: Python's for loop walks
      an index over the list while the body advances the drop in place and
      removes the first entry equal to an expired drop, so the drop after a
      removed one moves into the visited index and is not advanced this
      tick. Every splash uses the one colour given. */
  function UpdateAsWritten(ds: seq<Drop>, idx: nat, ymax: int, monochrome: bool, color: string): seq<Drop>
    requires Usable(monochrome, color)
    decreases |ds| - idx
  {
    if idx >= |ds| then ds
    else
      var d := Fallen(ds[idx], ymax, monochrome, color);
      var ds' := ds[idx := d];
      assert ds'[idx] == d;
      if d.y > ymax then UpdateAsWritten(RemoveFirst(ds', d), idx + 1, ymax, monochrome, color)
      else UpdateAsWritten(ds', idx + 1, ymax, monochrome, color)
  }

  /** Two drops on the row below the screen: the source removes the first and
      then skips the second, which stays where it was for this tick, while
      the intended update advances both and removes both. */
  lemma UpdateAsWrittenSkips()
    ensures UpdateAsWritten([Drop(0, 5, "o"), Drop(1, 5, "o")], 0, 5, true, "") == [Drop(1, 5, "o")]
    ensures Advance([Drop(0, 5, "o"), Drop(1, 5, "o")], 5, true, ["", ""]) == []
  {
    var a, b := Drop(0, 5, "o"), Drop(1, 5, "o");
    var a' := Fallen(a, 5, true, "");
    assert a' == Drop(0, 6, "o");
    assert [a, b][0 := a'] == [a', b];
    assert RemoveFirst([a', b], a') == [b];
    assert UpdateAsWritten([b], 1, 5, true, "") == [b];
    assert [a, b][..1] == [a];
    assert Advance([a], 5, true, [""]) == [] by {
      assert [a][..0] == [];
    }
  }

  /** The drops spawned by one call of new_drop: drop k is drawn in column
      xs[k] on row 0 with glyph shapes[k] coloured colors[k]. */
  function Spawn(shapes: seq<string>, colors: seq<string>, xs: seq<int>, monochrome: bool): seq<Drop>
    requires |shapes| == |colors| == |xs|
    requires forall k :: 0 <= k < |colors| ==> Usable(monochrome, colors[k])
  {
    seq(|xs|, k requires 0 <= k < |xs| => Drop(xs[k], 0, ColorizeString(monochrome, shapes[k], colors[k])))
  }

  lemma AdvanceUnfold(ds: seq<Drop>, ymax: int, monochrome: bool, colors: seq<string>)
    requires |colors| == |ds| && forall i :: 0 <= i < |colors| ==> Usable(monochrome, colors[i])
    requires ds != []
    ensures Advance(ds, ymax, monochrome, colors)
         == Advance(ds[..|ds| - 1], ymax, monochrome, colors[..|ds| - 1])
            + (if Survives(Fallen(ds[|ds| - 1], ymax, monochrome, colors[|ds| - 1]), ymax)
               then [Fallen(ds[|ds| - 1], ymax, monochrome, colors[|ds| - 1])] else [])
  {
  }

  /** Nothing the update step returns is below ymax, and every drop it
      returns is some input drop moved one row down in the same column (with
      a splash glyph when it reached the splash rows). */
  lemma {:induction false} AdvanceSound(ds: seq<Drop>, ymax: int, monochrome: bool, colors: seq<string>)
    requires |colors| == |ds| && forall i :: 0 <= i < |colors| ==> Usable(monochrome, colors[i])
    ensures |Advance(ds, ymax, monochrome, colors)| <= |ds|
    ensures forall d :: d in Advance(ds, ymax, monochrome, colors) ==>
              d.y <= ymax && exists i :: 0 <= i < |ds| && d == Fallen(ds[i], ymax, monochrome, colors[i])
  {
    if ds != [] {
      var n := |ds| - 1;
      var pre, cpre := ds[..n], colors[..n];
      AdvanceSound(pre, ymax, monochrome, cpre);
      AdvanceUnfold(ds, ymax, monochrome, colors);
      forall e | e in Advance(ds, ymax, monochrome, colors)
        ensures e.y <= ymax && exists i :: 0 <= i < |ds| && e == Fallen(ds[i], ymax, monochrome, colors[i])
      {
        if e in Advance(pre, ymax, monochrome, cpre) {
          var i :| 0 <= i < |pre| && e == Fallen(pre[i], ymax, monochrome, cpre[i]);
          assert pre[i] == ds[i] && cpre[i] == colors[i];
        }
      }
    }
  }

  /** A drop that the update step keeps from a prefix is kept from the whole. */
  lemma AdvanceKeepsFront(ds: seq<Drop>, ymax: int, monochrome: bool, colors: seq<string>, e: Drop)
    requires |colors| == |ds| && forall i :: 0 <= i < |colors| ==> Usable(monochrome, colors[i])
    requires ds != []
    ensures e in Advance(ds[..|ds| - 1], ymax, monochrome, colors[..|ds| - 1]) ==> e in Advance(ds, ymax, monochrome, colors)
  {
    var n := |ds| - 1;
    if e in Advance(ds[..n], ymax, monochrome, colors[..n]) {
      AdvanceUnfold(ds, ymax, monochrome, colors);
      var last := Fallen(ds[n], ymax, monochrome, colors[n]);
      assert e in Advance(ds[..n], ymax, monochrome, colors[..n]) + (if Survives(last, ymax) then [last] else []);
    }
  }

  /** The last drop is kept when it is still at most at ymax after falling. */
  lemma AdvanceKeepsLast(ds: seq<Drop>, ymax: int, monochrome: bool, colors: seq<string>)
    requires |colors| == |ds| && forall i :: 0 <= i < |colors| ==> Usable(monochrome, colors[i])
    requires ds != [] && ds[|ds| - 1].y + 1 <= ymax
    ensures Fallen(ds[|ds| - 1], ymax, monochrome, colors[|ds| - 1]) in Advance(ds, ymax, monochrome, colors)
  {
    var n := |ds| - 1;
    AdvanceUnfold(ds, ymax, monochrome, colors);
    var last := Fallen(ds[n], ymax, monochrome, colors[n]);
    assert last.y == ds[n].y + 1;
    assert last in Advance(ds[..n], ymax, monochrome, colors[..n]) + [last];
  }

  /** Every input drop that is still on the screen or the row below it after
      moving one row down is in the result of the update step. */
  lemma {:induction false} AdvanceComplete(ds: seq<Drop>, ymax: int, monochrome: bool, colors: seq<string>)
    requires |colors| == |ds| && forall i :: 0 <= i < |colors| ==> Usable(monochrome, colors[i])
    ensures forall i :: 0 <= i < |ds| && ds[i].y + 1 <= ymax ==>
              Fallen(ds[i], ymax, monochrome, colors[i]) in Advance(ds, ymax, monochrome, colors)
  {
    if ds != [] {
      var n := |ds| - 1;
      var pre, cpre := ds[..n], colors[..n];
      AdvanceComplete(pre, ymax, monochrome, cpre);
      forall i | 0 <= i < |ds| && ds[i].y + 1 <= ymax
        ensures Fallen(ds[i], ymax, monochrome, colors[i]) in Advance(ds, ymax, monochrome, colors)
      {
        if i < n {
          assert pre[i] == ds[i] && cpre[i] == colors[i];
          AdvanceKeepsFront(ds, ymax, monochrome, colors, Fallen(ds[i], ymax, monochrome, colors[i]));
        } else {
          AdvanceKeepsLast(ds, ymax, monochrome, colors);
        }
      }
    }
  }

  /** Every drop after one fall, in order, before the expired ones are
      dropped. */
  function AllFallen(ds: seq<Drop>, ymax: int, monochrome: bool, colors: seq<string>): (r: seq<Drop>)
    requires |colors| == |ds| && forall i :: 0 <= i < |colors| ==> Usable(monochrome, colors[i])
    ensures |r| == |ds|
  {
    seq(|ds|, i requires 0 <= i < |ds| => Fallen(ds[i], ymax, monochrome, colors[i]))
  }

  lemma AllFallenSnoc(ds: seq<Drop>, ymax: int, monochrome: bool, colors: seq<string>)
    requires |colors| == |ds| && forall i :: 0 <= i < |colors| ==> Usable(monochrome, colors[i])
    requires ds != []
    ensures AllFallen(ds, ymax, monochrome, colors)
         == AllFallen(ds[..|ds| - 1], ymax, monochrome, colors[..|ds| - 1])
            + [Fallen(ds[|ds| - 1], ymax, monochrome, colors[|ds| - 1])]
  {
    var n := |ds| - 1;
    var a := AllFallen(ds, ymax, monochrome, colors);
    var b := AllFallen(ds[..n], ymax, monochrome, colors[..n]) + [Fallen(ds[n], ymax, monochrome, colors[n])];
    forall i | 0 <= i < |a|
      ensures a[i] == b[i]
    {
      if i < n {
        assert ds[..n][i] == ds[i] && colors[..n][i] == colors[i];
      }
    }
  }

  /** Exactly once: each drop after its fall occurs in the result of the update
      step as often as it occurs among the fallen drops when it survives, and
      not at all otherwise; equal drops are neither merged nor duplicated. */
  lemma {:induction false} AdvanceCount(ds: seq<Drop>, ymax: int, monochrome: bool, colors: seq<string>)
    requires |colors| == |ds| && forall i :: 0 <= i < |colors| ==> Usable(monochrome, colors[i])
    ensures forall e :: multiset(Advance(ds, ymax, monochrome, colors))[e]
                        == if Survives(e, ymax) then multiset(AllFallen(ds, ymax, monochrome, colors))[e] else 0
  {
    if ds != [] {
      var n := |ds| - 1;
      var pre, cpre := ds[..n], colors[..n];
      AdvanceCount(pre, ymax, monochrome, cpre);
      AdvanceUnfold(ds, ymax, monochrome, colors);
      AllFallenSnoc(ds, ymax, monochrome, colors);
      var last := Fallen(ds[n], ymax, monochrome, colors[n]);
      var back := if Survives(last, ymax) then [last] else [];
      assert multiset(Advance(ds, ymax, monochrome, colors))
          == multiset(Advance(pre, ymax, monochrome, cpre)) + multiset(back);
      assert multiset(AllFallen(ds, ymax, monochrome, colors))
          == multiset(AllFallen(pre, ymax, monochrome, cpre)) + multiset([last]);
    }
  }

  /** When no drop expires, the update step is the fallen drops in order. */
  lemma {:induction false} AdvanceAllSurvive(ds: seq<Drop>, ymax: int, monochrome: bool, colors: seq<string>)
    requires |colors| == |ds| && forall i :: 0 <= i < |colors| ==> Usable(monochrome, colors[i])
    requires forall i :: 0 <= i < |ds| ==> ds[i].y + 1 <= ymax
    ensures Advance(ds, ymax, monochrome, colors) == AllFallen(ds, ymax, monochrome, colors)
  {
    if ds != [] {
      var n := |ds| - 1;
      AdvanceAllSurvive(ds[..n], ymax, monochrome, colors[..n]);
      AdvanceUnfold(ds, ymax, monochrome, colors);
      AllFallenSnoc(ds, ymax, monochrome, colors);
    }
  }

  lemma AllFallenCons(ds: seq<Drop>, ymax: int, monochrome: bool, colors: seq<string>)
    requires |colors| == |ds| && forall i :: 0 <= i < |colors| ==> Usable(monochrome, colors[i])
    requires ds != []
    ensures AllFallen(ds, ymax, monochrome, colors)
         == [Fallen(ds[0], ymax, monochrome, colors[0])] + AllFallen(ds[1..], ymax, monochrome, colors[1..])
  {
    var a := AllFallen(ds, ymax, monochrome, colors);
    var b := [Fallen(ds[0], ymax, monochrome, colors[0])] + AllFallen(ds[1..], ymax, monochrome, colors[1..]);
    forall i | 0 <= i < |a|
      ensures a[i] == b[i]
    {
      if i > 0 {
        assert ds[1..][i - 1] == ds[i] && colors[1..][i - 1] == colors[i];
      }
    }
  }

  /** n copies of one colour: the splash draws of the loop as written. */
  function Repeat(color: string, n: nat): (r: seq<string>)
    ensures |r| == n && forall i :: 0 <= i < n ==> r[i] == color
  {
    seq(n, _ => color)
  }

  /** One visit of the loop as written to a drop that does not expire. */
  lemma UpdateAsWrittenStep(ds: seq<Drop>, idx: nat, ymax: int, monochrome: bool, color: string)
    requires Usable(monochrome, color) && idx < |ds| && ds[idx].y + 1 <= ymax
    ensures UpdateAsWritten(ds, idx, ymax, monochrome, color)
         == UpdateAsWritten(ds[idx := Fallen(ds[idx], ymax, monochrome, color)], idx + 1, ymax, monochrome, color)
  {
  }

  /** Advancing drop idx in place and then the drops after it is advancing
      the drops from idx on. */
  lemma NoExpiryShift(ds: seq<Drop>, idx: nat, ymax: int, monochrome: bool, color: string)
    requires Usable(monochrome, color) && idx < |ds|
    ensures ds[idx := Fallen(ds[idx], ymax, monochrome, color)][..idx + 1]
            + AllFallen(ds[idx := Fallen(ds[idx], ymax, monochrome, color)][idx + 1..], ymax, monochrome,
                   Repeat(color, |ds| - (idx + 1)))
         == ds[..idx] + AllFallen(ds[idx..], ymax, monochrome, Repeat(color, |ds| - idx))
  {
    var d := Fallen(ds[idx], ymax, monochrome, color);
    var ds' := ds[idx := d];
    var cs := Repeat(color, |ds| - idx);
    assert ds'[..idx + 1] == ds[..idx] + [d];
    assert ds'[idx + 1..] == ds[idx..][1..];
    assert cs[1..] == Repeat(color, |ds| - (idx + 1));
    AllFallenCons(ds[idx..], ymax, monochrome, cs);
    assert ds[idx..][0] == ds[idx] && cs[0] == color;
  }

  /** Without an expiring drop, the loop as written advances every drop from
      index idx on in place. */
  lemma {:induction false} UpdateAsWrittenNoExpiry(ds: seq<Drop>, idx: nat, ymax: int, monochrome: bool, color: string)
    requires Usable(monochrome, color) && idx <= |ds|
    requires forall i :: idx <= i < |ds| ==> ds[i].y + 1 <= ymax
    ensures UpdateAsWritten(ds, idx, ymax, monochrome, color)
         == ds[..idx] + AllFallen(ds[idx..], ymax, monochrome, Repeat(color, |ds| - idx))
    decreases |ds| - idx
  {
    if idx == |ds| {
      assert ds[..idx] == ds;
      assert ds[idx..] == [];
    } else {
      var ds' := ds[idx := Fallen(ds[idx], ymax, monochrome, color)];
      UpdateAsWrittenStep(ds, idx, ymax, monochrome, color);
      forall i | idx + 1 <= i < |ds'|
        ensures ds'[i].y + 1 <= ymax
      {
        assert ds'[i] == ds[i];
      }
      UpdateAsWrittenNoExpiry(ds', idx + 1, ymax, monochrome, color);
      NoExpiryShift(ds, idx, ymax, monochrome, color);
    }
  }

  /** The loop as written agrees with the intended update on every field in
      which no drop expires this tick (all its splashes drawing one colour). */
  lemma UpdateAsWrittenAgrees(ds: seq<Drop>, ymax: int, monochrome: bool, color: string)
    requires Usable(monochrome, color)
    requires forall i :: 0 <= i < |ds| ==> ds[i].y + 1 <= ymax
    ensures UpdateAsWritten(ds, 0, ymax, monochrome, color) == Advance(ds, ymax, monochrome, Repeat(color, |ds|))
  {
    UpdateAsWrittenNoExpiry(ds, 0, ymax, monochrome, color);
    assert ds[..0] == [] && ds[0..] == ds;
    AdvanceAllSurvive(ds, ymax, monochrome, Repeat(color, |ds|));
  }

  /** A drop keeps its splash: once it is on the splash rows, it shows the
      splash glyph after every later tick, and falling glyphs are kept only
      above them. */
  lemma FallenShape(d: Drop, xmax: int, ymax: int, monochrome: bool, palette: seq<string>, color: string)
    requires WellFormed(d, xmax, ymax, monochrome, palette)
    requires color in palette && Usable(monochrome, color)
    ensures Fallen(d, ymax, monochrome, color).x == d.x
    ensures Fallen(d, ymax, monochrome, color).y == d.y + 1
    ensures Splashing(d, ymax) ==> Splashing(Fallen(d, ymax, monochrome, color), ymax)
    ensures Splashing(Fallen(d, ymax, monochrome, color), ymax) ==>
              IsSplash(Fallen(d, ymax, monochrome, color).shape, monochrome, palette)
    ensures Survives(Fallen(d, ymax, monochrome, color), ymax) ==>
              WellFormed(Fallen(d, ymax, monochrome, color), xmax, ymax, monochrome, palette)
  {
    var f := Fallen(d, ymax, monochrome, color);
    if f.y > ymax - 2 {
      assert IsSplash(f.shape, monochrome, palette) by {
        assert color in palette && Usable(monochrome, color) && f.shape == ColorizeString(monochrome, SPLASH, color);
      }
    }
  }

  /** The update step keeps the field well formed when every drawn colour is
      taken from the palette. */
  lemma {:induction false} AdvanceWellFormed(ds: seq<Drop>, xmax: int, ymax: int, monochrome: bool,
                                            palette: seq<string>, colors: seq<string>)
    requires |colors| == |ds| && forall i :: 0 <= i < |colors| ==> colors[i] in palette && Usable(monochrome, colors[i])
    requires AllWellFormed(ds, xmax, ymax, monochrome, palette)
    ensures AllWellFormed(Advance(ds, ymax, monochrome, colors), xmax, ymax, monochrome, palette)
  {
    if ds != [] {
      var n := |ds| - 1;
      AdvanceWellFormed(ds[..n], xmax, ymax, monochrome, palette, colors[..n]);
      assert ds[n] in ds;
      FallenShape(ds[n], xmax, ymax, monochrome, palette, colors[n]);
    }
  }

  /** new_drop's drops: as many as there are draws, all on row 0, each in its
      drawn column, and well formed when the draws are in range. */
  lemma SpawnSpec(shapes: seq<string>, colors: seq<string>, xs: seq<int>, xmax: int, ymax: int,
                  monochrome: bool, palette: seq<string>)
    requires |shapes| == |colors| == |xs| && 0 <= ymax
    requires forall k :: 0 <= k < |xs| ==>
               shapes[k] in DROPSHAPES && colors[k] in palette && Usable(monochrome, colors[k]) && 0 <= xs[k] <= xmax
    ensures |Spawn(shapes, colors, xs, monochrome)| == |xs|
    ensures forall k :: 0 <= k < |xs| ==>
              Spawn(shapes, colors, xs, monochrome)[k].y == 0 && Spawn(shapes, colors, xs, monochrome)[k].x == xs[k]
    ensures AllWellFormed(Spawn(shapes, colors, xs, monochrome), xmax, ymax, monochrome, palette)
  {
    var r := Spawn(shapes, colors, xs, monochrome);
    forall d | d in r ensures WellFormed(d, xmax, ymax, monochrome, palette) {
      var k :| 0 <= k < |r| && r[k] == d;
      assert IsFalling(d.shape, monochrome, palette) by {
        assert shapes[k] in DROPSHAPES && colors[k] in palette && Usable(monochrome, colors[k])
               && d.shape == ColorizeString(monochrome, shapes[k], colors[k]);
      }
    }
  }
}
