# rainfall — a Dafny model of the terminal rain animation

`rainfall` draws falling raindrops in a terminal. The `RainFall` object holds:

- the screen size (`xmax` columns, `ymax` lines);
- a list of drops, each with a column, a row and the string drawn for it (a glyph, possibly wrapped in ANSI colour escapes);
- the number of drops spawned per tick (`intensity`);
- a tick counter (`weather`) that slowly drifts the intensity.

Each tick of the animation does four things:

1. prints every screen row, splicing the drop strings of that row into a line of blanks from the rightmost column to the leftmost;
2. moves every drop one row down, turning it into a splash `o` near the floor and removing it once it is below the screen;
3. spawns `intensity` new drops on the top row;
4. runs the weather controller.

Two command-line validators accept the intensity and the colour names.

The model is split into six modules:

- `Palette` (`palette.dfy`): the `COLORS` table and `colorize_string`, with its inverse.
- `Arguments` (`arguments.dfy`): `range_type` and `ValidateColors.__call__` on already parsed values. Each returns a `Result` whose error case is the exception they raise.
- `Drops` (`drops.dfy`):
  - the drop record, the glyph table and the invariant every drop keeps;
  - the update step of `rain`, both as a specification function (`Advance`) and as the loop that computes it (`AdvanceDrops`);
  - the drops `new_drop` spawns (`Spawn`);
  - the source's own update loop as written (`UpdateAsWritten`).
- `Layout` (`layout.dfy`):
  - how one screen row is composed: a stable sort by column, then the splice loop (`ComposeRow`);
  - a specification function `Row` built from a left-to-right layout;
  - the placement lemmas that say where every drop string lands in the printed line.
- `Weather` (`weather.dfy`): the counter and the intensity drift, one tick (`Tick`) and any number of ticks (`Run`).
- `Rainfall` (`rainfall.dfy`): the `RainFall` class.
  - Its fields are the object's attributes, and `Valid()` is its invariant.
  - The methods `Rain`, `NewDrop` and `WeatherForecast` update the fields in place.
  - `Step` is one iteration of the animation loop.

Randomness is passed in as parameters. The method that makes each draw receives it as a sequence:

- `shapes`, `colors` and `xs` for `new_drop`;
- `splashColors` for the splash colours of the update step;
- `nudge` for the intensity change.

Predicates (`SpawnDraws`, `SplashDraws`, `IsNudge`) restrict each of these to the range that `random.choice` or `random.randint` can return. The terminal size is a constructor parameter. Printing is modelled as the returned list of rows.

Two details of the code decide the ranges the model keeps to:

- New drops may spawn in column `xmax` itself, because `randint` includes its upper bound.
- A drop turns into a splash as soon as its new row is greater than `ymax - 2`.
  - It is removed only when its row is greater than `ymax`.
  - So drops on row `ymax` (one below the last printed row) stay in the list for a tick without being shown.

## Model

| member | source | states |
|---|---|---|
| Palette.ColorizeString | debian/usr/bin/rainfall.py:149-153 | monochrome mode returns the string unchanged; otherwise the result is exactly as long as the colour escape, the string and the reset escape together |
| Palette.Decolorize | debian/usr/bin/rainfall.py:149-153 | the inverse of the colouring: whatever it returns, re-wrapped in the colour and reset escapes (or unchanged in monochrome mode), is the input |
| Palette.DecolorizeColorize | debian/usr/bin/rainfall.py:149-153 | stripping the escapes from a colourised string gives back the original string, in both modes |
| Palette.ColorizeInjective | debian/usr/bin/rainfall.py:149-153 | two strings that colourise to the same text under one colour are equal |
| Arguments.RangeType | debian/usr/bin/rainfall.py:35-40 | the value is accepted exactly when minimum <= value <= maximum and is then returned unchanged; otherwise the result is an ArgumentTypeError |
| Arguments.ValidateColors | debian/usr/bin/rainfall.py:43-50 | the list is accepted exactly when every name is a key of COLORS, and it is then stored unchanged; on rejection the error names an entry that is not a key, and every entry before it is a key (the first bad name) |
| Arguments.DefaultColorsValid | debian/usr/bin/rainfall.py:56-57 | the default colour list ["blue", "b_blue"] is accepted |
| Arguments.PurpleRejected | debian/usr/bin/rainfall.py:43-50 | a valid list followed by "purple", which is not in the table, is rejected with that name |
| Drops.WellFormedColumns | debian/usr/bin/rainfall.py:162 | unpacks the field invariant: every drop lies in a column of [0, xmax], the range randint(0, xmax) spawns into |
| Drops.Fallen | debian/usr/bin/rainfall.py:126-132 | one drop after one tick: one row lower in the same column, and given the splash glyph in the drawn colour once its new row exceeds ymax - 2 (its properties are stated by FallenShape) |
| Drops.Advance | debian/usr/bin/rainfall.py:124-136 | the intended update step as a function: every drop falls once, and those whose new row is at most ymax are kept, in order (its properties are stated by AdvanceSound, AdvanceComplete and AdvanceCount) |
| Drops.AdvanceDrops | debian/usr/bin/rainfall.py:124-136 | the update loop returns exactly Advance of the drops: each moved one row down, given the splash glyph in the drawn colour once its row exceeds ymax - 2, and kept only while its row is at most ymax, in order |
| Drops.AdvancePrefixStep | debian/usr/bin/rainfall.py:124-136 | the update of the first i + 1 drops is the update of the first i followed by drop i, if that drop survives |
| Drops.AdvanceUnfold | debian/usr/bin/rainfall.py:124-136 | the update of a non-empty list is the update of all but its last drop followed by that drop, if it survives |
| Drops.AdvanceSound | debian/usr/bin/rainfall.py:124-136 | the update never adds drops; every drop it returns has a row of at most ymax and is some input drop after one fall |
| Drops.AdvanceComplete | debian/usr/bin/rainfall.py:124-136 | every input drop whose next row is at most ymax is in the result after one fall |
| Drops.AdvanceCount | debian/usr/bin/rainfall.py:124-136 | exactly once: each fallen drop occurs in the result as often as among the fallen drops when its new row is at most ymax, and never otherwise, so equal drops are neither merged nor duplicated |
| Drops.AdvanceAllSurvive | debian/usr/bin/rainfall.py:124-136 | when no drop expires, the update is every drop after one fall, in order |
| Drops.AdvanceKeepsFront | debian/usr/bin/rainfall.py:124-136 | a drop kept by the update of a prefix is kept by the update of the whole list |
| Drops.AdvanceKeepsLast | debian/usr/bin/rainfall.py:124-136 | the last drop, after falling, is kept when its new row is at most ymax |
| Drops.FallenShape | debian/usr/bin/rainfall.py:126-132 | one fall keeps the column and adds one to the row; a splashing drop stays splashing; a drop on the splash rows shows the splash glyph in a palette colour; a surviving drop keeps the field invariant |
| Drops.AdvanceWellFormed | debian/usr/bin/rainfall.py:124-136 | when the splash colours come from the palette, the update keeps every drop in [0, xmax] x [0, ymax] with a splash glyph exactly on the splash rows and a falling glyph above them |
| Drops.RemoveFirst | debian/usr/bin/rainfall.py:136 | list.remove of a present drop deletes exactly its first equal entry and keeps all other entries in order, so the list is one shorter |
| Drops.UpdateAsWritten | debian/usr/bin/rainfall.py:125-136 | the loop as written: Python's index walk over a list that list.remove shrinks, advancing each visited drop in place; the drop that slides into a removed slot is not visited (its behaviour is stated by UpdateAsWrittenSkips and UpdateAsWrittenAgrees) |
| Drops.UpdateAsWrittenStep | debian/usr/bin/rainfall.py:125-132 | a visited drop that does not expire is advanced in place and the walk moves to the next index |
| Drops.UpdateAsWrittenNoExpiry | debian/usr/bin/rainfall.py:125-136 | while no drop expires, the walk from index idx leaves the drops before idx alone and advances every drop from idx on exactly once, in place |
| Drops.UpdateAsWrittenAgrees | debian/usr/bin/rainfall.py:125-136 | on a field in which no drop expires this tick, the loop as written and the intended update give the same drops in the same order |
| Drops.UpdateAsWrittenSkips | debian/usr/bin/rainfall.py:125-136 | on two drops on row ymax, the loop as written removes the first and leaves the second unadvanced in the list, while the intended update removes both |
| Drops.Spawn | debian/usr/bin/rainfall.py:155-165 | the drops of one new_drop call: drop k on row 0 in column xs[k], showing glyph shapes[k] coloured colors[k] (its properties are stated by SpawnSpec) |
| Drops.SpawnSpec | debian/usr/bin/rainfall.py:155-165 | new_drop yields one drop per draw, each on row 0 in its drawn column, and all keep the field invariant when the draws lie in their ranges |
| Layout.Blanks | debian/usr/bin/rainfall.py:107 | the blank line has the requested length |
| Layout.BlanksSplit | debian/usr/bin/rainfall.py:107 | two runs of blanks concatenate to one run of the summed length |
| Layout.OnRow | debian/usr/bin/rainfall.py:111-113 | a drop is selected exactly when it is in the field and on the given row; the selection is no longer than the field |
| Layout.OnRowCount | debian/usr/bin/rainfall.py:111-113 | the selection keeps every copy: a drop on the row occurs in it as often as in the field, and a drop on another row never |
| Layout.OnRowColumns | debian/usr/bin/rainfall.py:111-113 | the selection keeps the field's order: in every column, the selected drops are the column's drops of that row in field order |
| Layout.InColumnConcat | debian/usr/bin/rainfall.py:111-114 | the drops of one column of a concatenation are those of each part, in order |
| Layout.OnRowConcat | debian/usr/bin/rainfall.py:111-113 | selecting a row of a concatenation selects it in each part, in order |
| Layout.InsertByX | debian/usr/bin/rainfall.py:114 | the insertion step of the stable sort: the drop goes before the first drop whose column is not smaller (its properties are stated by InsertByXPerm, InsertByXSorted and InsertByXStable) |
| Layout.SortByX | debian/usr/bin/rainfall.py:114 | list.sort with key x, as insertion sort (its properties are stated by SortByXSpec and SortByXStable) |
| Layout.InsertByXPerm | debian/usr/bin/rainfall.py:114 | the insertion step of the sort keeps exactly the same drops |
| Layout.InsertByXBound | debian/usr/bin/rainfall.py:114 | inserting preserves any lower bound on the columns |
| Layout.InsertByXSorted | debian/usr/bin/rainfall.py:114 | inserting into a column-sorted list keeps it sorted |
| Layout.SortByXSpec | debian/usr/bin/rainfall.py:114 | the sort by column is a permutation of the row's drops and its result is ordered by column |
| Layout.InsertByXStable | debian/usr/bin/rainfall.py:114 | inserting a drop puts it before the drops of its column that were already there |
| Layout.SortByXStable | debian/usr/bin/rainfall.py:114 | the sort is stable: the drops of each column stay in their original order |
| Layout.LayoutLength | debian/usr/bin/rainfall.py:107-120 | the composed text has the blanks of the line plus every drop string |
| Layout.LayoutPlacement | debian/usr/bin/rainfall.py:107-120 | each drop string appears whole at its column plus the lengths of the drop strings to its left, preceded by the blanks from the previous column, and the text ends with the blanks up to the line width |
| Layout.LayoutWiden | debian/usr/bin/rainfall.py:107-120 | putting blanks in front of a layout is the same as starting it further left |
| Layout.SpliceFront | debian/usr/bin/rainfall.py:119-120 | splicing a drop string at its column, left of every drop already in the line, gives the layout with that drop in front |
| Layout.SpliceNext | debian/usr/bin/rainfall.py:118-120 | one splice step inserts the next drop of the reversed sorted list at an index inside the line and extends the composed suffix by that drop |
| Layout.SortedRowFits | debian/usr/bin/rainfall.py:111-114 | the sorted drops of a row lie within the blank line |
| Layout.Row | debian/usr/bin/rainfall.py:106-122 | the printed row as a function: the drops of the row sorted by column and laid out left to right over xmax blanks (its properties are stated by RowPlacement, and ComposeRow computes it) |
| Layout.RowPlacement | debian/usr/bin/rainfall.py:106-120 | a row without drops is xmax blanks; otherwise every drop of the row is placed whole, in ascending column, after the blanks that bring it to its own column; within each column the drops keep their order |
| Layout.RowColumnOrder | debian/usr/bin/rainfall.py:111-114 | the drops a printed row shows in one column are exactly the field's drops of that row and column, in field order |
| Layout.ComposeRow | debian/usr/bin/rainfall.py:107-120 | the splice loop over the reversed, column-sorted drops of the row computes exactly Row, the left-to-right layout whose placement RowPlacement states |
| Weather.Clip | debian/usr/bin/rainfall.py:146-147 | the clipped intensity lies in [1, 10]: an intensity already in range is unchanged, one below 1 becomes 1 and one above 10 becomes 10 |
| Weather.Tick | debian/usr/bin/rainfall.py:140-147 | the counter goes up by one, and the intensity is left alone, unless the counter reaches 100; then the counter restarts at 0 and the intensity lands in [1, 10]: it takes the nudge when that stays in range, and an in-range intensity whose nudge would leave the range is unchanged; it moves by at most one from an in-range value; a settled state stays settled |
| Weather.RunSpec | debian/usr/bin/rainfall.py:140-147 | after n ticks the counter is (start + n) mod 100; the intensity moves by at most one per wrap and is unchanged before the first wrap; once the counter has wrapped the intensity is in [1, 10] |
| Rainfall.SpawnCount | debian/usr/bin/rainfall.py:156 | the number of iterations of range(intensity): the intensity when positive, otherwise none |
| Rainfall.RainFall.constructor | debian/usr/bin/rainfall.py:74-87 | the object starts with the given screen size, counter 0, no drops and the given settings, and satisfies the invariant |
| Rainfall.RainFall.Frame | debian/usr/bin/rainfall.py:104-122 | rain prints ymax rows, and row i is the composed Row of the drops on row i |
| Rainfall.RainFall.NewDrop | debian/usr/bin/rainfall.py:155-165 | the drops are the old drops followed by one newly spawned drop per draw (none for a non-positive intensity), and the invariant is kept |
| Rainfall.RainFall.Rain | debian/usr/bin/rainfall.py:104-138 | the printed rows are those of the old drops; the new drops are Advance of the old ones followed by the spawned ones; every drop stays on [0, xmax] x [0, ymax] and shows a splash on the splash rows |
| Rainfall.RainFall.WeatherForecast | debian/usr/bin/rainfall.py:140-147 | the counter and the intensity change exactly as Weather.Tick says, an in-range intensity stays in range, and the invariant is kept |
| Rainfall.RainFall.Step | debian/usr/bin/rainfall.py:94-98 | one animation iteration: the rows of the old drops, then the updated and spawned drops, then one weather tick |

## Left out

- The terminal size query (`os.get_terminal_size`) is I/O. The columns and lines are constructor parameters.
- `random.choice` and `random.randint` are modelled as draws passed in as parameters. Their ranges are preconditions.
- `start_rain` is left out as a whole. Only one iteration of its loop is modelled, as `Step`. The parts left out are:
  - the endless loop itself;
  - `time.sleep`;
  - the `KeyboardInterrupt` handler;
  - the cursor hide and show escapes;
  - the first `new_drop` before the loop.
- `clear_screen` and every `print` are terminal output. The rows `rain` prints are returned as strings instead.
- `int(astr)` parsing and the `argparse` wiring in `parse_args`. `RangeType` starts from an already parsed integer.
- `RangeType`: the message text of the `ArgumentTypeError` is not modelled. The source interpolates the builtins `min` and `max` there, not the bounds.
- `ValidateColors`: `setattr` on the namespace is modelled as returning the stored list. The source raises a plain `ValueError`; it is modelled as the `InvalidColor` error.
- `source/parse_arguments.py` and `source/raindrop.py` are not part of this model.
- `Palette.ColorizeString`: a colour name missing from `COLORS` raises `KeyError` in the source. Here it is excluded by the precondition `Usable`. Every name that reaches it has passed `ValidateColors`.
- An empty colour list makes `random.choice` raise `IndexError`. It is excluded by requiring a draw from the palette for every spawned or splashing drop.
- Display width of the box-drawing glyphs and the escape sequences on a real terminal is not modelled. Rows are sequences of characters.
- `Layout.ComposeRow` requires every column in [0, width]. That is the range the spawn draws allow. Python's slice clamping for columns outside it is not modelled.
- `Drops.UpdateAsWritten` uses one splash colour for every drop. The source draws a fresh colour for each drop that splashes.
- Rather than mutating the drop dictionaries in place, the model builds drop values. `Drops.UpdateAsWritten` replays the in-place update of the loop as written on such values, with `list.remove` matching by equality.

## Findings

| source | as written | input that shows it | evidently intended | confidence | as-written member | corrected member |
|---|---|---|---|---|---|---|
| debian/usr/bin/rainfall.py:125-136 | the update loop removes an expired drop from the list it is iterating over, so the drop after it slides into the visited index and is neither advanced nor checked for this tick (`list.remove` deletes the first equal entry, which here is always the visited drop, since every entry before it has a row of at most ymax) | two drops with rows ymax, e.g. (0, 5, "o") and (1, 5, "o") with ymax = 5: only the first is removed, the second stays on row 5 unadvanced | every drop is advanced exactly once per tick and every expired drop is removed | not executed | Drops.UpdateAsWrittenSkips | Drops.AdvanceDrops |
