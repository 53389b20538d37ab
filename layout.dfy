/** Compositing one screen row: the row starts as xmax blanks and the drop
    strings of that row are spliced in from the rightmost column to the
    leftmost, so that no escape sequence of a colourised drop is ever cut. */
module Layout {
  import opened Drops

  /** n blank characters. */
  function Blanks(n: nat): (r: string)
    ensures |r| == n
  {
    seq(n, _ => ' ')
  }

  lemma BlanksSplit(a: nat, b: nat)
    ensures Blanks(a) + Blanks(b) == Blanks(a + b)
  {
    assert forall i :: 0 <= i < a + b ==> (Blanks(a) + Blanks(b))[i] == ' ';
  }

  /** The drops of ds that are on the given row, in their order in ds. */
  function OnRow(ds: seq<Drop>, row: int): (r: seq<Drop>)
    ensures forall d :: d in r <==> d in ds && d.y == row
    ensures |r| <= |ds|
  {
    if ds == [] then []
    else OnRow(ds[..|ds| - 1], row) + (if ds[|ds| - 1].y == row then [ds[|ds| - 1]] else [])
  }

  /** A drop that occurs several times in the field is selected as often as
      it occurs there when it is on the row, and never otherwise. */
  lemma {:induction false} OnRowCount(ds: seq<Drop>, row: int)
    ensures forall d :: multiset(OnRow(ds, row))[d] == if d.y == row then multiset(ds)[d] else 0
  {
    if ds != [] {
      var n := |ds| - 1;
      assert ds == ds[..n] + [ds[n]];
      OnRowCount(ds[..n], row);
    }
  }

  /** The drops of ds in the given column, in their order in ds. */
  function InColumn(ds: seq<Drop>, x: int): seq<Drop> {
    if ds == [] then [] else (if ds[0].x == x then [ds[0]] else []) + InColumn(ds[1..], x)
  }

  lemma {:induction false} InColumnConcat(a: seq<Drop>, b: seq<Drop>, x: int)
    ensures InColumn(a + b, x) == InColumn(a, x) + InColumn(b, x)
  {
    if a != [] {
      assert (a + b)[0] == a[0];
      assert (a + b)[1..] == a[1..] + b;
      InColumnConcat(a[1..], b, x);
    } else {
      assert a + b == b;
    }
  }

  lemma {:induction false} OnRowConcat(a: seq<Drop>, b: seq<Drop>, row: int)
    ensures OnRow(a + b, row) == OnRow(a, row) + OnRow(b, row)
  {
    if b != [] {
      var n := |b| - 1;
      assert (a + b)[|a + b| - 1] == b[n];
      assert (a + b)[..|a + b| - 1] == a + b[..n];
      OnRowConcat(a, b[..n], row);
    } else {
      assert a + b == a;
    }
  }

  /** OnRowColumns for a single drop. */
  lemma OneDropColumns(d: Drop, row: int, x: int)
    ensures InColumn(if d.y == row then [d] else [], x) == OnRow(InColumn([d], x), row)
  {
    assert [d][1..] == [];
    var c := if d.x == x then [d] else [];
    assert InColumn([d], x) == c;
    if d.x == x {
      assert c[..0] == [];
    }
    if d.y == row {
      assert [d][1..] == [];
    }
  }

  /** The selection keeps the order: in every column, the drops of the row
      appear in the order they have in the field. */
  lemma {:induction false} OnRowColumns(ds: seq<Drop>, row: int, x: int)
    ensures InColumn(OnRow(ds, row), x) == OnRow(InColumn(ds, x), row)
  {
    if ds != [] {
      var n := |ds| - 1;
      var pre, last := ds[..n], ds[n];
      var picked := if last.y == row then [last] else [];
      assert ds == pre + [last];
      assert OnRow(ds, row) == OnRow(pre, row) + picked;
      OnRowColumns(pre, row, x);
      InColumnConcat(OnRow(pre, row), picked, x);
      assert InColumn(OnRow(ds, row), x) == OnRow(InColumn(pre, x), row) + InColumn(picked, x);
      InColumnConcat(pre, [last], x);
      OnRowConcat(InColumn(pre, x), InColumn([last], x), row);
      assert OnRow(InColumn(ds, x), row) == OnRow(InColumn(pre, x), row) + OnRow(InColumn([last], x), row);
      OneDropColumns(last, row, x);
    }
  }

  predicate SortedByX(ds: seq<Drop>) {
    forall i, j :: 0 <= i < j < |ds| ==> ds[i].x <= ds[j].x
  }

  /** Places d before the first drop of s whose column is not smaller. */
  function InsertByX(d: Drop, s: seq<Drop>): seq<Drop> {
    if s == [] || d.x <= s[0].x then [d] + s else [s[0]] + InsertByX(d, s[1..])
  }

  /** The stable sort by column that list.sort(key=x) performs. */
  function SortByX(ds: seq<Drop>): seq<Drop> {
    if ds == [] then [] else InsertByX(ds[0], SortByX(ds[1..]))
  }

  /** Inserting keeps the drops. */
  lemma {:induction false} InsertByXPerm(d: Drop, s: seq<Drop>)
    ensures multiset(InsertByX(d, s)) == multiset([d] + s)
  {
    if !(s == [] || d.x <= s[0].x) {
      InsertByXPerm(d, s[1..]);
      assert s == [s[0]] + s[1..];
    }
  }

  /** A lower bound of d and of every drop of s bounds the result. */
  lemma {:induction false} InsertByXBound(d: Drop, s: seq<Drop>, lo: int)
    requires lo <= d.x && forall i :: 0 <= i < |s| ==> lo <= s[i].x
    ensures forall i :: 0 <= i < |InsertByX(d, s)| ==> lo <= InsertByX(d, s)[i].x
  {
    if !(s == [] || d.x <= s[0].x) {
      InsertByXBound(d, s[1..], lo);
    }
  }

  /** Inserting into a sorted sequence keeps it sorted. */
  lemma {:induction false} InsertByXSorted(d: Drop, s: seq<Drop>)
    requires SortedByX(s)
    ensures SortedByX(InsertByX(d, s))
  {
    if !(s == [] || d.x <= s[0].x) {
      var t := InsertByX(d, s[1..]);
      assert SortedByX(s[1..]);
      InsertByXSorted(d, s[1..]);
      InsertByXBound(d, s[1..], s[0].x);
      var r := [s[0]] + t;
      assert InsertByX(d, s) == r;
      forall i, j | 0 <= i < j < |r| ensures r[i].x <= r[j].x {
        assert r[j] == t[j - 1];
        if i > 0 {
          assert r[i] == t[i - 1];
        }
      }
    }
  }

  /** The sort is a permutation and its result is ordered by column. */
  lemma {:induction false} SortByXSpec(ds: seq<Drop>)
    ensures multiset(SortByX(ds)) == multiset(ds)
    ensures SortedByX(SortByX(ds))
  {
    if ds != [] {
      SortByXSpec(ds[1..]);
      InsertByXPerm(ds[0], SortByX(ds[1..]));
      InsertByXSorted(ds[0], SortByX(ds[1..]));
      assert ds == [ds[0]] + ds[1..];
    }
  }

  lemma {:induction false} InsertByXStable(d: Drop, s: seq<Drop>, x: int)
    ensures InColumn(InsertByX(d, s), x) == InColumn([d], x) + InColumn(s, x)
  {
    if s == [] || d.x <= s[0].x {
      assert ([d] + s)[1..] == s;
    } else {
      InsertByXStable(d, s[1..], x);
      assert ([s[0]] + InsertByX(d, s[1..]))[1..] == InsertByX(d, s[1..]);
    }
  }

  /** The sort is stable: the drops of each column keep their order. */
  lemma {:induction false} SortByXStable(ds: seq<Drop>, x: int)
    ensures InColumn(SortByX(ds), x) == InColumn(ds, x)
  {
    if ds != [] {
      SortByXStable(ds[1..], x);
      InsertByXStable(ds[0], SortByX(ds[1..]), x);
    }
  }

  /** The first drop string starts its column after p, all columns are at
      most w and increase from left to right. */
  predicate Fits(ds: seq<Drop>, p: int, w: int) {
    && 0 <= p <= w
    && (forall i :: 0 <= i < |ds| ==> p <= ds[i].x <= w)
    && SortedByX(ds)
  }

  /** The total length of the drop strings. */
  function TotalLength(ds: seq<Drop>): nat {
    if ds == [] then 0 else |ds[0].shape| + TotalLength(ds[1..])
  }

  /** The number of blanks from column a up to column b (none if b < a,
      which no fitting layout has). */
  function Gap(a: int, b: int): nat {
    if a <= b then b - a else 0
  }

  /** The text from column p to column w with the (ascending) drops inserted:
      before each drop the blanks up to its column, after the last one the
      blanks up to w. */
  function LayoutFrom(ds: seq<Drop>, p: int, w: int): string
    decreases |ds|
  {
    if ds == [] then Blanks(Gap(p, w))
    else Blanks(Gap(p, ds[0].x)) + ds[0].shape + LayoutFrom(ds[1..], ds[0].x, w)
  }

  /** The row the loop of rain prints for the drops of that row. */
  function Row(ds: seq<Drop>, w: nat): string {
    LayoutFrom(SortByX(ds), 0, w)
  }

  /** The column of the drop before drop k, or p for the first one. */
  function PrevColumn(ds: seq<Drop>, p: int, k: int): int
    requires 0 <= k < |ds|
  {
    if k == 0 then p else ds[k - 1].x
  }

  /** The column of the last drop, or p when there is none. */
  function LastColumn(ds: seq<Drop>, p: int): int {
    if ds == [] then p else ds[|ds| - 1].x
  }

  /** t occurs in s starting at index lo. */
  predicate SliceIs(s: string, lo: int, t: string) {
    0 <= lo && lo + |t| <= |s| && s[lo..lo + |t|] == t
  }

  lemma SliceShift(a: string, b: string, lo: int, t: string)
    requires SliceIs(b, lo, t)
    ensures SliceIs(a + b, |a| + lo, t)
  {
    assert (a + b)[|a| + lo..|a| + lo + |t|] == b[lo..lo + |t|];
  }

  lemma TotalLengthPrefix(ds: seq<Drop>, k: nat)
    requires 1 <= k <= |ds|
    ensures TotalLength(ds[..k]) == |ds[0].shape| + TotalLength(ds[1..][..k - 1])
  {
    assert ds[..k][1..] == ds[1..][..k - 1];
  }

  /** Drop k of ds (ascending, laid out from column p) is found in line
      right after the blanks that separate it from the previous drop: the
      blanks start at the previous drop's column counted from p plus the
      lengths of the drop strings before k, and the drop string follows whole. */
  predicate DropPlaced(line: string, ds: seq<Drop>, p: int, k: int)
    requires 0 <= k < |ds|
  {
    var gap := ds[k].x - PrevColumn(ds, p, k);
    gap >= 0 && SliceIs(line, PrevColumn(ds, p, k) - p + TotalLength(ds[..k]), Blanks(gap) + ds[k].shape)
  }

  /** line ends with the blanks from the last drop's column up to w. */
  predicate TailPlaced(line: string, ds: seq<Drop>, p: int, w: int) {
    var gap := w - LastColumn(ds, p);
    gap >= 0 && SliceIs(line, LastColumn(ds, p) - p + TotalLength(ds), Blanks(gap))
  }

  /** A layout holds w - p blanks and every drop string. */
  lemma {:induction false} LayoutLength(ds: seq<Drop>, p: int, w: int)
    requires Fits(ds, p, w)
    ensures |LayoutFrom(ds, p, w)| == w - p + TotalLength(ds)
    decreases |ds|
  {
    if ds != [] {
      assert Fits(ds[1..], ds[0].x, w);
      LayoutLength(ds[1..], ds[0].x, w);
    }
  }

  lemma PrefixSlice(a: string, b: string)
    ensures SliceIs(a + b, 0, a)
  {
    assert (a + b)[0..|a|] == a;
  }

  /** The first drop string of a layout, with the blanks in front of it. */
  lemma PlacementHead(ds: seq<Drop>, p: int, w: int)
    requires ds != [] && p <= ds[0].x
    ensures DropPlaced(LayoutFrom(ds, p, w), ds, p, 0)
  {
    var head := Blanks(ds[0].x - p) + ds[0].shape;
    LayoutUnfold(ds, p, w);
    PrefixSlice(head, LayoutFrom(ds[1..], ds[0].x, w));
    assert ds[..0] == [];
  }

  /** Drop k - 1 of the tail found in rest is drop k of ds found in head + rest,
      when head holds the first drop and the blanks before it. */
  lemma DropPlacedShift(line: string, head: string, rest: string, ds: seq<Drop>, p: int, k: int)
    requires 1 <= k < |ds| && line == head + rest && |head| == ds[0].x - p + |ds[0].shape|
    requires DropPlaced(rest, ds[1..], ds[0].x, k - 1)
    ensures DropPlaced(line, ds, p, k)
  {
    var x0, tail := ds[0].x, ds[1..];
    var prev := PrevColumn(ds, p, k);
    assert tail[k - 1] == ds[k];
    assert PrevColumn(tail, x0, k - 1) == prev;
    var t := Blanks(ds[k].x - prev) + ds[k].shape;
    var lo := prev - x0 + TotalLength(tail[..k - 1]);
    assert SliceIs(rest, lo, t);
    TotalLengthPrefix(ds, k);
    SliceShift(head, rest, lo, t);
    assert prev - p + TotalLength(ds[..k]) == |head| + lo;
  }

  /** A later drop string of a layout sits where it sits in the layout of the
      drops after the first, shifted by the first drop and its blanks. */
  lemma PlacementLater(ds: seq<Drop>, p: int, w: int, k: int)
    requires 1 <= k < |ds| && p <= ds[0].x
    requires DropPlaced(LayoutFrom(ds[1..], ds[0].x, w), ds[1..], ds[0].x, k - 1)
    ensures DropPlaced(LayoutFrom(ds, p, w), ds, p, k)
  {
    LayoutUnfold(ds, p, w);
    DropPlacedShift(LayoutFrom(ds, p, w), Blanks(ds[0].x - p) + ds[0].shape, LayoutFrom(ds[1..], ds[0].x, w), ds, p, k);
  }

  lemma LastColumnTail(ds: seq<Drop>, p: int)
    requires ds != []
    ensures LastColumn(ds[1..], ds[0].x) == LastColumn(ds, p)
  {
    if |ds| > 1 {
      assert ds[1..][|ds| - 2] == ds[|ds| - 1];
    }
  }

  /** A layout with drops is the first drop with its blanks, then the layout
      of the rest from the first drop's column. */
  lemma LayoutUnfold(ds: seq<Drop>, p: int, w: int)
    requires ds != [] && p <= ds[0].x
    ensures LayoutFrom(ds, p, w) == Blanks(ds[0].x - p) + ds[0].shape + LayoutFrom(ds[1..], ds[0].x, w)
    ensures TotalLength(ds) == |ds[0].shape| + TotalLength(ds[1..])
  {
  }

  /** The tail blanks found in rest, for the drops after the first, are the
      tail blanks of ds in head + rest. */
  lemma TailPlacedShift(line: string, head: string, rest: string, ds: seq<Drop>, p: int, w: int)
    requires ds != [] && line == head + rest && |head| == ds[0].x - p + |ds[0].shape|
    requires TotalLength(ds) == |ds[0].shape| + TotalLength(ds[1..])
    requires TailPlaced(rest, ds[1..], ds[0].x, w)
    ensures TailPlaced(line, ds, p, w)
  {
    var last := LastColumn(ds, p);
    LastColumnTail(ds, p);
    SliceShift(head, rest, last - ds[0].x + TotalLength(ds[1..]), Blanks(w - last));
    assert last - p + TotalLength(ds) == |head| + last - ds[0].x + TotalLength(ds[1..]);
  }

  /** The blanks after the last drop string of a layout. */
  lemma PlacementTail(ds: seq<Drop>, p: int, w: int)
    requires ds != [] && p <= ds[0].x
    requires TailPlaced(LayoutFrom(ds[1..], ds[0].x, w), ds[1..], ds[0].x, w)
    ensures TailPlaced(LayoutFrom(ds, p, w), ds, p, w)
  {
    LayoutUnfold(ds, p, w);
    TailPlacedShift(LayoutFrom(ds, p, w), Blanks(ds[0].x - p) + ds[0].shape, LayoutFrom(ds[1..], ds[0].x, w), ds, p, w);
  }

  /** Where everything lands in the composed text: it has w - p blanks and
      every drop string; drop k is preceded by exactly the blanks from the
      previous drop's column to its own, so it starts at its column (counted
      from p) plus the lengths of the drops to its left, whole and uncut; the
      text ends with the blanks from the last column to w. */
  lemma {:induction false} LayoutPlacement(ds: seq<Drop>, p: int, w: int)
    requires Fits(ds, p, w)
    ensures |LayoutFrom(ds, p, w)| == w - p + TotalLength(ds)
    ensures forall k :: 0 <= k < |ds| ==> DropPlaced(LayoutFrom(ds, p, w), ds, p, k)
    ensures TailPlaced(LayoutFrom(ds, p, w), ds, p, w)
    decreases |ds|
  {
    LayoutLength(ds, p, w);
    var r := LayoutFrom(ds, p, w);
    if ds == [] {
      assert r[0..|r|] == r;
    } else {
      assert Fits(ds[1..], ds[0].x, w);
      LayoutPlacement(ds[1..], ds[0].x, w);
      forall k | 0 <= k < |ds| ensures DropPlaced(r, ds, p, k) {
        if k == 0 {
          PlacementHead(ds, p, w);
        } else {
          PlacementLater(ds, p, w, k);
        }
      }
      PlacementTail(ds, p, w);
    }
  }

  /** Blanks placed in front of a layout move its starting column left. */
  lemma {:induction false} LayoutWiden(ds: seq<Drop>, p: int, q: int, w: int)
    requires Fits(ds, q, w) && 0 <= p <= q
    ensures Fits(ds, p, w)
    ensures LayoutFrom(ds, p, w) == Blanks(q - p) + LayoutFrom(ds, q, w)
  {
    if ds == [] {
      BlanksSplit(q - p, w - q);
    } else {
      BlanksSplit(q - p, ds[0].x - q);
    }
  }

  /** Splicing a drop into a layout at its own column, when it is not right
      of any drop already there, gives the layout with that drop in front. */
  lemma SpliceFront(d: Drop, ds: seq<Drop>, w: int)
    requires Fits(ds, 0, w) && 0 <= d.x <= w
    requires forall i :: 0 <= i < |ds| ==> d.x <= ds[i].x
    ensures Fits([d] + ds, 0, w)
    ensures LayoutFrom(ds, 0, w)[..d.x] + d.shape + LayoutFrom(ds, 0, w)[d.x..] == LayoutFrom([d] + ds, 0, w)
  {
    var line := LayoutFrom(ds, 0, w);
    assert Fits(ds, d.x, w);
    LayoutWiden(ds, 0, d.x, w);
    assert line[..d.x] == Blanks(d.x);
    assert line[d.x..] == LayoutFrom(ds, d.x, w);
    assert ([d] + ds)[1..] == ds;
  }

  /** The composed row: with no drops it is exactly w blanks; otherwise it
      holds w blanks and every drop string of the row, whole, left to right in
      ascending column, and each drop string is preceded by the blanks that
      bring it to its own column. */
  lemma RowPlacement(ds: seq<Drop>, w: nat)
    requires forall d :: d in ds ==> 0 <= d.x <= w
    ensures ds == [] ==> Row(ds, w) == Blanks(w)
    ensures multiset(SortByX(ds)) == multiset(ds) && SortedByX(SortByX(ds))
    ensures |Row(ds, w)| == w + TotalLength(SortByX(ds))
    ensures forall k :: 0 <= k < |SortByX(ds)| ==> DropPlaced(Row(ds, w), SortByX(ds), 0, k)
    ensures TailPlaced(Row(ds, w), SortByX(ds), 0, w)
    ensures forall x :: InColumn(SortByX(ds), x) == InColumn(ds, x)
  {
    var sorted := SortByX(ds);
    SortByXSpec(ds);
    forall x
      ensures InColumn(SortByX(ds), x) == InColumn(ds, x)
    {
      SortByXStable(ds, x);
    }
    assert forall i :: 0 <= i < |sorted| ==> sorted[i] in multiset(ds);
    LayoutPlacement(sorted, 0, w);
  }

  /** One step of the splicing loop: the drop before the already spliced
      suffix of the sorted drops is inserted at its own column. */
  lemma SpliceNext(sorted: seq<Drop>, j: int, w: int)
    requires Fits(sorted, 0, w) && 0 < j <= |sorted|
    ensures 0 <= sorted[j - 1].x <= |LayoutFrom(sorted[j..], 0, w)|
    ensures LayoutFrom(sorted[j..], 0, w)[..sorted[j - 1].x] + sorted[j - 1].shape
            + LayoutFrom(sorted[j..], 0, w)[sorted[j - 1].x..] == LayoutFrom(sorted[j - 1..], 0, w)
  {
    var d := sorted[j - 1];
    assert Fits(sorted[j..], 0, w);
    assert forall i :: 0 <= i < |sorted[j..]| ==> d.x <= sorted[j..][i].x;
    assert sorted[j - 1..] == [d] + sorted[j..];
    LayoutLength(sorted[j..], 0, w);
    SpliceFront(d, sorted[j..], w);
  }

  /** The drops that the composed row places in one column are exactly the
      field's drops of that column and row, in their order in the field. */
  lemma RowColumnOrder(rainfall: seq<Drop>, row: int, x: int)
    ensures InColumn(SortByX(OnRow(rainfall, row)), x) == OnRow(InColumn(rainfall, x), row)
  {
    SortByXStable(OnRow(rainfall, row), x);
    OnRowColumns(rainfall, row, x);
  }

  /** The drops of a row, sorted, fit the blank line they are spliced into. */
  lemma SortedRowFits(rainfall: seq<Drop>, row: int, width: nat)
    requires forall d :: d in rainfall ==> 0 <= d.x <= width
    ensures Fits(SortByX(OnRow(rainfall, row)), 0, width)
  {
    var thisLine := OnRow(rainfall, row);
    var sorted := SortByX(thisLine);
    SortByXSpec(thisLine);
    assert forall i :: 0 <= i < |sorted| ==> sorted[i] in multiset(thisLine);
  }

  /** The splicing loop of rain for one row: start from xmax blanks, sort the
      row's drops by column, reverse them and insert each drop string at its
      column. */
  method ComposeRow(rainfall: seq<Drop>, row: int, width: nat) returns (line: string)
    requires forall d :: d in rainfall ==> 0 <= d.x <= width
    ensures line == Row(OnRow(rainfall, row), width)
  {
    line := Blanks(width);
    var thisLine := OnRow(rainfall, row);
    var sorted := SortByX(thisLine);
    SortedRowFits(rainfall, row, width);
    var n := |sorted|;
    var reversed := seq(n, k requires 0 <= k < n => sorted[n - 1 - k]);
    assert sorted[n..] == [];
    for k := 0 to n
      invariant line == LayoutFrom(sorted[n - k..], 0, width)
    {
      var d := reversed[k];
      SpliceNext(sorted, n - k, width);
      line := line[..d.x] + d.shape + line[d.x..];
    }
    assert sorted[n - n..] == sorted;
  }
}
