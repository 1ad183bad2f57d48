/** The squarified treemap of the profile viewer, over the reals: the layout as a function, its in-place computation,
    the theorem that it tiles, and what shape it has against the one its comments name. */
module Squarify {

  datatype Child = Child(node: nat, value: real)

  datatype Item = Item(node: nat, value: real, idx: nat)

  datatype Rect = Rect(x: real, y: real, w: real, h: real, node: nat, value: real)

  /** A value of worst: JavaScript's Infinity for the empty row. */
  datatype Ratio = Infinity | Finite(r: real)

  function Sum(items: seq<Item>): real
  {
    if |items| == 0 then 0.0 else Sum(items[..|items| - 1]) + items[|items| - 1].value
  }

  ghost predicate Positive(items: seq<Item>) { forall i :: 0 <= i < |items| ==> items[i].value > 0.0 }

  lemma {:induction false} SumAppend(a: seq<Item>, b: seq<Item>)
    ensures Sum(a + b) == Sum(a) + Sum(b)
  {
    if |b| == 0 {
      assert a + b == a;
    } else {
      SumAppend(a, b[..|b| - 1]);
      assert (a + b)[..|a + b| - 1] == a + b[..|b| - 1];
    }
  }

  lemma {:induction false} SumPositive(items: seq<Item>)
    requires Positive(items)
    ensures Sum(items) >= 0.0 && (|items| > 0 ==> Sum(items) > 0.0)
  {
    if |items| > 0 {
      SumPositive(items[..|items| - 1]);
    }
  }

  // ----- shares -----

  lemma ProductPositive(a: real, b: real)
    requires a >= 0.0 && b >= 0.0
    ensures a * b >= 0.0 && (a > 0.0 && b > 0.0 ==> a * b > 0.0)
  {
  }

  lemma QuotientPositive(a: real, b: real)
    requires a > 0.0 && b > 0.0
    ensures a / b > 0.0
  {
    var q := a / b;
    assert q * b == a && (-q) * b == -(q * b);
    if q <= 0.0 {
      ProductPositive(-q, b);
    }
  }

  /** The part of a length that falls to value out of sum. */
  function Share(length: real, value: real, sum: real): real
    requires sum > 0.0
  {
    length * (value / sum)
  }

  lemma ShareTimesSum(length: real, value: real, sum: real)
    requires sum > 0.0
    ensures Share(length, value, sum) * sum == length * value
  {
    var f := value / sum;
    assert f * sum == value;
    assert (length * f) * sum == length * (f * sum);
  }

  lemma Cancel(a: real, b: real, c: real)
    requires c > 0.0 && a * c == b * c
    ensures a == b
  {
    assert (a - b) * c == a * c - b * c && (b - a) * c == b * c - a * c;
    if a > b {
      ProductPositive(a - b, c);
    } else if a < b {
      ProductPositive(b - a, c);
    }
  }

  lemma ShareAdds(length: real, a: real, b: real, sum: real)
    requires sum > 0.0
    ensures Share(length, a, sum) + Share(length, b, sum) == Share(length, a + b, sum)
    ensures Share(length, sum, sum) == length
  {
    assert a / sum + b / sum == (a + b) / sum;
    var f, g := a / sum, b / sum;
    assert length * f + length * g == length * (f + g);
    assert sum / sum == 1.0;
  }

  lemma ShareNonnegative(length: real, value: real, sum: real)
    requires length >= 0.0 && value >= 0.0 && sum > 0.0
    ensures Share(length, value, sum) >= 0.0
  {
    if value > 0.0 { QuotientPositive(value, sum); }
    ProductPositive(length, value / sum);
  }

  // ----- the greedy choice of a row -----

  function Max(a: real, b: real): real { if a >= b then a else b }

  function Min(a: real, b: real): real { if a >= b then b else a }

  /** What worst computes for one cell: the aspect ratio the cell would have if its row had the row's sum as its
      area and ran along the side.  The layout below places rows differently; see EstimateIsRatioIff. */
  function EstimatedRatio(value: real, sum: real, side: real): (r: real)
    requires value > 0.0 && sum > 0.0 && side >= 1.0
    ensures r >= 1.0
  {
    ProductPositive(side, side);
    ProductPositive(side * side, value);
    ProductPositive(sum, sum);
    QuotientPositive(side * side * value, sum * sum);
    var r := side * side * value / (sum * sum);
    Inverse(r);
    Max(r, 1.0 / r)
  }

  lemma Inverse(r: real)
    requires r > 0.0
    ensures r >= 1.0 || 1.0 / r >= 1.0
  {
    if r < 1.0 {
      var i := 1.0 / r;
      assert i * r == 1.0 && (1.0 - i) * r == r - i * r;
      if i < 1.0 {
        ProductPositive(1.0 - i, r);
      }
    }
  }

  function MaxRatio(row: seq<Item>, sum: real, side: real): real
    requires Positive(row) && sum > 0.0 && side >= 1.0
  {
    if |row| == 0 then 0.0
    else Max(MaxRatio(row[..|row| - 1], sum, side), EstimatedRatio(row[|row| - 1].value, sum, side))
  }

  function WorstRatio(row: seq<Item>, len: real): Ratio
    requires Positive(row)
  {
    SumPositive(row);
    if |row| == 0 then Infinity else Finite(MaxRatio(row, Sum(row), Max(len, 1.0)))
  }

  /** What worst returns bounds the estimate of every cell, and one cell attains it. */
  lemma {:induction false} MaxRatioIsMaximum(row: seq<Item>, sum: real, side: real)
    requires Positive(row) && sum > 0.0 && side >= 1.0
    ensures forall i :: 0 <= i < |row| ==> EstimatedRatio(row[i].value, sum, side) <= MaxRatio(row, sum, side)
    ensures |row| > 0 ==> exists i :: 0 <= i < |row| && EstimatedRatio(row[i].value, sum, side) == MaxRatio(row, sum, side)
  {
    hide EstimatedRatio;
    if |row| > 0 {
      var front := row[..|row| - 1];
      MaxRatioIsMaximum(front, sum, side);
      if |front| > 0 {
        var i :| 0 <= i < |front| && EstimatedRatio(front[i].value, sum, side) == MaxRatio(front, sum, side);
        assert EstimatedRatio(row[i].value, sum, side) == MaxRatio(front, sum, side);
      }
    }
  }

  predicate Exceeds(a: Ratio, b: Ratio) { b.Finite? && (a.Infinity? || a.r > b.r) }

  /** The row grows from k items while that does not make the value of worst larger. */
  function RowEnd(items: seq<Item>, len: real, k: nat): (end: nat)
    requires Positive(items) && k <= |items|
    ensures k <= end <= |items| && (k == 0 < |items| ==> end > 0)
    decreases |items| - k
  {
    if k == |items| || (k > 0 && Exceeds(WorstRatio(items[..k + 1], len), WorstRatio(items[..k], len))) then k
    else RowEnd(items, len, k + 1)
  }

  /** The value of worst for the first k items. */
  function FirstWorst(items: seq<Item>, len: real, k: nat): real
    requires Positive(items) && 0 < k <= |items|
  {
    SumPositive(items[..k]);
    MaxRatio(items[..k], Sum(items[..k]), Max(len, 1.0))
  }

  /** The row is the longest beginning along which the value of worst never grows.  Which row it is does not
      reach the rectangles: see LayoutIsStrip. */
  lemma {:induction false} RowEndIsGreedy(items: seq<Item>, len: real, k: nat, j: nat)
    requires Positive(items) && k <= |items| && 0 < j < |items|
    ensures var end := RowEnd(items, len, k);
            && (k <= j < end ==> FirstWorst(items, len, j + 1) <= FirstWorst(items, len, j))
            && (j == end ==> FirstWorst(items, len, j + 1) > FirstWorst(items, len, j))
    decreases |items| - k
  {
    GrowthIsGrowth(items, len, j);
    hide WorstRatio, Exceeds, FirstWorst;
    if k < |items| && RowEnd(items, len, k) != k {
      RowEndIsGreedy(items, len, k + 1, j);
    }
  }

  lemma GrowthIsGrowth(items: seq<Item>, len: real, j: nat)
    requires Positive(items) && 0 < j < |items|
    ensures Exceeds(WorstRatio(items[..j + 1], len), WorstRatio(items[..j], len))
            <==> FirstWorst(items, len, j + 1) > FirstWorst(items, len, j)
  {
    hide MaxRatio;
  }

  // ----- the layout -----

  /** The cells of a row: stacked downwards when the row is a horizontal slice, else side by side. */
  function Strip(row: seq<Item>, down: bool, x: real, y: real, w: real, h: real, sum: real): seq<Rect>
    requires sum > 0.0
  {
    if |row| == 0 then []
    else
      var front, last := row[..|row| - 1], row[|row| - 1];
      Strip(front, down, x, y, w, h, sum)
      + [if down then Rect(x, y + Share(h, Sum(front), sum), w, Share(h, last.value, sum), last.node, last.value)
         else Rect(x + Share(w, Sum(front), sum), y, Share(w, last.value, sum), h, last.node, last.value)]
  }

  function Layout(items: seq<Item>, x: real, y: real, w: real, h: real, total: real): seq<Rect>
    requires Positive(items) && total == Sum(items)
    decreases |items|
  {
    SumPositive(items);
    if |items| == 0 then []
    else if |items| == 1 then [Rect(x, y, w, h, items[0].node, items[0].value)]
    else
      var k := RowEnd(items, if w >= h then h else w, 0);
      var row, rest := items[..k], items[k..];
      SumPositive(row);
      assert row + rest == items;
      SumAppend(row, rest);
      if w >= h then
        var part := Share(h, Sum(row), total);
        Strip(row, true, x, y, w, part, Sum(row)) + Layout(rest, x, y + part, w, h - part, total - Sum(row))
      else
        var part := Share(w, Sum(row), total);
        Strip(row, false, x, y, part, h, Sum(row)) + Layout(rest, x + part, y, w - part, h, total - Sum(row))
  }

  // ----- tiling -----

  ghost predicate Inside(r: Rect, x: real, y: real, w: real, h: real)
  {
    r.w >= 0.0 && r.h >= 0.0 && x <= r.x && r.x + r.w <= x + w && y <= r.y && r.y + r.h <= y + h
  }

  ghost predicate Apart(a: Rect, b: Rect)
  {
    a.x + a.w <= b.x || b.x + b.w <= a.x || a.y + a.h <= b.y || b.y + b.h <= a.y
  }

  /** The rectangle has the part of the area that its item has of the total. */
  ghost predicate Proportional(r: Rect, item: Item, area: real, total: real)
  {
    r.w * r.h * total == area * item.value
  }

  /** rs are rectangles for the items in order, inside the canvas and pairwise apart, each with the part of
      the given area that its value is of total. */
  ghost predicate Tiles(rs: seq<Rect>, items: seq<Item>, x: real, y: real, w: real, h: real, area: real, total: real)
  {
    && |rs| == |items|
    && (forall i :: 0 <= i < |rs| ==> rs[i].node == items[i].node && rs[i].value == items[i].value)
    && (forall i :: 0 <= i < |rs| ==> Inside(rs[i], x, y, w, h))
    && (forall i :: 0 <= i < |rs| ==> Proportional(rs[i], items[i], area, total))
    && (forall i, j :: 0 <= i < j < |rs| ==> Apart(rs[i], rs[j]))
  }

  /** Tiling a slice with the area it has is tiling it with its part of the whole area. */
  lemma TilesScale(rs: seq<Rect>, items: seq<Item>, x: real, y: real, w: real, h: real, area: real, sum: real,
                   whole: real, total: real)
    requires Tiles(rs, items, x, y, w, h, area, sum) && sum > 0.0 && area * total == whole * sum
    ensures Tiles(rs, items, x, y, w, h, whole, total)
  {
    forall i | 0 <= i < |rs| ensures Proportional(rs[i], items[i], whole, total) {
      assert Proportional(rs[i], items[i], area, sum);
      Rescale(rs[i].w * rs[i].h, items[i].value, area, sum, whole, total);
    }
  }

  lemma Rescale(a: real, v: real, area: real, sum: real, whole: real, total: real)
    requires a * sum == area * v && sum > 0.0 && area * total == whole * sum
    ensures a * total == whole * v
  {
    assert (a * total) * sum == (a * sum) * total;
    assert (area * v) * total == (area * total) * v;
    assert (whole * sum) * v == (whole * v) * sum;
    Cancel(a * total, whole * v, sum);
  }

  /** Tilings of two disjoint slices of a canvas, joined. */
  lemma TilesJoin(rs: seq<Rect>, row: seq<Item>, qs: seq<Rect>, rest: seq<Item>, down: bool, part: real, left: real,
                  x: real, y: real, w: real, h: real, area: real, total: real)
    requires 0.0 <= part && 0.0 <= left && part + left == (if down then h else w)
    requires if down then Tiles(rs, row, x, y, w, part, area, total) else Tiles(rs, row, x, y, part, h, area, total)
    requires if down then Tiles(qs, rest, x, y + part, w, left, area, total)
             else Tiles(qs, rest, x + part, y, left, h, area, total)
    ensures Tiles(rs + qs, row + rest, x, y, w, h, area, total)
  {
    hide Proportional;
    var all := rs + qs;
    forall i, j | 0 <= i < |rs| && 0 <= j < |qs| ensures Apart(rs[i], qs[j]) {
      assert if down then Inside(rs[i], x, y, w, part) else Inside(rs[i], x, y, part, h);
      assert if down then Inside(qs[j], x, y + part, w, left) else Inside(qs[j], x + part, y, left, h);
    }
    ApartJoin(rs, qs);
  }

  lemma ApartJoin(rs: seq<Rect>, qs: seq<Rect>)
    requires forall i, j :: 0 <= i < j < |rs| ==> Apart(rs[i], rs[j])
    requires forall i, j :: 0 <= i < j < |qs| ==> Apart(qs[i], qs[j])
    requires forall i, j :: 0 <= i < |rs| && 0 <= j < |qs| ==> Apart(rs[i], qs[j])
    ensures forall i, j :: 0 <= i < j < |rs + qs| ==> Apart((rs + qs)[i], (rs + qs)[j])
  {
    hide Apart;
    forall i, j | 0 <= i < j < |rs + qs| ensures Apart((rs + qs)[i], (rs + qs)[j]) {
      if j < |rs| {
        assert Apart(rs[i], rs[j]);
      } else if i >= |rs| {
        assert Apart(qs[i - |rs|], qs[j - |rs|]);
      } else {
        assert Apart(rs[i], qs[j - |rs|]);
      }
    }
  }

  lemma PositiveFront(row: seq<Item>)
    requires Positive(row) && |row| > 0
    ensures Positive(row[..|row| - 1]) && row[|row| - 1].value > 0.0
  {
  }

  lemma NothingTiles(x: real, y: real, w: real, h: real, down: bool, sum: real)
    requires sum > 0.0
    ensures var used := Share(if down then h else w, 0.0, sum);
            if down then Tiles([], [], x, y, w, used, w * h, sum) else Tiles([], [], x, y, used, h, w * h, sum)
  {
  }

  /** A strip tiles the part of its slice that its items take. */
  lemma {:induction false} StripTiles(row: seq<Item>, down: bool, x: real, y: real, w: real, h: real, sum: real)
    requires Positive(row) && sum > 0.0 && w >= 0.0 && h >= 0.0
    ensures var used := Share(if down then h else w, Sum(row), sum);
            var rs := Strip(row, down, x, y, w, h, sum);
            if down then Tiles(rs, row, x, y, w, used, w * h, sum) else Tiles(rs, row, x, y, used, h, w * h, sum)
    decreases |row|
  {
    hide Tiles, Share, Positive;
    if |row| == 0 {
      NothingTiles(x, y, w, h, down, sum);
    } else {
      var front, last := row[..|row| - 1], row[|row| - 1];
      var length := if down then h else w;
      var before, size := Share(length, Sum(front), sum), Share(length, last.value, sum);
      PositiveFront(row);
      StripTiles(front, down, x, y, w, h, sum);
      SumPositive(front);
      ShareNonnegative(length, Sum(front), sum);
      ShareNonnegative(length, last.value, sum);
      ShareAdds(length, Sum(front), last.value, sum);
      ShareTimesSum(length, last.value, sum);
      var cell := if down then Rect(x, y + before, w, size, last.node, last.value)
                  else Rect(x + before, y, size, h, last.node, last.value);
      CellTiles(cell, last, w, h, sum, length, down);
      TilesJoin(Strip(front, down, x, y, w, h, sum), front, [cell], [last], down, before, size, x, y,
                if down then w else before + size, if down then before + size else h, w * h, sum);
      assert front + [last] == row;
    }
  }

  lemma CellTiles(cell: Rect, item: Item, w: real, h: real, sum: real, length: real, down: bool)
    requires cell.node == item.node && cell.value == item.value && cell.w >= 0.0 && cell.h >= 0.0
    requires length == if down then h else w
    requires if down then cell.w == w && cell.h * sum == h * item.value else cell.h == h && cell.w * sum == w * item.value
    ensures Tiles([cell], [item], cell.x, cell.y, cell.w, cell.h, w * h, sum)
  {
    if down {
      assert cell.w * cell.h * sum == w * (cell.h * sum);
      assert w * h * item.value == w * (h * item.value);
    } else {
      assert cell.w * cell.h * sum == (cell.w * sum) * h;
      assert w * h * item.value == (w * item.value) * h;
    }
  }

  lemma RowAreas(w: real, h: real, part: real, left: real, sum: real, restSum: real, total: real)
    requires part * total == h * sum && part + left == h && sum + restSum == total
    ensures (w * part) * total == (w * h) * sum && (w * left) * total == (w * h) * restSum
    ensures (part * w) * total == (h * w) * sum && (left * w) * total == (h * w) * restSum
  {
    assert left * total == h * restSum;
    assert (w * part) * total == w * (part * total) && (w * h) * sum == w * (h * sum);
    assert (w * left) * total == w * (left * total) && (w * h) * restSum == w * (h * restSum);
  }

  lemma OneTiles(items: seq<Item>, x: real, y: real, w: real, h: real, total: real)
    requires Positive(items) && total == Sum(items) && w >= 0.0 && h >= 0.0 && |items| <= 1
    ensures Tiles(Layout(items, x, y, w, h, total), items, x, y, w, h, w * h, total)
  {
    if |items| == 1 {
      assert Sum(items) == items[0].value;
    }
  }

  /** How a canvas with several items divides: a row of at least one item, and the rest. */
  ghost predicate Divides(items: seq<Item>, row: seq<Item>, rest: seq<Item>, total: real)
  {
    && items == row + rest && |row| > 0 && Positive(row) && Positive(rest)
    && 0.0 < Sum(row) <= total && Sum(rest) == total - Sum(row) && (|rest| > 0 ==> Sum(row) < total)
  }

  lemma RowDivides(items: seq<Item>, k: nat, total: real)
    requires Positive(items) && total == Sum(items) && 0 < k <= |items|
    ensures Divides(items, items[..k], items[k..], total)
  {
    assert items[..k] + items[k..] == items;
    SumAppend(items[..k], items[k..]);
    SumPositive(items[..k]);
    SumPositive(items[k..]);
  }

  /** The layout tiles its rectangle. */
  lemma {:induction false} LayoutTiles(items: seq<Item>, x: real, y: real, w: real, h: real, total: real)
    requires Positive(items) && total == Sum(items) && w >= 0.0 && h >= 0.0
    ensures Tiles(Layout(items, x, y, w, h, total), items, x, y, w, h, w * h, total)
    decreases |items|
  {
    hide Tiles, Share, Strip, Sum, Positive;
    if |items| <= 1 {
      OneTiles(items, x, y, w, h, total);
    } else {
      var k := RowEnd(items, if w >= h then h else w, 0);
      RowDivides(items, k, total);
      if w >= h {
        DownTiles(items, k, x, y, w, h, total);
      } else {
        AcrossTiles(items, k, x, y, w, h, total);
      }
    }
  }

  lemma {:induction false} DownTiles(items: seq<Item>, k: nat, x: real, y: real, w: real, h: real, total: real)
    requires 0 < k <= |items| && Divides(items, items[..k], items[k..], total) && w >= 0.0 && h >= 0.0
    ensures var part := Share(h, Sum(items[..k]), total);
            Tiles(Strip(items[..k], true, x, y, w, part, Sum(items[..k]))
                  + Layout(items[k..], x, y + part, w, h - part, total - Sum(items[..k])),
                  items, x, y, w, h, w * h, total)
    decreases |items|, 0
  {
    hide Tiles, Share, Strip, Sum, Positive, Layout;
    var row, rest, sum := items[..k], items[k..], Sum(items[..k]);
    var part := SlicePart(h, sum, total);
    StripTiles(row, true, x, y, w, part, sum);
    var left, restSum := h - part, total - sum;
    LayoutTiles(rest, x, y + part, w, left, restSum);
    SlicesJoin(Strip(row, true, x, y, w, part, sum), row, Layout(rest, x, y + part, w, left, restSum), rest,
               true, part, left, x, y, w, h, sum, restSum, total);
  }

  lemma {:induction false} AcrossTiles(items: seq<Item>, k: nat, x: real, y: real, w: real, h: real, total: real)
    requires 0 < k <= |items| && Divides(items, items[..k], items[k..], total) && w >= 0.0 && h >= 0.0
    ensures var part := Share(w, Sum(items[..k]), total);
            Tiles(Strip(items[..k], false, x, y, part, h, Sum(items[..k]))
                  + Layout(items[k..], x + part, y, w - part, h, total - Sum(items[..k])),
                  items, x, y, w, h, w * h, total)
    decreases |items|, 0
  {
    hide Tiles, Share, Strip, Sum, Positive, Layout;
    var row, rest, sum := items[..k], items[k..], Sum(items[..k]);
    var part := SlicePart(w, sum, total);
    StripTiles(row, false, x, y, part, h, sum);
    var left, restSum := w - part, total - sum;
    LayoutTiles(rest, x + part, y, left, h, restSum);
    SlicesJoin(Strip(row, false, x, y, part, h, sum), row, Layout(rest, x + part, y, left, h, restSum), rest,
               false, part, left, x, y, w, h, sum, restSum, total);
  }

  lemma SlicePart(length: real, sum: real, total: real) returns (part: real)
    requires length >= 0.0 && 0.0 < sum <= total
    ensures part == Share(length, sum, total) && 0.0 <= part <= length && part * total == length * sum
    ensures Share(part, sum, sum) == part
  {
    part := Share(length, sum, total);
    ShareNonnegative(length, sum, total);
    ShareNonnegative(length, total - sum, total);
    ShareAdds(length, sum, total - sum, total);
    ShareAdds(length, sum, 0.0, total);
    ShareTimesSum(length, sum, total);
    ShareAdds(part, sum, 0.0, sum);
  }

  /** Two slices tiled for their own sums tile the whole. */
  lemma SlicesJoin(rs: seq<Rect>, row: seq<Item>, qs: seq<Rect>, rest: seq<Item>, down: bool, part: real, left: real,
                   x: real, y: real, w: real, h: real, sum: real, restSum: real, total: real)
    requires 0.0 < sum && 0.0 <= restSum && sum + restSum == total && (|rest| > 0 ==> restSum > 0.0)
    requires 0.0 <= part && 0.0 <= left && part + left == (if down then h else w)
    requires part * total == (if down then h else w) * sum
    requires if down then Tiles(rs, row, x, y, w, part, w * part, sum) else Tiles(rs, row, x, y, part, h, part * h, sum)
    requires if down then Tiles(qs, rest, x, y + part, w, left, w * left, restSum)
             else Tiles(qs, rest, x + part, y, left, h, left * h, restSum)
    ensures Tiles(rs + qs, row + rest, x, y, w, h, w * h, total)
  {
    hide Tiles;
    if down {
      RowAreas(w, h, part, left, sum, restSum, total);
      TilesScale(rs, row, x, y, w, part, w * part, sum, w * h, total);
    } else {
      RowAreas(h, w, part, left, sum, restSum, total);
      TilesScale(rs, row, x, y, part, h, part * h, sum, w * h, total);
    }
    if |rest| > 0 {
      if down {
        TilesScale(qs, rest, x, y + part, w, left, w * left, restSum, w * h, total);
      } else {
        TilesScale(qs, rest, x + part, y, left, h, left * h, restSum, w * h, total);
      }
    } else {
      EmptyTiles(qs, rest, down, part, left, x, y, w, h, restSum, total);
    }
    TilesJoin(rs, row, qs, rest, down, part, left, x, y, w, h, w * h, total);
  }

  lemma EmptyTiles(qs: seq<Rect>, rest: seq<Item>, down: bool, part: real, left: real,
                   x: real, y: real, w: real, h: real, restSum: real, total: real)
    requires rest == []
    requires if down then Tiles(qs, rest, x, y + part, w, left, w * left, restSum)
             else Tiles(qs, rest, x + part, y, left, h, left * h, restSum)
    ensures if down then Tiles(qs, rest, x, y + part, w, left, w * h, total)
            else Tiles(qs, rest, x + part, y, left, h, w * h, total)
  {
  }

  function TotalArea(rs: seq<Rect>): real
  {
    if |rs| == 0 then 0.0 else TotalArea(rs[..|rs| - 1]) + rs[|rs| - 1].w * rs[|rs| - 1].h
  }

  lemma {:induction false} AreasInProportion(rs: seq<Rect>, items: seq<Item>, area: real, total: real)
    requires |rs| == |items|
    requires forall i :: 0 <= i < |rs| ==> Proportional(rs[i], items[i], area, total)
    ensures TotalArea(rs) * total == area * Sum(items)
    decreases |rs|
  {
    if |rs| > 0 {
      var r, v := rs[|rs| - 1], items[|items| - 1].value;
      var before, cell := TotalArea(rs[..|rs| - 1]), r.w * r.h;
      AreasInProportion(rs[..|rs| - 1], items[..|rs| - 1], area, total);
      assert Proportional(r, items[|items| - 1], area, total);
      assert (before + cell) * total == before * total + cell * total;
      assert area * (Sum(items[..|rs| - 1]) + v) == area * Sum(items[..|rs| - 1]) + area * v;
    }
  }

  // ----- the descending, stable sort -----

  function Insert(x: Item, s: seq<Item>): seq<Item>
  {
    if |s| == 0 || x.value >= s[0].value then [x] + s else [s[0]] + Insert(x, s[1..])
  }

  function Sorted(items: seq<Item>): seq<Item>
  {
    if |items| == 0 then [] else Insert(items[0], Sorted(items[1..]))
  }

  /** Larger values first, equal ones in their original order. */
  predicate Before(a: Item, b: Item) { a.value > b.value || (a.value == b.value && a.idx < b.idx) }

  ghost predicate Ordered(s: seq<Item>) { forall i, j :: 0 <= i < j < |s| ==> Before(s[i], s[j]) }

  lemma {:induction false} InsertKeeps(x: Item, s: seq<Item>)
    ensures multiset(Insert(x, s)) == multiset{x} + multiset(s)
    ensures Sum(Insert(x, s)) == x.value + Sum(s)
  {
    if |s| == 0 || x.value >= s[0].value {
      SumAppend([x], s);
      assert Sum([x]) == x.value;
    } else {
      InsertKeeps(x, s[1..]);
      assert s == [s[0]] + s[1..];
      SumAppend([s[0]], Insert(x, s[1..]));
      SumAppend([s[0]], s[1..]);
    }
  }

  lemma {:induction false} InsertOrders(x: Item, s: seq<Item>)
    requires Ordered(s) && forall i :: 0 <= i < |s| ==> x.idx < s[i].idx
    ensures Ordered(Insert(x, s))
  {
    if |s| > 0 && x.value < s[0].value {
      var rest := Insert(x, s[1..]);
      InsertOrders(x, s[1..]);
      InsertKeeps(x, s[1..]);
      hide Insert, Sum;
      forall j | 0 <= j < |rest| ensures Before(s[0], rest[j]) {
        assert rest[j] in multiset(rest);
        assert rest[j] == x || rest[j] in s[1..];
      }
    }
  }

  lemma {:induction false} SortedPermutes(items: seq<Item>)
    ensures multiset(Sorted(items)) == multiset(items) && Sum(Sorted(items)) == Sum(items)
  {
    hide Insert;
    if |items| > 0 {
      var x, rest := items[0], items[1..];
      SortedPermutes(rest);
      InsertKeeps(x, Sorted(rest));
      assert items == [x] + rest;
      SumAppend([x], rest);
      assert Sum([x]) == x.value;
    }
  }

  lemma {:induction false} SortedOrders(items: seq<Item>)
    requires forall i, j :: 0 <= i < j < |items| ==> items[i].idx < items[j].idx
    ensures Ordered(Sorted(items))
  {
    hide Before, Insert;
    if |items| > 0 {
      var x, rest := items[0], items[1..];
      SortedOrders(rest);
      SortedPermutes(rest);
      forall i | 0 <= i < |Sorted(rest)| ensures x.idx < Sorted(rest)[i].idx {
        assert Sorted(rest)[i] in multiset(Sorted(rest));
        assert Sorted(rest)[i] in rest;
      }
      InsertOrders(x, Sorted(rest));
    }
  }

  /** Sorting permutes the items, puts larger values first and keeps equal ones in order. */
  lemma SortedIsStable(items: seq<Item>)
    requires forall i, j :: 0 <= i < j < |items| ==> items[i].idx < items[j].idx
    ensures multiset(Sorted(items)) == multiset(items) && Ordered(Sorted(items)) && Sum(Sorted(items)) == Sum(items)
  {
    hide Before, Sorted;
    SortedPermutes(items);
    SortedOrders(items);
  }

  function Indexed(children: seq<Child>): seq<Item>
  {
    seq(|children|, i requires 0 <= i < |children| => Item(children[i].node, children[i].value, i))
  }

  /** What the code is written for: a total that is not positive, or values that all are. */
  ghost predicate Sized(children: seq<Child>)
  {
    Sum(Indexed(children)) <= 0.0 || forall i :: 0 <= i < |children| ==> children[i].value > 0.0
  }

  lemma SortedPositive(children: seq<Child>)
    requires Sized(children) && Sum(Indexed(children)) > 0.0
    ensures var items := Sorted(Indexed(children));
            Positive(items) && Sum(items) == Sum(Indexed(children)) && |items| == |children|
            && multiset(items) == multiset(Indexed(children)) && Ordered(items)
  {
    var indexed := Indexed(children);
    var items := Sorted(indexed);
    SortedIsStable(indexed);
    assert |items| == |multiset(items)| == |multiset(indexed)| == |indexed|;
    forall i | 0 <= i < |items| ensures items[i].value > 0.0 {
      assert items[i] in multiset(items);
      assert items[i] in indexed;
    }
  }

  /** The rectangles squarify returns. */
  function Squarified(children: seq<Child>, x: real, y: real, w: real, h: real): seq<Rect>
    requires Sized(children)
  {
    var total := Sum(Indexed(children));
    if total <= 0.0 then []
    else
      SortedPositive(children);
      Layout(Sorted(Indexed(children)), x, y, w, h, total)
  }

  /** squarify tiles: for positive values it returns one rectangle per child, in order of falling value, all
      inside the canvas and pairwise apart, each with its share of the area, and together they fill it. */
  lemma SquarifyTiles(children: seq<Child>, x: real, y: real, w: real, h: real)
    requires |children| > 0 && (forall i :: 0 <= i < |children| ==> children[i].value > 0.0) && w >= 0.0 && h >= 0.0
    ensures Sized(children)
    ensures var items, total := Sorted(Indexed(children)), Sum(Indexed(children));
            var rs := Squarified(children, x, y, w, h);
            && multiset(items) == multiset(Indexed(children)) && Ordered(items) && total > 0.0
            && Tiles(rs, items, x, y, w, h, w * h, total) && TotalArea(rs) == w * h
  {
    var items, total := Sorted(Indexed(children)), Sum(Indexed(children));
    SumPositive(Indexed(children));
    hide Layout, Tiles, TotalArea, Sorted, Ordered, Sum, Indexed;
    SortedPositive(children);
    LayoutTiles(items, x, y, w, h, total);
    TilesFill(Layout(items, x, y, w, h, total), items, x, y, w, h, total);
  }

  lemma TilesFill(rs: seq<Rect>, items: seq<Item>, x: real, y: real, w: real, h: real, total: real)
    requires Tiles(rs, items, x, y, w, h, w * h, total) && total == Sum(items) && total > 0.0
    ensures TotalArea(rs) == w * h
  {
    hide Proportional, Inside, Apart, TotalArea, Sum;
    AreasInProportion(rs, items, w * h, total);
    Cancel(TotalArea(rs), w * h, total);
  }

  lemma LayoutBase(items: seq<Item>, x: real, y: real, w: real, h: real, total: real)
    requires Positive(items) && total == Sum(items)
    ensures |items| == 0 ==> Layout(items, x, y, w, h, total) == []
    ensures |items| == 1 ==> Layout(items, x, y, w, h, total) == [Rect(x, y, w, h, items[0].node, items[0].value)]
  {
  }

  lemma LayoutUnfolds(items: seq<Item>, k: nat, x: real, y: real, w: real, h: real, total: real)
    requires |items| > 1 && Positive(items) && total == Sum(items) && 0 < k <= |items|
    requires Divides(items, items[..k], items[k..], total)
    requires k == RowEnd(items, if w >= h then h else w, 0)
    ensures var row, rest, sum := items[..k], items[k..], Sum(items[..k]);
            if w >= h then
              var part := Share(h, sum, total);
              Layout(items, x, y, w, h, total)
              == Strip(row, true, x, y, w, part, sum) + Layout(rest, x, y + part, w, h - part, total - sum)
            else
              var part := Share(w, sum, total);
              Layout(items, x, y, w, h, total)
              == Strip(row, false, x, y, part, h, sum) + Layout(rest, x + part, y, w - part, h, total - sum)
  {
    hide Strip, Share, RowEnd, Sum, Positive;
    SumPositive(items);
  }

  // ----- the layout is one strip -----

  lemma {:induction false} StripLength(row: seq<Item>, down: bool, x: real, y: real, w: real, h: real, sum: real)
    requires sum > 0.0
    ensures |Strip(row, down, x, y, w, h, sum)| == |row|
  {
    hide Share;
    if |row| > 0 {
      StripLength(row[..|row| - 1], down, x, y, w, h, sum);
    }
  }

  /** A cell of a strip spans the strip and takes its share of the other side. */
  lemma {:induction false} StripCell(row: seq<Item>, down: bool, x: real, y: real, w: real, h: real, sum: real, i: nat)
    requires sum > 0.0 && i < |row|
    ensures |Strip(row, down, x, y, w, h, sum)| == |row|
    ensures Strip(row, down, x, y, w, h, sum)[i] ==
            if down then Rect(x, y + Share(h, Sum(row[..i]), sum), w, Share(h, row[i].value, sum), row[i].node, row[i].value)
            else Rect(x + Share(w, Sum(row[..i]), sum), y, Share(w, row[i].value, sum), h, row[i].node, row[i].value)
    decreases |row|
  {
    hide Share;
    var front := row[..|row| - 1];
    if i < |front| {
      StripCell(front, down, x, y, w, h, sum, i);
      assert front[..i] == row[..i];
    } else {
      StripLength(front, down, x, y, w, h, sum);
    }
  }

  /** Equal shares, cell by cell, make equal strips. */
  lemma StripScales(row: seq<Item>, down: bool, x: real, y: real, w: real, h: real, sum: real, total: real)
    requires 0.0 < sum && 0.0 < total
    ensures Strip(row, down, x, y, if down then w else Share(w, sum, total), if down then Share(h, sum, total) else h, sum)
            == Strip(row, down, x, y, w, h, total)
    decreases |row|
  {
    hide Share;
    if |row| > 0 {
      var front, last := row[..|row| - 1], row[|row| - 1];
      StripScales(front, down, x, y, w, h, sum, total);
      ShareOfShare(if down then h else w, Sum(front), sum, total);
      ShareOfShare(if down then h else w, last.value, sum, total);
    }
  }

  lemma ShareOfShare(length: real, value: real, sum: real, total: real)
    requires 0.0 < sum && 0.0 < total
    ensures Share(Share(length, sum, total), value, sum) == Share(length, value, total)
  {
    var part := Share(length, sum, total);
    ShareTimesSum(length, sum, total);
    ShareTimesSum(part, value, sum);
    ShareTimesSum(length, value, total);
    var a, b := Share(part, value, sum), Share(length, value, total);
    hide Share;
    assert (a * sum) * total == (part * value) * total == (part * total) * value == (length * sum) * value;
    assert (length * sum) * value == (length * value) * sum == (b * total) * sum;
    assert (a * total) * sum == (b * total) * sum;
    Cancel(a * total, b * total, sum);
    Cancel(a, b, total);
  }

  lemma {:induction false} StripContinues(row: seq<Item>, rest: seq<Item>, down: bool, x: real, y: real, w: real, h: real,
                                          total: real)
    requires total > 0.0
    ensures var used := Share(if down then h else w, Sum(row), total);
            Strip(row + rest, down, x, y, w, h, total) == Strip(row, down, x, y, w, h, total)
              + Strip(rest, down, if down then x else x + used, if down then y + used else y, w, h, total)
    decreases |rest|
  {
    hide Share, Sum;
    if |rest| == 0 {
      assert row + rest == row;
    } else {
      var front, last := rest[..|rest| - 1], rest[|rest| - 1];
      StripContinues(row, front, down, x, y, w, h, total);
      assert (row + rest)[..|row + rest| - 1] == row + front;
      SumAppend(row, front);
      ShareAdds(if down then h else w, Sum(row), Sum(front), total);
    }
  }

  /** A strip is a row of it in the row's slice and a strip in what the slice leaves. */
  lemma StripSplits(row: seq<Item>, rest: seq<Item>, down: bool, part: real, x: real, y: real, w: real, h: real,
                    sum: real, total: real)
    requires Sum(row) == sum && 0.0 < sum < total && part == Share(if down then h else w, sum, total)
    ensures Strip(row + rest, down, x, y, w, h, total)
            == Strip(row, down, x, y, if down then w else part, if down then part else h, sum)
               + Strip(rest, down, if down then x else x + part, if down then y + part else y,
                       if down then w else w - part, if down then h - part else h, total - sum)
  {
    hide Strip, Share, Sum;
    StripScales(row, down, x, y, w, h, sum, total);
    StripContinues(row, rest, down, x, y, w, h, total);
    ShareAdds(if down then h else w, sum, total - sum, total);
    StripScales(rest, down, if down then x else x + part, if down then y + part else y, w, h, total - sum, total);
  }

  /** Whatever rows the greedy choice takes, the layout is one strip of all the items: every rectangle spans the
      longer side and the choice reaches none of them. */
  lemma {:induction false} LayoutIsStrip(items: seq<Item>, x: real, y: real, w: real, h: real, total: real)
    requires Positive(items) && |items| > 0 && total == Sum(items) && w >= 0.0 && h >= 0.0
    ensures total > 0.0 && Layout(items, x, y, w, h, total) == Strip(items, w >= h, x, y, w, h, total)
    decreases |items|
  {
    SumPositive(items);
    hide Layout, Strip, Share, Sum, RowEnd, Positive;
    LayoutBase(items, x, y, w, h, total);
    if |items| == 1 {
      OneStrip(items, w >= h, x, y, w, h, total);
    } else {
      var k := RowEnd(items, if w >= h then h else w, 0);
      RowDivides(items, k, total);
      LayoutUnfolds(items, k, x, y, w, h, total);
      if w >= h {
        DownStrip(items, k, x, y, w, h, total);
      } else {
        AcrossStrip(items, k, x, y, w, h, total);
      }
    }
  }

  lemma {:induction false} DownStrip(items: seq<Item>, k: nat, x: real, y: real, w: real, h: real, total: real)
    requires 0 < k <= |items| && Divides(items, items[..k], items[k..], total) && w >= h >= 0.0
    ensures var part := Share(h, Sum(items[..k]), total);
            Strip(items[..k], true, x, y, w, part, Sum(items[..k]))
              + Layout(items[k..], x, y + part, w, h - part, total - Sum(items[..k]))
            == Strip(items, true, x, y, w, h, total)
    decreases |items|, 0
  {
    hide Strip, Share, Sum, Positive, Layout;
    var row, rest, sum := items[..k], items[k..], Sum(items[..k]);
    var part := SlicePart(h, sum, total);
    if |rest| == 0 {
      LayoutBase(rest, x, y + part, w, h - part, total - sum);
      StripScales(row, true, x, y, w, h, sum, total);
      assert row == items;
    } else {
      LayoutIsStrip(rest, x, y + part, w, h - part, total - sum);
      StripSplits(row, rest, true, part, x, y, w, h, sum, total);
    }
  }

  lemma {:induction false} AcrossStrip(items: seq<Item>, k: nat, x: real, y: real, w: real, h: real, total: real)
    requires 0 < k <= |items| && Divides(items, items[..k], items[k..], total) && 0.0 <= w < h
    ensures var part := Share(w, Sum(items[..k]), total);
            Strip(items[..k], false, x, y, part, h, Sum(items[..k]))
              + Layout(items[k..], x + part, y, w - part, h, total - Sum(items[..k]))
            == Strip(items, false, x, y, w, h, total)
    decreases |items|, 0
  {
    hide Strip, Share, Sum, Positive, Layout;
    var row, rest, sum := items[..k], items[k..], Sum(items[..k]);
    var part := SlicePart(w, sum, total);
    if |rest| == 0 {
      LayoutBase(rest, x + part, y, w - part, h, total - sum);
      StripScales(row, false, x, y, w, h, sum, total);
      assert row == items;
    } else {
      LayoutIsStrip(rest, x + part, y, w - part, h, total - sum);
      StripSplits(row, rest, false, part, x, y, w, h, sum, total);
    }
  }

  lemma OneStrip(items: seq<Item>, down: bool, x: real, y: real, w: real, h: real, total: real)
    requires Positive(items) && |items| == 1 && total == Sum(items) && total > 0.0
    ensures Strip(items, down, x, y, w, h, total) == [Rect(x, y, w, h, items[0].node, items[0].value)]
  {
    var length := if down then h else w;
    ShareAdds(length, 0.0, total, total);
    assert Sum(items[..0]) == 0.0 && items[0].value == total;
    hide Share;
    StripCell(items, down, x, y, w, h, total, 0);
  }

  /** The row a squarified layout begins with, after Bruls, Huizing and van Wijk: its items side by side along the
      shorter side, in a slice cut off the longer one. */
  function StandardRow(row: seq<Item>, x: real, y: real, w: real, h: real, total: real): seq<Rect>
    requires Positive(row) && |row| > 0 && total > 0.0
  {
    SumPositive(row);
    var sum := Sum(row);
    if w >= h then Strip(row, true, x, y, Share(w, sum, total), h, sum)
    else Strip(row, false, x, y, w, Share(h, sum, total), sum)
  }

  /** A row of a squarified layout agrees with what the code lays out exactly when the row takes all the items. */
  lemma RowIsStandardIff(items: seq<Item>, k: nat, x: real, y: real, w: real, h: real, total: real)
    requires Positive(items) && 0 < k <= |items| && total == Sum(items) && w > 0.0 && h > 0.0
    ensures total > 0.0 && |Layout(items, x, y, w, h, total)| == |items|
    ensures StandardRow(items[..k], x, y, w, h, total) == Layout(items, x, y, w, h, total)[..k] <==> k == |items|
  {
    var row, sum := items[..k], Sum(items[..k]);
    RowDivides(items, k, total);
    LayoutIsStrip(items, x, y, w, h, total);
    hide Layout, Sum, Positive;
    var side, length := if w >= h then w else h, if w >= h then h else w;
    ShareAdds(side, sum, total - sum, total);
    if k == |items| {
      assert row == items;
      StripLength(items, w >= h, x, y, w, h, total);
    } else {
      StripCell(items, w >= h, x, y, w, h, total, 0);
      var part := Share(side, sum, total);
      StripCell(row, w >= h, x, y, if w >= h then part else w, if w >= h then h else part, sum, 0);
      ShareGrows(side, total - sum, total);
    }
  }

  lemma ShareGrows(length: real, value: real, sum: real)
    requires length > 0.0 && value > 0.0 && sum > 0.0
    ensures Share(length, value, sum) > 0.0
  {
    QuotientPositive(value, sum);
    ProductPositive(length, value / sum);
  }

  // ----- worst against the rectangles -----

  /** The aspect ratio of a rectangle. */
  function AspectRatio(r: Rect): real
    requires r.w > 0.0 && r.h > 0.0
  {
    Max(r.w / r.h, r.h / r.w)
  }

  lemma CellSides(items: seq<Item>, i: nat, x: real, y: real, w: real, h: real, total: real)
    requires Positive(items) && i < |items| && total == Sum(items) && w > 0.0 && h > 0.0
    ensures total > 0.0 && |Layout(items, x, y, w, h, total)| == |items|
    ensures var r, cell := Layout(items, x, y, w, h, total)[i], Share(Min(w, h), items[i].value, total);
            r.w > 0.0 && r.h > 0.0 && cell > 0.0 && AspectRatio(r) == Max(Max(w, h) / cell, cell / Max(w, h))
  {
    LayoutIsStrip(items, x, y, w, h, total);
    StripCell(items, w >= h, x, y, w, h, total, i);
    ShareGrows(Min(w, h), items[i].value, total);
    hide Layout, Strip, Sum, Share;
  }

  /** The aspect ratio of a cell with the part v of total of the shorter side and all of the longer one. */
  function StripRatio(long: real, short: real, v: real, total: real): real
    requires short * v > 0.0
  {
    long * total / (short * v)
  }

  /** The aspect ratio of a rectangle of the layout. */
  lemma CellRatio(items: seq<Item>, i: nat, x: real, y: real, w: real, h: real, total: real)
    requires Positive(items) && i < |items| && total == Sum(items) && w > 0.0 && h > 0.0
    ensures |Layout(items, x, y, w, h, total)| == |items| && 0.0 < items[i].value <= total && Min(w, h) * items[i].value > 0.0
    ensures var r, v := Layout(items, x, y, w, h, total)[i], items[i].value;
            r.w > 0.0 && r.h > 0.0 && AspectRatio(r) == StripRatio(Max(w, h), Min(w, h), v, total)
  {
    CellSides(items, i, x, y, w, h, total);
    ValueBelowSum(items, i);
    SidesPositive(w, h);
    hide Layout, Sum, AspectRatio, Max, Min, Positive, Share, StripRatio;
    var cell, long := Share(Min(w, h), items[i].value, total), Max(w, h);
    ProductPositive(Min(w, h), items[i].value);
    ThinRatio(long, Min(w, h), items[i].value, total);
    MaxIsFirst(long / cell, cell / long);
  }

  lemma MaxIsFirst(a: real, b: real)
    requires a >= b
    ensures Max(a, b) == a
  {
  }

  lemma SidesPositive(w: real, h: real)
    requires w > 0.0 && h > 0.0
    ensures Max(w, h) >= Min(w, h) > 0.0 && Max(Min(w, h), 1.0) >= 1.0
  {
  }

  lemma {:induction false} ValueBelowSum(items: seq<Item>, i: nat)
    requires Positive(items) && i < |items|
    ensures 0.0 < items[i].value <= Sum(items)
    decreases |items|
  {
    var front := items[..|items| - 1];
    SumPositive(front);
    if i < |front| {
      ValueBelowSum(front, i);
    }
  }

  lemma ThinRatio(long: real, short: real, v: real, total: real)
    requires long >= short > 0.0 && 0.0 < v <= total
    ensures var cell := Share(short, v, total);
            && cell > 0.0 && short * v > 0.0 && long / cell >= cell / long
            && long / cell == StripRatio(long, short, v, total) >= 1.0
  {
    var cell := Share(short, v, total);
    ShareGrows(short, v, total);
    ShareTimesSum(short, v, total);
    hide Share;
    var q := long / cell;
    ProductPositive(short, v);
    assert q * cell == long;
    assert q * (short * v) == q * (cell * total) == (q * cell) * total == long * total;
    IsStripRatio(q, long, short, v, total);
    ShareBelow(short, v, total);
    LargerOverSmaller(long, cell);
  }

  lemma ShareBelow(length: real, value: real, sum: real)
    requires length >= 0.0 && 0.0 <= value <= sum && sum > 0.0
    ensures Share(length, value, sum) <= length
  {
    ShareTimesSum(length, value, sum);
    ProductGrows(length, value, sum);
    hide Share;
    Below(Share(length, value, sum), length, sum);
  }

  lemma ProductGrows(a: real, b: real, c: real)
    requires a >= 0.0 && b <= c
    ensures a * b <= a * c
  {
    ProductPositive(a, c - b);
    assert a * (c - b) == a * c - a * b;
  }

  lemma Below(a: real, b: real, c: real)
    requires c > 0.0 && a * c <= b * c
    ensures a <= b
  {
    assert (a - b) * c == a * c - b * c;
    if a > b {
      ProductPositive(a - b, c);
    }
  }

  lemma IsStripRatio(q: real, long: real, short: real, v: real, total: real)
    requires short * v > 0.0 && q * (short * v) == long * total
    ensures q == StripRatio(long, short, v, total)
  {
    var r := StripRatio(long, short, v, total);
    assert r * (short * v) == long * total;
    hide StripRatio;
    Cancel(q, r, short * v);
  }

  lemma LargerOverSmaller(a: real, b: real)
    requires a >= b > 0.0
    ensures a / b >= 1.0 >= b / a
  {
    var p, q := a / b, b / a;
    assert p * b == a && q * a == b;
    assert (1.0 - p) * b == b - a && (q - 1.0) * a == b - a;
    if p < 1.0 { ProductPositive(1.0 - p, b); }
    if q > 1.0 { ProductPositive(q - 1.0, a); }
  }

  /** The estimate of a cell, or its inverse, is the ratio of the strip: multiplied out, one equation for each. */
  predicate EstimateFits(v: real, sum: real, side: real, long: real, short: real, total: real)
  {
    || side * side * v * (short * v) == long * total * (sum * sum)
    || side * side * long * total == short * (sum * sum)
  }

  /** What worst computes for a cell of a candidate row is the aspect ratio of the cell's rectangle exactly when one
      of two equations between the sides, the value, the row's sum and the total holds. */
  lemma EstimateIsRatioIff(items: seq<Item>, k: nat, i: nat, x: real, y: real, w: real, h: real, total: real)
    requires Positive(items) && i < k <= |items| && total == Sum(items) && w > 0.0 && h > 0.0
    ensures |Layout(items, x, y, w, h, total)| == |items| && Sum(items[..k]) > 0.0
    ensures var r := Layout(items, x, y, w, h, total)[i];
            var v, sum, long, short, side := items[i].value, Sum(items[..k]), Max(w, h), Min(w, h), Max(Min(w, h), 1.0);
            && r.w > 0.0 && r.h > 0.0
            && (EstimatedRatio(v, sum, side) == AspectRatio(r)
                <==> EstimateFits(v, sum, side, long, short, total))
  {
    var v, sum, long, short, side := items[i].value, Sum(items[..k]), Max(w, h), Min(w, h), Max(Min(w, h), 1.0);
    SidesPositive(w, h);
    RowDivides(items, k, total);
    CellRatio(items, i, x, y, w, h, total);
    ValueBelowSum(items, i);
    hide Layout, Sum, AspectRatio, EstimatedRatio, Max, Min, Positive, StripRatio, EstimateFits;
    ThinRatio(long, short, v, total);
    RatiosEqualIff(side, v, sum, long, short, total);
  }

  lemma RatiosEqualIff(side: real, v: real, sum: real, long: real, short: real, total: real)
    requires v > 0.0 && sum > 0.0 && side >= 1.0 && short > 0.0 && long > 0.0 && total > 0.0
    requires short * v > 0.0 && StripRatio(long, short, v, total) >= 1.0
    ensures EstimatedRatio(v, sum, side) == StripRatio(long, short, v, total)
            <==> EstimateFits(v, sum, side, long, short, total)
  {
    var a, b, c, d := side * side * v, sum * sum, long * total, short * v;
    EstimateIsQuotient(v, sum, side);
    ProductPositive(sum, sum);
    ProductPositive(short, v);
    LargerQuotientIff(a, b, c, d);
    hide EstimatedRatio, Max;
    assert a * c == b * d <==> side * side * long * total == short * (sum * sum) by {
      TimesValue(side * side, v, long, total);
      assert b * d == short * b * v;
      if a * c == b * d {
        Cancel(side * side * long * total, short * b, v);
      }
    }
  }

  lemma TimesValue(square: real, v: real, long: real, total: real)
    ensures square * v * (long * total) == square * long * total * v
  {
    assert square * v * (long * total) == square * (v * (long * total)) == square * (long * total * v);
    assert square * (long * total * v) == square * (long * total) * v;
    assert square * (long * total) == square * long * total;
  }

  lemma EstimateIsQuotient(v: real, sum: real, side: real)
    requires v > 0.0 && sum > 0.0 && side >= 1.0
    ensures sum * sum > 0.0 && side * side * v / (sum * sum) > 0.0
    ensures EstimatedRatio(v, sum, side) == Max(side * side * v / (sum * sum), 1.0 / (side * side * v / (sum * sum)))
  {
    ProductPositive(side, side);
    ProductPositive(side * side, v);
    ProductPositive(sum, sum);
    QuotientPositive(side * side * v, sum * sum);
  }

  /** A quotient or its inverse is another one, at least 1, exactly when one of the cross products agrees. */
  lemma LargerQuotientIff(a: real, b: real, c: real, d: real)
    requires b > 0.0 && d > 0.0 && a / b > 0.0 && c / d >= 1.0
    ensures Max(a / b, 1.0 / (a / b)) == c / d <==> a * d == c * b || a * c == b * d
  {
    MaxIsIff(a / b, c / d);
    QuotientsEqual(a, b, c, d);
    QuotientsInverse(a, b, c, d);
  }

  lemma MaxIsIff(p: real, q: real)
    requires p > 0.0 && q >= 1.0
    ensures Max(p, 1.0 / p) == q <==> p == q || p * q == 1.0
  {
    var i := 1.0 / p;
    assert i * p == 1.0;
    if p >= 1.0 { LargerOverSmaller(p, 1.0); } else { LargerOverSmaller(1.0, p); }
    if p * q == 1.0 { Cancel(i, q, p); }
  }

  lemma QuotientsEqual(a: real, b: real, c: real, d: real)
    requires b > 0.0 && d > 0.0
    ensures a / b == c / d <==> a * d == c * b
  {
    var p, q := a / b, c / d;
    assert p * b == a && q * d == c;
    assert a * d == (p * b) * d == p * (b * d) && c * b == (q * d) * b == q * (b * d);
    if a * d == c * b {
      ProductPositive(b, d);
      Cancel(p, q, b * d);
    }
  }

  lemma QuotientsInverse(a: real, b: real, c: real, d: real)
    requires b > 0.0 && d > 0.0
    ensures (a / b) * (c / d) == 1.0 <==> a * c == b * d
  {
    var p, q := a / b, c / d;
    assert p * b == a && q * d == c;
    assert a * c == (p * b) * (q * d) == (p * q) * (b * d);
    if a * c == b * d {
      ProductPositive(b, d);
      Cancel(p * q, 1.0, b * d);
    }
  }

  /** Two equal children on a canvas of 100 by 1: worst gives 1 for the first alone and 4 for both, so a row of one
      is taken; the rectangles are 100 by 0.5 with the aspect ratio 200. */
  lemma FlatCanvas(a: Item, b: Item)
    requires a.value == 1.0 && b.value == 1.0
    ensures Positive([a]) && Positive([a, b]) && Sum([a, b]) == 2.0
    ensures WorstRatio([a], 1.0) == Finite(1.0) && WorstRatio([a, b], 1.0) == Finite(4.0)
    ensures RowEnd([a, b], 1.0, 0) == 1
    ensures var first, second := Rect(0.0, 0.0, 100.0, 0.5, a.node, 1.0), Rect(0.0, 0.5, 100.0, 0.5, b.node, 1.0);
            Layout([a, b], 0.0, 0.0, 100.0, 1.0, 2.0) == [first, second] && AspectRatio(first) == AspectRatio(second) == 200.0
  {
    FlatEstimates(a, b);
    assert Sum([a, b]) == 2.0 by {
      SumAppend([a], [b]);
      assert Sum([a]) == 1.0 && Sum([b]) == 1.0 && [a] + [b] == [a, b];
    }
    FlatRectangles(a, b);
  }

  lemma FlatEstimates(a: Item, b: Item)
    requires a.value == 1.0 && b.value == 1.0
    ensures Positive([a]) && Positive([a, b])
    ensures WorstRatio([a], 1.0) == Finite(1.0) && WorstRatio([a, b], 1.0) == Finite(4.0)
    ensures RowEnd([a, b], 1.0, 0) == 1
  {
    FlatRatios();
    hide EstimatedRatio;
    var items := [a, b];
    assert items[..1] == [a] && items[..2] == items && [a][..0] == [];
    assert Sum([a]) == 1.0 && Sum(items) == 2.0;
    assert MaxRatio([a], 1.0, 1.0) == 1.0 && MaxRatio([a], 2.0, 1.0) == 4.0;
    assert MaxRatio(items, 2.0, 1.0) == 4.0;
    FlatRow(a, b);
  }

  lemma FlatRatios()
    ensures EstimatedRatio(1.0, 1.0, 1.0) == 1.0 && EstimatedRatio(1.0, 2.0, 1.0) == 4.0
  {
    hide EstimatedRatio;
    EstimateIsQuotient(1.0, 1.0, 1.0);
    EstimateIsQuotient(1.0, 2.0, 1.0);
  }

  lemma FlatRow(a: Item, b: Item)
    requires Positive([a]) && Positive([a, b])
    requires WorstRatio([a], 1.0) == Finite(1.0) && WorstRatio([a, b], 1.0) == Finite(4.0)
    ensures RowEnd([a, b], 1.0, 0) == 1
  {
    hide WorstRatio;
    var items := [a, b];
    assert items[..1] == [a] && items[..2] == items;
    assert RowEnd(items, 1.0, 1) == 1;
  }

  lemma FlatRectangles(a: Item, b: Item)
    requires a.value == 1.0 && b.value == 1.0 && Positive([a, b]) && Sum([a, b]) == 2.0
    ensures Layout([a, b], 0.0, 0.0, 100.0, 1.0, 2.0)
            == [Rect(0.0, 0.0, 100.0, 0.5, a.node, 1.0), Rect(0.0, 0.5, 100.0, 0.5, b.node, 1.0)]
  {
    var items := [a, b];
    LayoutIsStrip(items, 0.0, 0.0, 100.0, 1.0, 2.0);
    StripCell(items, true, 0.0, 0.0, 100.0, 1.0, 2.0, 0);
    StripCell(items, true, 0.0, 0.0, 100.0, 1.0, 2.0, 1);
    assert items[..0] == [] && items[..1] == [a];
    assert Sum([a]) == 1.0 && Sum([]) == 0.0;
  }

  /** The whole of squarify: one strip of the sorted children. */
  lemma SquarifiedIsStrip(children: seq<Child>, x: real, y: real, w: real, h: real)
    requires Sized(children) && Sum(Indexed(children)) > 0.0 && w >= 0.0 && h >= 0.0
    ensures Squarified(children, x, y, w, h)
            == Strip(Sorted(Indexed(children)), w >= h, x, y, w, h, Sum(Indexed(children)))
  {
    SortedPositive(children);
    hide Layout, Strip, Sorted;
    LayoutIsStrip(Sorted(Indexed(children)), x, y, w, h, Sum(Indexed(children)));
  }

  // ----- the computation -----

  class Treemap {
    var rects: seq<Rect>

    constructor ()
      ensures rects == []
    {
      rects := [];
    }

    /** reduce((s, c) => s + c.value, 0) */
    static method Reduce(items: seq<Item>) returns (s: real)
      ensures s == Sum(items)
    {
      s := 0.0;
      for i := 0 to |items|
        invariant s == Sum(items[..i])
      {
        s := s + items[i].value;
        assert items[..i + 1][..i] == items[..i];
      }
      assert items[..|items|] == items;
    }

    static method Worst(row: seq<Item>, len: real) returns (worst: Ratio)
      requires Positive(row)
      ensures worst == WorstRatio(row, len)
    {
      if |row| == 0 { return Infinity; }
      SumPositive(row);
      var rowSum := Reduce(row);
      var l := Max(len, 1.0);
      var maxR := 0.0;
      for i := 0 to |row|
        invariant maxR == MaxRatio(row[..i], rowSum, l)
      {
        var ratio := EstimatedRatio(row[i].value, rowSum, l);
        assert row[..i + 1][..i] == row[..i];
        MaxRatioIsMaximum(row[..i + 1], rowSum, l);
        if ratio > maxR { maxR := ratio; }
      }
      assert row[..|row|] == row;
      worst := Finite(maxR);
    }

    method LayoutRow(row: seq<Item>, rx: real, ry: real, rw: real, rh: real)
      requires Positive(row) && |row| > 0
      modifies this
      ensures Sum(row) > 0.0 && rects == old(rects) + Strip(row, rw >= rh, rx, ry, rw, rh, Sum(row))
    {
      SumPositive(row);
      var rowSum := Reduce(row);
      var curX, curY := rx, ry;
      for i := 0 to |row|
        invariant rects == old(rects) + Strip(row[..i], rw >= rh, rx, ry, rw, rh, rowSum)
        invariant rw >= rh ==> curX == rx && curY == ry + Share(rh, Sum(row[..i]), rowSum)
        invariant rw < rh ==> curX == rx + Share(rw, Sum(row[..i]), rowSum) && curY == ry
      {
        var c := row[i];
        assert row[..i + 1][..i] == row[..i];
        if rw >= rh {
          var ch := Share(rh, c.value, rowSum);
          rects := rects + [Rect(curX, curY, rw, ch, c.node, c.value)];
          ShareAdds(rh, Sum(row[..i]), c.value, rowSum);
          curY := curY + ch;
        } else {
          var cw := Share(rw, c.value, rowSum);
          rects := rects + [Rect(curX, curY, cw, rh, c.node, c.value)];
          ShareAdds(rw, Sum(row[..i]), c.value, rowSum);
          curX := curX + cw;
        }
      }
      assert row[..|row|] == row;
    }

    /** The greedy loop: how many items the next row takes. */
    static method TakeRow(items: seq<Item>, len: real) returns (row: seq<Item>, remaining: seq<Item>)
      requires Positive(items)
      ensures var k := RowEnd(items, len, 0); row == items[..k] && remaining == items[k..]
    {
      row, remaining := [], items;
      while |remaining| > 0
        invariant |row| <= |items| && row == items[..|row|] && remaining == items[|row|..]
        invariant RowEnd(items, len, 0) == RowEnd(items, len, |row|)
        decreases |remaining|
      {
        var k := |row|;
        var newRow := row + [remaining[0]];
        assert newRow == items[..k + 1];
        var oldWorst := Worst(row, len);
        var newWorst := Worst(newRow, len);
        if |row| > 0 && Exceeds(newWorst, oldWorst) { break; }
        row := newRow;
        remaining := remaining[1..];
      }
    }

    method SquarifyInner(items: seq<Item>, rx: real, ry: real, rw: real, rh: real, itemTotal: real)
      requires Positive(items) && itemTotal == Sum(items) && rw >= 0.0 && rh >= 0.0
      modifies this
      ensures rects == old(rects) + Layout(items, rx, ry, rw, rh, itemTotal)
      decreases |items|
    {
      hide Layout, Strip, Share, Sum, Positive, RowEnd;
      LayoutBase(items, rx, ry, rw, rh, itemTotal);
      if |items| == 0 { return; }
      if |items| == 1 {
        rects := rects + [Rect(rx, ry, rw, rh, items[0].node, items[0].value)];
        return;
      }
      var isHoriz := rw >= rh;
      var len := if isHoriz then rh else rw;
      var row, remaining := TakeRow(items, len);
      RowDivides(items, |row|, itemTotal);
      LayoutUnfolds(items, |row|, rx, ry, rw, rh, itemTotal);
      var rowSum := Reduce(row);
      if isHoriz {
        var rowH := Share(rh, rowSum, itemTotal);
        ghost var part := SlicePart(rh, rowSum, itemTotal);
        LayoutRow(row, rx, ry, rw, rowH);
        SquarifyInner(remaining, rx, ry + rowH, rw, rh - rowH, itemTotal - rowSum);
      } else {
        var rowW := Share(rw, rowSum, itemTotal);
        ghost var part := SlicePart(rw, rowSum, itemTotal);
        LayoutRow(row, rx, ry, rowW, rh);
        SquarifyInner(remaining, rx + rowW, ry, rw - rowW, rh, itemTotal - rowSum);
      }
    }
  }

  method Squarify(children: seq<Child>, x: real, y: real, w: real, h: real) returns (rects: seq<Rect>)
    requires Sized(children) && w >= 0.0 && h >= 0.0
    ensures rects == Squarified(children, x, y, w, h)
  {
    if |children| == 0 { return []; }
    var indexed := Indexed(children);
    var total := Treemap.Reduce(indexed);
    if total <= 0.0 { return []; }
    var treemap := new Treemap();
    SortedPositive(children);
    treemap.SquarifyInner(Sorted(indexed), x, y, w, h, total);
    rects := treemap.rects;
  }
}