/** The region boxes of the CASS image plugin: the segmentation mask is
    scanned row by row, every pixel is counted under its region's label and
    added to that region's bounding box. */
module CassRegions {

  const INT_MAX: int := 0x7fff_ffff
  const INT_MIN: int := -0x8000_0000

  predicate IsInt(x: int) {
    INT_MIN <= x <= INT_MAX
  }

  /** A pixel as (column, row). */
  type Point = (int, int)

  /** The sums of the columns and of the rows of a list of pixels. */
  function SumX(ps: seq<Point>): int {
    if ps == [] then 0 else SumX(ps[..|ps| - 1]) + ps[|ps| - 1].0
  }

  function SumY(ps: seq<Point>): int {
    if ps == [] then 0 else SumY(ps[..|ps| - 1]) + ps[|ps| - 1].1
  }

  function Sum(s: seq<int>): int {
    if s == [] then 0 else Sum(s[..|s| - 1]) + s[|s| - 1]
  }

  /** Adding one to one entry adds one to the total. */
  lemma {:induction false} SumIncrement(s: seq<int>, r: nat)
    requires r < |s|
    ensures Sum(s[r := s[r] + 1]) == Sum(s) + 1
  {
    var t := s[r := s[r] + 1];
    var n := |s| - 1;
    if r < n {
      SumIncrement(s[..n], r);
      assert t[..n] == s[..n][r := s[r] + 1];
    } else {
      assert t[..n] == s[..n];
    }
  }

  /** The fields of a Box: the half-open bounds [u1, u2) x [v1, v2), the
      coordinate sums and the pixel count. */
  datatype Summary = Summary(u1: int, v1: int, u2: int, v2: int, cx: int, cy: int, np: int)

  /** The fields of a new Box. */
  const EMPTY := Summary(INT_MAX, INT_MAX, INT_MIN, INT_MIN, 0, 0, 0)

  /** The field updates of Box::insert(x, y). */
  function InsertInto(s: Summary, x: int, y: int): Summary {
    Summary(if x < s.u1 then x else s.u1, if y < s.v1 then y else s.v1,
            if x >= s.u2 then x + 1 else s.u2, if y >= s.v2 then y + 1 else s.v2,
            s.cx + x, s.cy + y, s.np + 1)
  }

  /** The fields of a Box after its pixels were inserted in order. */
  function Summarize(ps: seq<Point>): Summary {
    if ps == [] then EMPTY
    else InsertInto(Summarize(ps[..|ps| - 1]), ps[|ps| - 1].0, ps[|ps| - 1].1)
  }

  predicate Inside(s: Summary, p: Point) {
    s.u1 <= p.0 < s.u2 && s.v1 <= p.1 < s.v2
  }

  predicate Coordinates(ps: seq<Point>) {
    forall k :: 0 <= k < |ps| ==> IsInt(ps[k].0) && IsInt(ps[k].1)
  }

  /** Each bound is reached by some pixel: u1 is a smallest column, u2 one
      past a largest, and the same for rows. */
  predicate Tight(s: Summary, ps: seq<Point>) {
    && (exists k :: 0 <= k < |ps| && ps[k].0 == s.u1)
    && (exists k :: 0 <= k < |ps| && ps[k].0 + 1 == s.u2)
    && (exists k :: 0 <= k < |ps| && ps[k].1 == s.v1)
    && (exists k :: 0 <= k < |ps| && ps[k].1 + 1 == s.v2)
  }

  /** The count and the sums of a Box are those of its pixels. */
  lemma {:induction false} SummarizeCounts(ps: seq<Point>)
    ensures Summarize(ps).np == |ps|
    ensures Summarize(ps).cx == SumX(ps) && Summarize(ps).cy == SumY(ps)
  {
    if ps != [] {
      SummarizeCounts(ps[..|ps| - 1]);
    }
  }

  /** After at least one insert, the box [u1, u2) x [v1, v2) is the least
      one holding every inserted pixel. */
  lemma {:induction false} SummarizeCovers(ps: seq<Point>)
    requires ps != [] && Coordinates(ps)
    ensures forall k :: 0 <= k < |ps| ==> Inside(Summarize(ps), ps[k])
    ensures Tight(Summarize(ps), ps)
  {
    var n := |ps| - 1;
    var qs := ps[..n];
    var p := ps[n];
    assert ps == qs + [p];
    if qs == [] {
      assert Summarize(ps) == InsertInto(EMPTY, p.0, p.1);
    } else {
      SummarizeCovers(qs);
      var s := Summarize(qs);
      var t := Summarize(ps);
      assert t == InsertInto(s, p.0, p.1);
      forall k | 0 <= k < |ps|
        ensures Inside(t, ps[k])
      {
        if k < n {
          assert ps[k] == qs[k];
          assert Inside(s, qs[k]);
        }
      }
      TightStep(s, qs, p);
    }
  }

  lemma TightStep(s: Summary, qs: seq<Point>, p: Point)
    requires Tight(s, qs)
    ensures Tight(InsertInto(s, p.0, p.1), qs + [p])
  {
    var ps := qs + [p];
    var t := InsertInto(s, p.0, p.1);
    assert ps[|qs|] == p;
    var a :| 0 <= a < |qs| && qs[a].0 == s.u1;
    var b :| 0 <= b < |qs| && qs[b].0 + 1 == s.u2;
    var c :| 0 <= c < |qs| && qs[c].1 == s.v1;
    var d :| 0 <= d < |qs| && qs[d].1 + 1 == s.v2;
    assert ps[a] == qs[a] && ps[b] == qs[b] && ps[c] == qs[c] && ps[d] == qs[d];
  }

  class Box {
    var u1: int
    var v1: int
    var u2: int
    var v2: int
    var cx: int
    var cy: int
    var np: int
    /** The pixels inserted so far, in order. */
    ghost var points: seq<Point>

    function Fields(): Summary
      reads this
    {
      Summary(u1, v1, u2, v2, cx, cy, np)
    }

    ghost predicate Valid()
      reads this
    {
      Fields() == Summarize(points)
    }

    /** A new Box: u1 = v1 = INT_MAX, u2 = v2 = INT_MIN, sums and count 0. */
    constructor ()
      ensures Valid() && points == []
      ensures u1 == INT_MAX && v1 == INT_MAX && u2 == INT_MIN && v2 == INT_MIN
      ensures cx == 0 && cy == 0 && np == 0
    {
      u1, v1 := INT_MAX, INT_MAX;
      u2, v2 := INT_MIN, INT_MIN;
      cx, cy, np := 0, 0, 0;
      points := [];
    }

    /** insert(x, y): widens the bounds to the pixel and adds it to the sums
        and the count. */
    method Insert(x: int, y: int)
      requires Valid() && IsInt(x) && IsInt(y)
      modifies this
      ensures Valid() && points == old(points) + [(x, y)]
      ensures np == old(np) + 1 && cx == old(cx) + x && cy == old(cy) + y
    {
      ghost var s := InsertInto(Fields(), x, y);
      if x < u1 {
        u1 := x;
      }
      if y < v1 {
        v1 := y;
      }
      if x >= u2 {
        u2 := x + 1;
      }
      if y >= v2 {
        v2 := y + 1;
      }
      cx := cx + x;
      cy := cy + y;
      np := np + 1;
      points := points + [(x, y)];
      assert points[..|points| - 1] == old(points);
      assert Fields() == s;
    }
  }

  /** The pixels of columns 0 .. j-1 of row i labelled r, left to right. */
  function RowPoints(row: seq<nat>, i: nat, r: nat, j: nat): seq<Point>
    requires j <= |row|
  {
    if j == 0 then []
    else RowPoints(row, i, r, j - 1) + (if row[j - 1] == r then [(j - 1, i)] else [])
  }

  /** The pixels of rows 0 .. i-1 of the mask labelled r, in scan order. */
  function MaskPoints(mask: seq<seq<nat>>, r: nat, i: nat): seq<Point>
    requires i <= |mask|
  {
    if i == 0 then []
    else MaskPoints(mask, r, i - 1) + RowPoints(mask[i - 1], i - 1, r, |mask[i - 1]|)
  }

  /** The region of pixel (column j, row i) is its mask label. */
  predicate LabelledAt(mask: seq<seq<nat>>, r: nat, p: Point) {
    0 <= p.1 < |mask| && 0 <= p.0 < |mask[p.1]| && mask[p.1][p.0] == r
  }

  lemma {:induction false} RowPointsMembers(row: seq<nat>, i: nat, r: nat, j: nat, p: Point)
    requires j <= |row|
    ensures p in RowPoints(row, i, r, j) <==> p.1 == i && 0 <= p.0 < j && row[p.0] == r
  {
    if j > 0 {
      RowPointsMembers(row, i, r, j - 1, p);
    }
  }

  /** A pixel is among region r's pixels exactly when its label is r. */
  lemma {:induction false} MaskPointsMembers(mask: seq<seq<nat>>, r: nat, i: nat, p: Point)
    requires i <= |mask|
    ensures p in MaskPoints(mask, r, i) <==> p.1 < i && LabelledAt(mask, r, p)
  {
    if i > 0 {
      MaskPointsMembers(mask, r, i - 1, p);
      RowPointsMembers(mask[i - 1], i - 1, r, |mask[i - 1]|, p);
    }
  }

  /** The pixels of the first i rows. */
  function Pixels(mask: seq<seq<nat>>, i: nat): nat
    requires i <= |mask|
  {
    if i == 0 then 0 else Pixels(mask, i - 1) + |mask[i - 1]|
  }

  /** A rows x cols mask has rows * cols pixels. */
  lemma {:induction false} PixelsRect(mask: seq<seq<nat>>, cols: nat, i: nat)
    requires i <= |mask|
    requires forall k :: 0 <= k < |mask| ==> |mask[k]| == cols
    ensures Pixels(mask, i) == i * cols
  {
    if i > 0 {
      PixelsRect(mask, cols, i - 1);
    }
  }

  /** A segmentation mask of rows of equal length whose labels are below
      the region count. */
  predicate Mask(mask: seq<seq<nat>>, cols: nat, regions: nat) {
    && (forall i :: 0 <= i < |mask| ==> |mask[i]| == cols)
    && (forall i, j :: 0 <= i < |mask| && 0 <= j < cols ==> mask[i][j] < regions)
    && |mask| <= INT_MAX && cols <= INT_MAX
  }

  /** Distinct boxes, each agreeing with its pixel list. */
  ghost predicate Boxes(bs: seq<Box>)
    reads set b | b in bs
  {
    && (forall r, s :: 0 <= r < s < |bs| ==> bs[r] != bs[s])
    && (forall r :: 0 <= r < |bs| ==> bs[r].Valid())
  }

  /** The pixel lists of the boxes. */
  ghost function Points(bs: seq<Box>): (r: seq<seq<Point>>)
    reads set b | b in bs
    ensures |r| == |bs|
  {
    seq(|bs|, k requires 0 <= k < |bs| reads set b | b in bs => bs[k].points)
  }

  function Lengths(ss: seq<seq<Point>>): (r: seq<int>)
    ensures |r| == |ss|
  {
    seq(|ss|, k requires 0 <= k < |ss| => |ss[k]|)
  }

  lemma LengthsAppend(ss: seq<seq<Point>>, r: nat, p: Point)
    requires r < |ss|
    ensures Lengths(ss[r := ss[r] + [p]]) == Lengths(ss)[r := |ss[r]| + 1]
  {
  }

  /** The pixels of region r up to column j of row i, in scan order. */
  function Scanned(mask: seq<seq<nat>>, r: nat, i: nat, j: nat): seq<Point>
    requires i < |mask| && j <= |mask[i]|
  {
    MaskPoints(mask, r, i) + RowPoints(mask[i], i, r, j)
  }

  lemma ScannedStep(mask: seq<seq<nat>>, r: nat, i: nat, j: nat)
    requires i < |mask| && j < |mask[i]|
    ensures Scanned(mask, r, i, j + 1) == Scanned(mask, r, i, j) + (if mask[i][j] == r then [(j, i)] else [])
  {
    var a, b := MaskPoints(mask, r, i), RowPoints(mask[i], i, r, j);
    var c: seq<Point> := if mask[i][j] == r then [(j, i)] else [];
    assert a + (b + c) == (a + b) + c;
  }

  /** The pixels of every region up to column j of row i. */
  function ScannedAll(mask: seq<seq<nat>>, regions: nat, i: nat, j: nat): (r: seq<seq<Point>>)
    requires i < |mask| && j <= |mask[i]|
    ensures |r| == regions
  {
    seq(regions, q requires 0 <= q < regions => Scanned(mask, q, i, j))
  }

  /** The pixels of every region in the first i rows. */
  function MaskAll(mask: seq<seq<nat>>, regions: nat, i: nat): (r: seq<seq<Point>>)
    requires i <= |mask|
    ensures |r| == regions
  {
    seq(regions, q requires 0 <= q < regions => MaskPoints(mask, q, i))
  }

  /** Visiting pixel (j, i) appends it to the list of its own region only. */
  lemma ScannedAllStep(mask: seq<seq<nat>>, regions: nat, i: nat, j: nat)
    requires i < |mask| && j < |mask[i]| && mask[i][j] < regions
    ensures var a := ScannedAll(mask, regions, i, j);
            ScannedAll(mask, regions, i, j + 1) == a[mask[i][j] := a[mask[i][j]] + [(j, i)]]
  {
    var a := ScannedAll(mask, regions, i, j);
    var b := ScannedAll(mask, regions, i, j + 1);
    var c := a[mask[i][j] := a[mask[i][j]] + [(j, i)]];
    forall q | 0 <= q < regions
      ensures b[q] == c[q]
    {
      ScannedStep(mask, q, i, j);
    }
  }

  lemma RowStart(mask: seq<seq<nat>>, regions: nat, i: nat)
    requires i < |mask|
    ensures ScannedAll(mask, regions, i, 0) == MaskAll(mask, regions, i)
  {
    forall r | 0 <= r < regions
      ensures Scanned(mask, r, i, 0) == MaskPoints(mask, r, i)
    {
      assert MaskPoints(mask, r, i) + [] == MaskPoints(mask, r, i);
    }
  }

  lemma RowEnd(mask: seq<seq<nat>>, regions: nat, i: nat)
    requires i < |mask|
    ensures ScannedAll(mask, regions, i, |mask[i]|) == MaskAll(mask, regions, i + 1)
  {
  }

  lemma {:induction false} ZeroSum(s: seq<int>)
    requires forall k :: 0 <= k < |s| ==> s[k] == 0
    ensures Sum(s) == 0
  {
    if s != [] {
      ZeroSum(s[..|s| - 1]);
    }
  }

  /** vector<Box> boxes(regions): one new Box per region. */
  method NewBoxes(regions: nat) returns (bs: seq<Box>)
    ensures |bs| == regions && Boxes(bs)
    ensures forall r :: 0 <= r < regions ==> fresh(bs[r])
    ensures Points(bs) == MaskAll([], regions, 0)
  {
    bs := [];
    while |bs| < regions
      invariant |bs| <= regions && Boxes(bs)
      invariant forall r :: 0 <= r < |bs| ==> fresh(bs[r]) && bs[r].points == []
    {
      var b := new Box();
      bs := bs + [b];
    }
  }

  /** The region loop of extract_path: each pixel (column j, row i) goes to
      boxes[label] and adds one to weights[label]. */
  method CreateBoxes(mask: seq<seq<nat>>, cols: nat, regions: nat) returns (weights: array<int>, boxes: seq<Box>)
    requires Mask(mask, cols, regions)
    ensures fresh(weights) && weights.Length == regions
    ensures |boxes| == regions && Boxes(boxes)
    ensures forall r :: 0 <= r < regions ==> fresh(boxes[r])
    ensures Points(boxes) == MaskAll(mask, regions, |mask|)
    ensures weights[..] == Lengths(MaskAll(mask, regions, |mask|))
    ensures Sum(weights[..]) == |mask| * cols
  {
    weights := new int[regions](_ => 0);
    boxes := NewBoxes(regions);
    ZeroSum(weights[..]);
    EmptyStart(mask, regions);
    ScanMask(mask, cols, regions, weights, boxes);
    PixelsRect(mask, cols, |mask|);
  }

  lemma EmptyStart(mask: seq<seq<nat>>, regions: nat)
    ensures MaskAll(mask, regions, 0) == MaskAll([], regions, 0)
    ensures Lengths(MaskAll(mask, regions, 0)) == seq(regions, _ => 0)
  {
  }

  /** The two loops of the region scan. */
  method ScanMask(mask: seq<seq<nat>>, cols: nat, regions: nat, weights: array<int>, boxes: seq<Box>)
    requires Mask(mask, cols, regions)
    requires weights.Length == regions && |boxes| == regions && Boxes(boxes)
    requires Points(boxes) == MaskAll(mask, regions, 0)
    requires weights[..] == Lengths(MaskAll(mask, regions, 0))
    requires Sum(weights[..]) == 0
    modifies weights, set b | b in boxes
    ensures Boxes(boxes)
    ensures Points(boxes) == MaskAll(mask, regions, |mask|)
    ensures weights[..] == Lengths(MaskAll(mask, regions, |mask|))
    ensures Sum(weights[..]) == Pixels(mask, |mask|)
  {
    var i := 0;
    while i < |mask|
      invariant 0 <= i <= |mask|
      invariant Boxes(boxes)
      invariant Points(boxes) == MaskAll(mask, regions, i)
      invariant weights[..] == Lengths(MaskAll(mask, regions, i))
      invariant Sum(weights[..]) == Pixels(mask, i)
    {
      ScanNextRow(mask, cols, regions, i, weights, boxes);
      i := i + 1;
    }
  }

  /** The outer loop body for row i. */
  method ScanNextRow(mask: seq<seq<nat>>, cols: nat, regions: nat, i: nat, weights: array<int>, boxes: seq<Box>)
    requires Mask(mask, cols, regions) && i < |mask|
    requires weights.Length == regions && |boxes| == regions && Boxes(boxes)
    requires Points(boxes) == MaskAll(mask, regions, i)
    requires weights[..] == Lengths(MaskAll(mask, regions, i))
    requires Sum(weights[..]) == Pixels(mask, i)
    modifies weights, set b | b in boxes
    ensures Boxes(boxes)
    ensures Points(boxes) == MaskAll(mask, regions, i + 1)
    ensures weights[..] == Lengths(MaskAll(mask, regions, i + 1))
    ensures Sum(weights[..]) == Pixels(mask, i + 1)
  {
    RowStart(mask, regions, i);
    ScanRow(mask, cols, regions, i, weights, boxes);
    RowEnd(mask, regions, i);
  }

  /** The state of the region scan after the pixels of row i before column
      j: each box holds its region's pixels so far, each weight counts them. */
  ghost predicate RowScanned(mask: seq<seq<nat>>, regions: nat, i: nat, j: nat, weights: array<int>, boxes: seq<Box>)
    requires i < |mask| && j <= |mask[i]|
    reads weights, set b | b in boxes
  {
    && weights.Length == regions && |boxes| == regions && Boxes(boxes)
    && Points(boxes) == ScannedAll(mask, regions, i, j)
    && weights[..] == Lengths(ScannedAll(mask, regions, i, j))
    && Sum(weights[..]) == Pixels(mask, i) + j
  }

  /** Row i of a mask: cols labels below regions, at an int row number. */
  predicate MaskRow(mask: seq<seq<nat>>, cols: nat, regions: nat, i: nat) {
    && i < |mask| && |mask[i]| == cols && i <= INT_MAX && cols <= INT_MAX
    && (forall j :: 0 <= j < cols ==> mask[i][j] < regions)
  }

  /** The inner loop: row i, column by column. */
  method ScanRow(mask: seq<seq<nat>>, cols: nat, regions: nat, i: nat, weights: array<int>, boxes: seq<Box>)
    requires MaskRow(mask, cols, regions, i)
    requires RowScanned(mask, regions, i, 0, weights, boxes)
    modifies weights, set b | b in boxes
    ensures RowScanned(mask, regions, i, cols, weights, boxes)
  {
    for j := 0 to cols
      invariant RowScanned(mask, regions, i, j, weights, boxes)
    {
      ScanPixel(mask, cols, regions, i, j, weights, boxes);
    }
  }

  /** The loop body for pixel (column j, row i). */
  method ScanPixel(mask: seq<seq<nat>>, cols: nat, regions: nat, i: nat, j: nat, weights: array<int>, boxes: seq<Box>)
    requires MaskRow(mask, cols, regions, i) && j < cols
    requires RowScanned(mask, regions, i, j, weights, boxes)
    modifies weights, set b | b in boxes
    ensures RowScanned(mask, regions, i, j + 1, weights, boxes)
  {
    var r := mask[i][j];
    ghost var before := weights[..];
    ghost var a := ScannedAll(mask, regions, i, j);
    Visit(boxes, weights, r, j, i);
    SumIncrement(before, r);
    ScannedAllStep(mask, regions, i, j);
    LengthsAppend(a, r, (j, i));
  }

  /** One pixel of the loop body: boxes[r].insert(x, y) and ++weights[r]. */
  method Visit(boxes: seq<Box>, weights: array<int>, r: nat, x: int, y: int)
    requires Boxes(boxes) && r < |boxes| && weights.Length == |boxes| && IsInt(x) && IsInt(y)
    modifies boxes[r], weights
    ensures Boxes(boxes)
    ensures Points(boxes) == old(Points(boxes))[r := old(Points(boxes))[r] + [(x, y)]]
    ensures weights[..] == old(weights[..])[r := old(weights[r]) + 1]
  {
    ghost var pts := Points(boxes);
    boxes[r].Insert(x, y);
    weights[r] := weights[r] + 1;
    forall q | 0 <= q < |boxes| && q != r
      ensures boxes[q].points == pts[q]
    {
      assert boxes[q] != boxes[r];
    }
  }

  /** The integer inputs of one object part: the region's pixel count (its
      weight) and its box. */
  datatype Part = Part(pixels: int, box: Summary)

  function PixelCounts(parts: seq<Part>): (r: seq<int>)
    ensures |r| == |parts|
  {
    seq(|parts|, k requires 0 <= k < |parts| => parts[k].pixels)
  }

  /** obj->parts.resize(regions) and the loop over the regions. */
  method MakeParts(weights: array<int>, boxes: seq<Box>) returns (parts: seq<Part>)
    requires weights.Length == |boxes|
    ensures |parts| == |boxes|
    ensures forall r :: 0 <= r < |boxes| ==> parts[r] == Part(weights[r], boxes[r].Fields())
  {
    parts := [];
    var i := 0;
    while i < |boxes|
      invariant 0 <= i <= |boxes| && |parts| == i
      invariant forall r :: 0 <= r < i ==> parts[r] == Part(weights[r], boxes[r].Fields())
    {
      parts := parts + [Part(weights[i], boxes[i].Fields())];
      i := i + 1;
    }
  }

  /** The region part of extract_path: one part per region, holding the
      number of pixels labelled with it and the box of exactly those pixels;
      the counts add up to the image's pixels. */
  method ExtractRegions(mask: seq<seq<nat>>, cols: nat, regions: nat) returns (parts: seq<Part>)
    requires Mask(mask, cols, regions)
    ensures |parts| == regions
    ensures forall r :: 0 <= r < regions ==> parts[r] == Region(mask, r)
    ensures Sum(PixelCounts(parts)) == |mask| * cols
  {
    var weights, boxes := CreateBoxes(mask, cols, regions);
    parts := MakeParts(weights, boxes);
    forall r | 0 <= r < regions
      ensures parts[r] == Region(mask, r)
    {
      assert Points(boxes)[r] == boxes[r].points;
      assert boxes[r].Valid();
    }
    assert PixelCounts(parts) == weights[..];
  }

  /** What a region's part holds: the count and the box of the pixels
      labelled with it. */
  function Region(mask: seq<seq<nat>>, r: nat): Part {
    var ps := MaskPoints(mask, r, |mask|);
    Part(|ps|, Summarize(ps))
  }

  /** Every pixel labelled r lies in region r's box, and no pixel of another
      label is counted in it. */
  lemma RegionBox(mask: seq<seq<nat>>, cols: nat, regions: nat, r: nat, p: Point)
    requires Mask(mask, cols, regions)
    ensures p in MaskPoints(mask, r, |mask|) <==> LabelledAt(mask, r, p)
    ensures LabelledAt(mask, r, p) ==> Region(mask, r).pixels > 0 && Inside(Region(mask, r).box, p)
  {
    var ps := MaskPoints(mask, r, |mask|);
    MaskPointsMembers(mask, r, |mask|, p);
    if LabelledAt(mask, r, p) {
      forall k | 0 <= k < |ps|
        ensures IsInt(ps[k].0) && IsInt(ps[k].1)
      {
        MaskPointsMembers(mask, r, |mask|, ps[k]);
      }
      SummarizeCovers(ps);
      var k :| 0 <= k < |ps| && ps[k] == p;
    }
  }
}
