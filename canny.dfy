/** The back end of CannyEdge.cs: non-maximum suppression in place along the
    gradient axis, the double threshold and its OR, the conversion to bytes,
    and hysteresis by worklist propagation. The gradient magnitude `imageG`
    and the direction map `imageT` are inputs. */
module CannyEdge {
  import opened Grids
  import opened Helpers

  // ---------------------------------------------------------------------------
  // Non-maximum suppression

  /** The two neighbour offsets compared along axis `d`: (dx1, dy1, dx2, dy2). */
  function AxisOffsets(d: int): (o: (int, int, int, int))
    requires 0 <= d < 4
    ensures o.2 == -o.0 && o.3 == -o.1
    ensures -1 <= o.0 <= 1 && -1 <= o.1 <= 1 && (o.0 != 0 || o.1 != 0)
    ensures d == 0 ==> o.0 == 0
    ensures d == 2 ==> o.1 == 0
    ensures d == 1 ==> o.0 == -o.1
    ensures d == 3 ==> o.0 == o.1
  {
    if d == 0 then (0, 1, 0, -1)
    else if d == 1 then (1, -1, -1, 1)
    else if d == 2 then (1, 0, -1, 0)
    else (-1, -1, 1, 1)
  }

  predicate OnBorder(w: int, h: int, x: int, y: int)
  {
    x == 0 || x == w - 1 || y == 0 || y == h - 1
  }

  /** The axis a pixel is compared along: the direction code taken modulo 4 with
      C#'s `%`: a negative code that is not a multiple of 4 gives no axis (no
      case of the switch matches); a negative multiple of 4 gives axis 0. */
  function Axis(t: int): (d: int)
    ensures -4 < d < 4
    ensures t >= 0 ==> 0 <= d && d == t % 4
    ensures t < 0 ==> (d == 0 <==> t % 4 == 0)
  {
    Rem(t, 4)
  }

  /** Pixel (x, y) is not strictly greater than one of its two neighbours along axis `d`. */
  predicate NotAxisMax(g: Grid<real>, w: nat, h: nat, x: int, y: int, d: int)
    requires IsGrid(g, w, h) && 0 < x < w - 1 && 0 < y < h - 1 && 0 <= d < 4
  {
    var o := AxisOffsets(d);
    g[x][y] <= g[x + o.0][y + o.1] || g[x][y] <= g[x + o.2][y + o.3]
  }

  /** The scan's visit of pixel (x, y): border pixels become 0; an interior pixel
      becomes 0 when it is not strictly greater than both axis neighbours, as read
      from the buffer being overwritten. */
  function Visit(g: Grid<real>, t: Grid<int>, w: nat, h: nat, x: int, y: int): (r: Grid<real>)
    requires IsGrid(g, w, h) && IsGrid(t, w, h) && 0 <= x < w && 0 <= y < h
    ensures IsGrid(r, w, h)
    ensures forall i, j :: 0 <= i < w && 0 <= j < h && (i != x || j != y) ==> r[i][j] == g[i][j]
    ensures r[x][y] == g[x][y] || r[x][y] == 0.0
    ensures OnBorder(w, h, x, y) ==> r[x][y] == 0.0
    ensures !OnBorder(w, h, x, y) && 0 <= Axis(t[x][y]) ==>
      (r[x][y] == 0.0 <==> NotAxisMax(g, w, h, x, y, Axis(t[x][y])) || g[x][y] == 0.0)
  {
    if OnBorder(w, h, x, y) then Set(g, x, y, 0.0)
    else if 0 <= Axis(t[x][y]) && NotAxisMax(g, w, h, x, y, Axis(t[x][y])) then Set(g, x, y, 0.0)
    else g
  }

  /** The buffer after visiting pixels (x, 0) .. (x, y - 1) of column x. */
  function ScanColumn(g: Grid<real>, t: Grid<int>, w: nat, h: nat, x: int, y: int): (r: Grid<real>)
    requires IsGrid(g, w, h) && IsGrid(t, w, h) && 0 <= x < w && 0 <= y <= h
    ensures IsGrid(r, w, h)
    decreases y
  {
    if y == 0 then g else Visit(ScanColumn(g, t, w, h, x, y - 1), t, w, h, x, y - 1)
  }

  /** The buffer after visiting every pixel of columns 0 .. x - 1, column by column. */
  function ScanColumns(g: Grid<real>, t: Grid<int>, w: nat, h: nat, x: int): (r: Grid<real>)
    requires IsGrid(g, w, h) && IsGrid(t, w, h) && 0 <= x <= w
    ensures IsGrid(r, w, h)
    decreases x
  {
    if x == 0 then g else ScanColumn(ScanColumns(g, t, w, h, x - 1), t, w, h, x - 1, h)
  }

  /** The suppressed map: the whole scan. */
  function Suppressed(g: Grid<real>, t: Grid<int>, w: nat, h: nat): (r: Grid<real>)
    requires IsGrid(g, w, h) && IsGrid(t, w, h)
    ensures IsGrid(r, w, h)
  {
    ScanColumns(g, t, w, h, w)
  }

  /** Pixel (i, j) comes before (x, y) in the scan order (columns, then rows). */
  predicate Visited(i: int, j: int, x: int, y: int)
  {
    i < x || (i == x && j < y)
  }

  predicate NonNegative(g: Grid<real>, w: nat, h: nat)
    requires IsGrid(g, w, h)
  {
    forall i, j :: 0 <= i < w && 0 <= j < h ==> g[i][j] >= 0.0
  }

  /** A nonzero interior pixel with an axis is strictly greater than both its axis neighbours. */
  predicate AxisMaxOrZero(g: Grid<real>, t: Grid<int>, w: nat, h: nat, i: int, j: int)
    requires IsGrid(g, w, h) && IsGrid(t, w, h) && 0 <= i < w && 0 <= j < h
  {
    !OnBorder(w, h, i, j) && 0 <= Axis(t[i][j]) && g[i][j] != 0.0 ==> !NotAxisMax(g, w, h, i, j, Axis(t[i][j]))
  }

  /** What holds of the buffer `cur` once every pixel before (x, y) is visited:
      unvisited pixels are untouched, visited ones are kept or zeroed, visited
      border pixels are zero, and (for a non-negative input) every visited pixel
      that survived is a strict maximum along its axis in the current buffer. */
  ghost predicate ScanInv(g0: Grid<real>, t: Grid<int>, w: nat, h: nat, cur: Grid<real>, x: int, y: int)
    requires IsGrid(g0, w, h) && IsGrid(t, w, h)
  {
    IsGrid(cur, w, h) && ScanShape(g0, w, h, cur, x, y) &&
    (NonNegative(g0, w, h) ==> ScanMax(t, w, h, cur, x, y))
  }

  /** The first three parts of the scan invariant. */
  ghost predicate ScanShape(g0: Grid<real>, w: nat, h: nat, cur: Grid<real>, x: int, y: int)
    requires IsGrid(g0, w, h) && IsGrid(cur, w, h)
  {
    (forall i, j :: 0 <= i < w && 0 <= j < h && !Visited(i, j, x, y) ==> cur[i][j] == g0[i][j]) &&
    (forall i, j :: 0 <= i < w && 0 <= j < h && Visited(i, j, x, y) ==> cur[i][j] == g0[i][j] || cur[i][j] == 0.0) &&
    (forall i, j :: 0 <= i < w && 0 <= j < h && Visited(i, j, x, y) && OnBorder(w, h, i, j) ==> cur[i][j] == 0.0)
  }

  /** The last part of the scan invariant: visited survivors are axis maxima. */
  ghost predicate ScanMax(t: Grid<int>, w: nat, h: nat, cur: Grid<real>, x: int, y: int)
    requires IsGrid(t, w, h) && IsGrid(cur, w, h)
  {
    forall i, j :: 0 <= i < w && 0 <= j < h && Visited(i, j, x, y) ==> AxisMaxOrZero(cur, t, w, h, i, j)
  }

  /** Visiting (x, y) keeps the invariant, one pixel further on. */
  lemma VisitKeepsInv(g0: Grid<real>, t: Grid<int>, w: nat, h: nat, cur: Grid<real>, x: int, y: int)
    requires IsGrid(g0, w, h) && IsGrid(t, w, h) && 0 <= x < w && 0 <= y < h
    requires ScanInv(g0, t, w, h, cur, x, y)
    ensures ScanInv(g0, t, w, h, Visit(cur, t, w, h, x, y), x, y + 1)
  {
    VisitKeepsShape(g0, t, w, h, cur, x, y);
    if NonNegative(g0, w, h) {
      forall i, j | 0 <= i < w && 0 <= j < h
        ensures cur[i][j] >= 0.0
      {
      }
      VisitKeepsMax(t, w, h, cur, x, y);
    }
  }

  lemma VisitKeepsShape(g0: Grid<real>, t: Grid<int>, w: nat, h: nat, cur: Grid<real>, x: int, y: int)
    requires IsGrid(g0, w, h) && IsGrid(t, w, h) && IsGrid(cur, w, h) && 0 <= x < w && 0 <= y < h
    requires ScanShape(g0, w, h, cur, x, y)
    ensures ScanShape(g0, w, h, Visit(cur, t, w, h, x, y), x, y + 1)
  {
  }

  /** Zeroing the visited pixel only lowers its neighbours' comparison values,
      so every earlier survivor stays a strict axis maximum. */
  lemma VisitKeepsMax(t: Grid<int>, w: nat, h: nat, cur: Grid<real>, x: int, y: int)
    requires IsGrid(t, w, h) && IsGrid(cur, w, h) && 0 <= x < w && 0 <= y < h
    requires forall i, j :: 0 <= i < w && 0 <= j < h ==> cur[i][j] >= 0.0
    requires ScanMax(t, w, h, cur, x, y)
    ensures ScanMax(t, w, h, Visit(cur, t, w, h, x, y), x, y + 1)
  {
    var next := Visit(cur, t, w, h, x, y);
    forall i, j | 0 <= i < w && 0 <= j < h && Visited(i, j, x, y + 1)
      ensures AxisMaxOrZero(next, t, w, h, i, j)
    {
      if (i != x || j != y) && !OnBorder(w, h, i, j) && 0 <= Axis(t[i][j]) && next[i][j] != 0.0 {
        var o := AxisOffsets(Axis(t[i][j]));
        assert Visited(i, j, x, y) && next[i][j] == cur[i][j];
        assert AxisMaxOrZero(cur, t, w, h, i, j);
        assert next[i + o.0][j + o.1] <= cur[i + o.0][j + o.1];
        assert next[i + o.2][j + o.3] <= cur[i + o.2][j + o.3];
      }
    }
  }

  lemma {:induction false} ScanColumnInv(g0: Grid<real>, t: Grid<int>, w: nat, h: nat, start: Grid<real>, x: int, y: int)
    requires IsGrid(g0, w, h) && IsGrid(t, w, h) && IsGrid(start, w, h) && 0 <= x < w && 0 <= y <= h
    requires ScanInv(g0, t, w, h, start, x, 0)
    ensures ScanInv(g0, t, w, h, ScanColumn(start, t, w, h, x, y), x, y)
    decreases y
  {
    if y > 0 {
      var prev := ScanColumn(start, t, w, h, x, y - 1);
      ScanColumnInv(g0, t, w, h, start, x, y - 1);
      VisitKeepsInv(g0, t, w, h, prev, x, y - 1);
      assert ScanColumn(start, t, w, h, x, y) == Visit(prev, t, w, h, x, y - 1);
    }
  }

  lemma {:induction false} ScanColumnsInv(g0: Grid<real>, t: Grid<int>, w: nat, h: nat, x: int)
    requires IsGrid(g0, w, h) && IsGrid(t, w, h) && 0 <= x <= w
    ensures ScanInv(g0, t, w, h, ScanColumns(g0, t, w, h, x), x, 0)
    decreases x
  {
    if x > 0 {
      var before := ScanColumns(g0, t, w, h, x - 1);
      ScanColumnsInv(g0, t, w, h, x - 1);
      ScanColumnInv(g0, t, w, h, before, x - 1, h);
      ColumnDone(g0, t, w, h, ScanColumn(before, t, w, h, x - 1, h), x - 1);
    }
  }

  /** Having visited all of column x is having visited everything before column x + 1. */
  lemma ColumnDone(g0: Grid<real>, t: Grid<int>, w: nat, h: nat, cur: Grid<real>, x: int)
    requires IsGrid(g0, w, h) && IsGrid(t, w, h)
    requires ScanInv(g0, t, w, h, cur, x, h)
    ensures ScanInv(g0, t, w, h, cur, x + 1, 0)
  {
    assert forall i, j :: 0 <= j < h ==> (Visited(i, j, x, h) <==> Visited(i, j, x + 1, 0));
  }

  /** Suppression zeroes the first and last row and column. */
  lemma SuppressedBorder(g: Grid<real>, t: Grid<int>, w: nat, h: nat, x: int, y: int)
    requires IsGrid(g, w, h) && IsGrid(t, w, h) && 0 <= x < w && 0 <= y < h && OnBorder(w, h, x, y)
    ensures Suppressed(g, t, w, h)[x][y] == 0.0
  {
    ScanColumnsInv(g, t, w, h, w);
  }

  /** Suppression keeps each pixel or sets it to 0. */
  lemma SuppressedKeepsOrZeroes(g: Grid<real>, t: Grid<int>, w: nat, h: nat, x: int, y: int)
    requires IsGrid(g, w, h) && IsGrid(t, w, h) && 0 <= x < w && 0 <= y < h
    ensures Suppressed(g, t, w, h)[x][y] == g[x][y] || Suppressed(g, t, w, h)[x][y] == 0.0
  {
    ScanColumnsInv(g, t, w, h, w);
  }

  /** On a non-negative magnitude map, every pixel that survives suppression is
      strictly greater than both of its axis neighbours in the final map. */
  lemma SuppressedLocalMax(g: Grid<real>, t: Grid<int>, w: nat, h: nat, x: int, y: int)
    requires IsGrid(g, w, h) && IsGrid(t, w, h) && NonNegative(g, w, h)
    requires 0 < x < w - 1 && 0 < y < h - 1 && 0 <= Axis(t[x][y])
    requires Suppressed(g, t, w, h)[x][y] != 0.0
    ensures var s, o := Suppressed(g, t, w, h), AxisOffsets(Axis(t[x][y]));
      s[x][y] > s[x + o.0][y + o.1] && s[x][y] > s[x + o.2][y + o.3]
  {
    ScanColumnsInv(g, t, w, h, w);
    assert AxisMaxOrZero(Suppressed(g, t, w, h), t, w, h, x, y);
  }

  /** One iteration of Suppress's loop body: the visit of pixel (x, y). */
  method VisitPixel(imageG: array2<real>, imageT: array2<int>, x: int, y: int, ghost cur: Grid<real>, ghost T: Grid<int>)
    modifies imageG
    requires imageT.Length0 == imageG.Length0 && imageT.Length1 == imageG.Length1
    requires 0 <= x < imageG.Length0 && 0 <= y < imageG.Length1
    requires Holds(imageG, cur) && Holds(imageT, T)
    ensures Holds(imageG, Visit(cur, T, imageG.Length0, imageG.Length1, x, y))
  {
    var w, h := imageG.Length0, imageG.Length1;
    var suppressed := imageG;
    if x == 0 || x == w - 1 || y == 0 || y == h - 1 {
      imageG[x, y] := 0.0;
      return;
    }
    var localT := Rem(imageT[x, y], 4);
    var zero := false;
    if localT == 0 {
      zero := imageG[x, y] <= imageG[x, y + 1] || imageG[x, y] <= imageG[x, y - 1];
    } else if localT == 1 {
      zero := imageG[x, y] <= imageG[x + 1, y - 1] || imageG[x, y] <= imageG[x - 1, y + 1];
    } else if localT == 2 {
      zero := imageG[x, y] <= imageG[x + 1, y] || imageG[x, y] <= imageG[x - 1, y];
    } else if localT == 3 {
      zero := imageG[x, y] <= imageG[x - 1, y - 1] || imageG[x, y] <= imageG[x + 1, y + 1];
    }
    assert zero <==> 0 <= Axis(T[x][y]) && NotAxisMax(cur, w, h, x, y, Axis(T[x][y]));
    if zero {
      suppressed[x, y] := 0.0;
    }
  }

  /** CannyEdge.Suppress: the scan overwrites `imageG` itself, since `suppressed`
      is the same array, and returns it. */
  method Suppress(imageG: array2<real>, imageT: array2<int>) returns (suppressed: array2<real>)
    modifies imageG
    requires imageT.Length0 == imageG.Length0 && imageT.Length1 == imageG.Length1
    ensures suppressed == imageG
    ensures Cells(imageG) == Suppressed(old(Cells(imageG)), Cells(imageT), imageG.Length0, imageG.Length1)
  {
    var w, h := imageG.Length0, imageG.Length1;
    ghost var g0, T := Cells(imageG), Cells(imageT);
    suppressed := imageG;
    for x := 0 to w
      invariant Holds(imageG, ScanColumns(g0, T, w, h, x))
    {
      ghost var start := ScanColumns(g0, T, w, h, x);
      for y := 0 to h
        invariant Holds(imageG, ScanColumn(start, T, w, h, x, y))
      {
        VisitPixel(imageG, imageT, x, y, ScanColumn(start, T, w, h, x, y), T);
      }
    }
    CellsOf(imageG, ScanColumns(g0, T, w, h, w));
  }

  // ---------------------------------------------------------------------------
  // Double threshold, conversion to bytes, OR

  /** A double rounded (ties to even), clamped into [0, 255] and cast to a byte. */
  function RoundClamp(v: real): (b: byte)
    ensures v <= 0.0 ==> b == 0
    ensures v >= 255.0 ==> b == 255
    ensures 0.0 <= v <= 255.0 ==> -1.0 / 2.0 <= v - b as real <= 1.0 / 2.0
  {
    var n := Round(v);
    if n < 0 then 0 else if n > 255 then 255 else n
  }

  /** The byte image Double2DtoByte2D makes of a real-valued map. */
  function ToBytes(g: Grid<real>, w: nat, h: nat): (r: Grid<byte>)
    requires IsGrid(g, w, h)
    ensures IsGrid(r, w, h)
    ensures forall x, y :: 0 <= x < w && 0 <= y < h ==> r[x][y] == RoundClamp(g[x][y])
  {
    seq(w, x requires 0 <= x < w => seq(h, y requires 0 <= y < h => RoundClamp(g[x][y])))
  }

  /** The binary edge map at threshold `t`: 255 where the suppressed value exceeds `t`. */
  function EdgeMap(s: Grid<real>, w: nat, h: nat, t: int): (r: Grid<byte>)
    requires IsGrid(s, w, h)
    ensures IsGrid(r, w, h)
    ensures forall x, y :: 0 <= x < w && 0 <= y < h ==> r[x][y] == Level(s[x][y], t)
  {
    seq(w, x requires 0 <= x < w => seq(h, y requires 0 <= y < h => Level(s[x][y], t)))
  }

  /** Converting a thresholded map to bytes loses nothing: its values are exactly 0 and 255. */
  lemma ToBytesOfThreshold(s: Grid<real>, w: nat, h: nat, t: int)
    requires IsGrid(s, w, h)
    ensures ToBytes(ThresholdRealGrid(s, w, h, t), w, h) == EdgeMap(s, w, h, t)
  {
    var left, right := ToBytes(ThresholdRealGrid(s, w, h, t), w, h), EdgeMap(s, w, h, t);
    forall x | 0 <= x < w
      ensures left[x] == right[x]
    {
      assert |left[x]| == |right[x]|;
      forall y | 0 <= y < h
        ensures left[x][y] == right[x][y]
      {
        RoundWhole(0);
        RoundWhole(255);
      }
    }
  }

  /** The image BinaryOperators.ORoperator produces: 255 where either input is 255. */
  function OrGrid(a: Grid<byte>, b: Grid<byte>, w: nat, h: nat): (r: Grid<byte>)
    requires IsGrid(a, w, h) && IsGrid(b, w, h)
    ensures IsGrid(r, w, h)
    ensures forall x, y :: 0 <= x < w && 0 <= y < h ==> (r[x][y] == 255 <==> a[x][y] == 255 || b[x][y] == 255)
    ensures forall x, y :: 0 <= x < w && 0 <= y < h ==> (r[x][y] == 0 || r[x][y] == 255)
  {
    seq(w, x requires 0 <= x < w => seq(h, y requires 0 <= y < h =>
      if a[x][y] == 255 || b[x][y] == 255 then 255 else 0))
  }

  /** The OR of two edge maps of one suppressed map is the edge map of the lower threshold. */
  lemma {:induction false} OrOfEdgeMaps(s: Grid<real>, w: nat, h: nat, high: int, low: int)
    requires IsGrid(s, w, h)
    ensures OrGrid(EdgeMap(s, w, h, high), EdgeMap(s, w, h, low), w, h) == EdgeMap(s, w, h, if high <= low then high else low)
  {
    var left := OrGrid(EdgeMap(s, w, h, high), EdgeMap(s, w, h, low), w, h);
    var right := EdgeMap(s, w, h, if high <= low then high else low);
    forall x | 0 <= x < w
      ensures left[x] == right[x]
    {
      assert |left[x]| == |right[x]|;
    }
  }

  /** With high >= low, every strong edge is in the combined map, and the combined map is the weak one. */
  lemma StrongWithinCombined(s: Grid<real>, w: nat, h: nat, high: int, low: int, x: int, y: int)
    requires IsGrid(s, w, h) && low <= high && 0 <= x < w && 0 <= y < h
    ensures EdgeMap(s, w, h, high)[x][y] == 255 ==> OrGrid(EdgeMap(s, w, h, high), EdgeMap(s, w, h, low), w, h)[x][y] == 255
    ensures OrGrid(EdgeMap(s, w, h, high), EdgeMap(s, w, h, low), w, h) == EdgeMap(s, w, h, low)
  {
    OrOfEdgeMaps(s, w, h, high, low);
  }

  /** CannyEdge.Double2DtoByte2D: a fresh byte image of the rounded, clamped values. */
  method Double2DtoByte2D(image: array2<real>) returns (result: array2<byte>)
    ensures fresh(result)
    ensures result.Length0 == image.Length0 && result.Length1 == image.Length1
    ensures Cells(result) == ToBytes(Cells(image), image.Length0, image.Length1)
  {
    result := new byte[image.Length0, image.Length1]((_, _) => 0);
    for x := 0 to image.Length0
      invariant forall i, j :: 0 <= i < x && 0 <= j < image.Length1 ==> result[i, j] == RoundClamp(image[i, j])
    {
      for y := 0 to image.Length1
        invariant forall i, j :: 0 <= j < image.Length1 && (0 <= i < x || (i == x && j < y)) ==>
          result[i, j] == RoundClamp(image[i, j])
      {
        result[x, y] := RoundClamp(image[x, y]);
      }
    }
    CellsOf(result, ToBytes(Cells(image), image.Length0, image.Length1));
  }

  /** BinaryOperators.ORoperator: a fresh image, 255 where either input is 255 and 0 elsewhere. */
  method ORoperator(input1: array2<byte>, input2: array2<byte>) returns (image: array2<byte>)
    requires input2.Length0 == input1.Length0 && input2.Length1 == input1.Length1
    ensures fresh(image)
    ensures image.Length0 == input1.Length0 && image.Length1 == input1.Length1
    ensures Cells(image) == OrGrid(Cells(input1), Cells(input2), input1.Length0, input1.Length1)
  {
    image := new byte[input1.Length0, input1.Length1]((_, _) => 0);
    for x := 0 to image.Length0
      invariant forall i, j :: 0 <= i < x && 0 <= j < image.Length1 ==>
        image[i, j] == if input1[i, j] == 255 || input2[i, j] == 255 then 255 else 0
    {
      for y := 0 to image.Length1
        invariant forall i, j :: 0 <= j < image.Length1 && (0 <= i < x || (i == x && j < y)) ==>
          image[i, j] == if input1[i, j] == 255 || input2[i, j] == 255 then 255 else 0
      {
        if input1[x, y] == 255 || input2[x, y] == 255 {
          image[x, y] := 255;
        } else {
          image[x, y] := 0;
        }
      }
    }
    CellsOf(image, OrGrid(Cells(input1), Cells(input2), input1.Length0, input1.Length1));
  }

  // ---------------------------------------------------------------------------
  // Hysteresis

  /** The pixels of a byte grid that are still 0: those propagation may yet mark. */
  function ZeroCells(g: Grid<byte>, w: nat, h: nat): (z: set<(int, int)>)
    requires IsGrid(g, w, h)
    ensures forall i, j :: (i, j) in z <==> 0 <= i < w && 0 <= j < h && g[i][j] == 0
  {
    set i, j | 0 <= i < w && 0 <= j < h && g[i][j] == 0 :: (i, j)
  }

  /** Marking a zero pixel removes exactly that pixel from the zero cells. */
  lemma MarkShrinksZeroCells(g: Grid<byte>, w: nat, h: nat, x: int, y: int)
    requires IsGrid(g, w, h) && 0 <= x < w && 0 <= y < h && g[x][y] == 0
    ensures ZeroCells(Set(g, x, y, 255), w, h) == ZeroCells(g, w, h) - {(x, y)}
    ensures |ZeroCells(Set(g, x, y, 255), w, h)| == |ZeroCells(g, w, h)| - 1
  {
    var before, after := ZeroCells(g, w, h), ZeroCells(Set(g, x, y, 255), w, h);
    assert forall p :: p in after <==> p in before && p != (x, y);
    assert after == before - {(x, y)};
  }

  predicate Interior(w: int, h: int, p: (int, int))
  {
    1 <= p.0 < w - 1 && 1 <= p.1 < h - 1
  }

  /** No border pixel could ever be marked: each is either not 255 in the
      combined map or already nonzero in the result. */
  predicate NoBorderCandidate(dt: Grid<byte>, g: Grid<byte>, w: nat, h: nat)
    requires IsGrid(dt, w, h) && IsGrid(g, w, h)
  {
    forall i, j :: 0 <= i < w && 0 <= j < h && OnBorder(w, h, i, j) ==> dt[i][j] != 255 || g[i][j] != 0
  }

  /** `g` differs from `g0` only by pixels that were 0, are now 255, and are 255 in `dt`. */
  predicate OnlyMarks(g0: Grid<byte>, g: Grid<byte>, dt: Grid<byte>, w: nat, h: nat)
    requires IsGrid(g0, w, h) && IsGrid(g, w, h) && IsGrid(dt, w, h)
  {
    forall i, j :: 0 <= i < w && 0 <= j < h ==> g[i][j] == g0[i][j] || (g0[i][j] == 0 && g[i][j] == 255 && dt[i][j] == 255)
  }

  /** `p` is a pixel of the image that was 0 in the result and is 255 in the combined map. */
  predicate Markable(g0: Grid<byte>, dt: Grid<byte>, w: nat, h: nat, p: (int, int))
    requires IsGrid(g0, w, h) && IsGrid(dt, w, h)
  {
    0 <= p.0 < w && 0 <= p.1 < h && g0[p.0][p.1] == 0 && dt[p.0][p.1] == 255
  }

  /** A markable pixel is interior when no border pixel is a candidate. */
  lemma MarkableIsInterior(g0: Grid<byte>, dt: Grid<byte>, w: nat, h: nat, p: (int, int))
    requires IsGrid(g0, w, h) && IsGrid(dt, w, h) && NoBorderCandidate(dt, g0, w, h) && Markable(g0, dt, w, h, p)
    ensures Interior(w, h, p)
  {
  }

  /** The body of the `foreach` in CannyEdge.Hysteresis for one worklist pixel:
      its eight neighbours are tested in order and the markable ones are marked
      and returned. `ok` is false when a neighbour lies outside the image. */
  method MarkNeighbours(result: array2<byte>, doubleThreshold: array2<byte>, pixel: (int, int),
                        ghost g0: Grid<byte>, ghost DT: Grid<byte>, ghost cur: Grid<byte>)
    returns (added: seq<(int, int)>, ok: bool, ghost next: Grid<byte>)
    modifies result
    requires result != doubleThreshold
    requires doubleThreshold.Length0 == result.Length0 && doubleThreshold.Length1 == result.Length1
    requires Holds(result, cur) && Holds(doubleThreshold, DT) && IsGrid(g0, result.Length0, result.Length1)
    requires OnlyMarks(g0, cur, DT, result.Length0, result.Length1)
    ensures Holds(result, next) && OnlyMarks(g0, next, DT, result.Length0, result.Length1)
    ensures |ZeroCells(next, result.Length0, result.Length1)| + |added| == |ZeroCells(cur, result.Length0, result.Length1)|
    ensures forall m :: 0 <= m < |added| ==> Markable(g0, DT, result.Length0, result.Length1, added[m])
    ensures Interior(result.Length0, result.Length1, pixel) ==> ok
  {
    var w, h := result.Length0, result.Length1;
    added := [];
    next := cur;
    for i := -1 to 2
      invariant Holds(result, next) && OnlyMarks(g0, next, DT, w, h)
      invariant |ZeroCells(next, w, h)| + |added| == |ZeroCells(cur, w, h)|
      invariant forall m :: 0 <= m < |added| ==> Markable(g0, DT, w, h, added[m])
    {
      for j := -1 to 2
        invariant Holds(result, next) && OnlyMarks(g0, next, DT, w, h)
        invariant |ZeroCells(next, w, h)| + |added| == |ZeroCells(cur, w, h)|
        invariant forall m :: 0 <= m < |added| ==> Markable(g0, DT, w, h, added[m])
      {
        if i == 0 && j == 0 {
          continue;
        }
        var xLocal := pixel.0 + i;
        var yLocal := pixel.1 + j;
        if !(0 <= xLocal < w && 0 <= yLocal < h) {
          ok := false;
          return;
        }
        if doubleThreshold[xLocal, yLocal] != 255 || result[xLocal, yLocal] != 0 {
          continue;
        }
        added := added + [(xLocal, yLocal)];
        MarkShrinksZeroCells(next, w, h, xLocal, yLocal);
        result[xLocal, yLocal] := 255;
        next := Set(next, xLocal, yLocal, 255);
      }
    }
    ok := true;
  }

  /** The `while` loop of CannyEdge.Hysteresis: every worklist pixel marks its
      eight neighbours that are 255 in `doubleThreshold` and still 0 in `result`,
      and the marked pixels form the next worklist. `ok` is false when a
      neighbour lies outside the image, where C# throws an out-of-range exception.
      Each round either marks a pixel or empties the worklist, so the loop ends. */
  method Propagate(result: array2<byte>, doubleThreshold: array2<byte>, pixels: seq<(int, int)>,
                   ghost g0: Grid<byte>, ghost DT: Grid<byte>)
    returns (ok: bool, ghost final: Grid<byte>)
    modifies result
    requires result != doubleThreshold
    requires doubleThreshold.Length0 == result.Length0 && doubleThreshold.Length1 == result.Length1
    requires Holds(result, g0) && Holds(doubleThreshold, DT)
    ensures Holds(result, final) && OnlyMarks(g0, final, DT, result.Length0, result.Length1)
    ensures pixels == [] ==> ok && final == g0
    ensures ((forall k :: 0 <= k < |pixels| ==> Interior(result.Length0, result.Length1, pixels[k])) &&
             NoBorderCandidate(DT, g0, result.Length0, result.Length1)) ==> ok
  {
    var w, h := result.Length0, result.Length1;
    ghost var cur := g0;
    ghost var hyp := (forall k :: 0 <= k < |pixels| ==> Interior(w, h, pixels[k])) && NoBorderCandidate(DT, g0, w, h);
    var work := pixels;
    while |work| > 0
      invariant Holds(result, cur) && Holds(doubleThreshold, DT) && OnlyMarks(g0, cur, DT, w, h)
      invariant hyp ==> forall k :: 0 <= k < |work| ==> Interior(w, h, work[k])
      invariant pixels == [] ==> work == [] && cur == g0
      decreases |ZeroCells(cur, w, h)|, |work|
    {
      var newPixels: seq<(int, int)> := [];
      ghost var zeros := |ZeroCells(cur, w, h)|;
      for k := 0 to |work|
        invariant Holds(result, cur) && Holds(doubleThreshold, DT) && OnlyMarks(g0, cur, DT, w, h)
        invariant |ZeroCells(cur, w, h)| + |newPixels| == zeros
        invariant forall m :: 0 <= m < |newPixels| ==> Markable(g0, DT, w, h, newPixels[m])
        invariant hyp ==> forall m :: 0 <= m < |work| ==> Interior(w, h, work[m])
      {
        var added, fine;
        added, fine, cur := MarkNeighbours(result, doubleThreshold, work[k], g0, DT, cur);
        if !fine {
          ok, final := false, cur;
          return;
        }
        newPixels := newPixels + added;
      }
      if hyp {
        forall m | 0 <= m < |newPixels|
          ensures Interior(w, h, newPixels[m])
        {
          MarkableIsInterior(g0, DT, w, h, newPixels[m]);
        }
      }
      work := newPixels;
    }
    ok, final := true, cur;
  }

  /** The largest value of a non-empty list (LINQ `Max`). */
  function SeqMax(s: seq<byte>): (m: byte)
    requires |s| > 0
    ensures forall k :: 0 <= k < |s| ==> s[k] <= m
    ensures m in s
  {
    if |s| == 1 then s[0]
    else
      var rest := SeqMax(s[1..]);
      if s[0] >= rest then s[0] else rest
  }

  /** CannyEdge.Hysteresis. The seed scan keeps an interior pixel only when it is
      255 in `doubleThreshold` and the largest value of its 3×3 window is 2; the
      window contains the pixel itself, so that largest value is at least 255 and
      no seed is ever found. Propagation then starts from an empty worklist and
      `highEdgesByte`, which `result` aliases, is returned unchanged. */
  method Hysteresis(highEdgesByte: array2<byte>, doubleThreshold: array2<byte>) returns (result: array2<byte>, ok: bool)
    modifies highEdgesByte
    requires highEdgesByte != doubleThreshold
    requires doubleThreshold.Length0 == highEdgesByte.Length0 && doubleThreshold.Length1 == highEdgesByte.Length1
    ensures result == highEdgesByte
    ensures ok
    ensures Cells(result) == old(Cells(highEdgesByte))
  {
    result := highEdgesByte;
    ghost var g0 := Cells(result);
    var pixels: seq<(int, int)> := [];
    var x := 1;
    while x < result.Length0 - 1
      invariant pixels == [] && Cells(result) == g0
    {
      var y := 1;
      while y < result.Length1 - 1
        invariant pixels == [] && Cells(result) == g0
      {
        if doubleThreshold[x, y] != 255 {
          y := y + 1;
          continue;
        }
        var localList: seq<byte> := [];
        for i := -1 to 2
          invariant forall a, b :: x - 1 <= a < x + i && y - 1 <= b <= y + 1 ==> doubleThreshold[a, b] in localList
        {
          for j := -1 to 2
            invariant forall a, b :: y - 1 <= b <= y + 1 && (x - 1 <= a < x + i || (a == x + i && b < y + j)) ==>
              doubleThreshold[a, b] in localList
          {
            localList := localList + [doubleThreshold[x + i, y + j]];
          }
        }
        assert doubleThreshold[x, y] in localList;
        if SeqMax(localList) != 2 {
          y := y + 1;
          continue;
        }
        // The seed branch (append (x, y) to the worklist and mark it) is dead.
        assert false;
      }
      x := x + 1;
    }
    ghost var final;
    ok, final := Propagate(result, doubleThreshold, pixels, g0, Cells(doubleThreshold));
    CellsOf(result, final);
  }

  /** The back end of CannyEdge.CannyEdgeDetector, from the gradient magnitudes
      `imageG` and direction codes `imageT` on: suppression, the two thresholds,
      their byte images, their OR and hysteresis. Since hysteresis returns its
      first argument unchanged, the output is the strong edge map: 255 exactly
      where the suppressed magnitude exceeds `high`. */
  method CannyBackEnd(imageG: array2<real>, imageT: array2<int>, high: byte, low: byte) returns (edges: array2<byte>, ok: bool)
    modifies imageG
    requires imageT.Length0 == imageG.Length0 && imageT.Length1 == imageG.Length1
    ensures fresh(edges) && ok
    ensures edges.Length0 == imageG.Length0 && edges.Length1 == imageG.Length1
    ensures Cells(edges) == EdgeMap(Suppressed(old(Cells(imageG)), Cells(imageT), imageG.Length0, imageG.Length1),
                                    imageG.Length0, imageG.Length1, high)
  {
    var w, h := imageG.Length0, imageG.Length1;
    var suppressed := Suppress(imageG, imageT);
    ghost var S := Cells(suppressed);
    var highEdges := ThresholdDouble(suppressed, high);
    var lowEdges := ThresholdDouble(suppressed, low);
    var highEdgesByte := Double2DtoByte2D(highEdges);
    var lowEdgesByte := Double2DtoByte2D(lowEdges);
    ToBytesOfThreshold(S, w, h, high);
    ToBytesOfThreshold(S, w, h, low);
    var combined := ORoperator(highEdgesByte, lowEdgesByte);
    edges, ok := Hysteresis(highEdgesByte, combined);
  }
}
