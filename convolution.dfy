/** Convolution.cs: a square kernel applied `times` times, each pass writing
    only the pixels whose whole window lies inside the image, clamping and
    rounding to a byte, and cropping the kernel radius from every side. */
module Convolution {
  import opened Grids
  import opened Helpers

  /** `k` is an n×n kernel whose radius is `s`, that is, s == n / 2. */
  predicate IsKernel(k: Grid<real>, n: nat, s: nat)
  {
    IsGrid(k, n, n) && 2 * s <= n <= 2 * s + 1
  }

  /** The n×n window with top-left corner (x0, y0) lies inside a w×h image. */
  predicate Fits(w: nat, h: nat, n: nat, x0: int, y0: int)
  {
    0 <= x0 && x0 + n <= w && 0 <= y0 && y0 + n <= h
  }

  /** Sum of k[i][j'] · g[x0 + i][y0 + j'] over j' < j: one kernel row, in the loop's order. */
  function RowSum(g: Grid<byte>, w: nat, h: nat, k: Grid<real>, n: nat, x0: int, y0: int, i: int, j: int): real
    requires IsGrid(g, w, h) && IsGrid(k, n, n) && Fits(w, h, n, x0, y0) && 0 <= i < n && 0 <= j <= n
    decreases j
  {
    if j == 0 then 0.0
    else RowSum(g, w, h, k, n, x0, y0, i, j - 1) + k[i][j - 1] * g[x0 + i][y0 + j - 1] as real
  }

  /** Sum of the first `i` kernel rows; with i = n, the `total` accumulated at one pixel. */
  function WindowSum(g: Grid<byte>, w: nat, h: nat, k: Grid<real>, n: nat, x0: int, y0: int, i: int): real
    requires IsGrid(g, w, h) && IsGrid(k, n, n) && Fits(w, h, n, x0, y0) && 0 <= i <= n
    decreases i
  {
    if i == 0 then 0.0
    else WindowSum(g, w, h, k, n, x0, y0, i - 1) + RowSum(g, w, h, k, n, x0, y0, i - 1, n)
  }

  /** The byte stored for a window total: clamped into [0, 255], then rounded. */
  function ToByte(total: real): (b: byte)
    ensures total <= 0.0 ==> b == 0
    ensures total >= 255.0 ==> b == 255
    ensures 0.0 <= total <= 255.0 ==> -1.0 / 2.0 <= total - b as real <= 1.0 / 2.0
  {
    RoundInByteRange(ImageClamp(total));
    RoundWhole(0);
    RoundWhole(255);
    Round(ImageClamp(total))
  }

  /** The full-size buffer one pass fills: the convolved value at every pixel whose
      window is inside the image, the untouched zero border elsewhere. */
  function Raw(g: Grid<byte>, w: nat, h: nat, k: Grid<real>, n: nat, s: nat): (r: Grid<byte>)
    requires IsGrid(g, w, h) && IsKernel(k, n, s) && 2 * s <= w && 2 * s <= h
    ensures IsGrid(r, w, h)
    ensures forall x, y :: 0 <= x < w && 0 <= y < h ==> r[x][y] == RawAt(g, w, h, k, n, s, x, y)
  {
    seq(w, x requires 0 <= x < w => seq(h, y requires 0 <= y < h => RawAt(g, w, h, k, n, s, x, y)))
  }

  /** One cell of `Raw`. */
  function RawAt(g: Grid<byte>, w: nat, h: nat, k: Grid<real>, n: nat, s: nat, x: int, y: int): byte
    requires IsGrid(g, w, h) && IsKernel(k, n, s) && 2 * s <= w && 2 * s <= h
  {
    if s <= x < w - s && s <= y < h - s then ToByte(WindowSum(g, w, h, k, n, x - s, y - s, n)) else 0
  }

  /** One pass with the border cropped: pixel (x, y) is the rounded, clamped
      weighted sum of the input window whose top-left corner is (x, y). */
  function Pass(g: Grid<byte>, w: nat, h: nat, k: Grid<real>, n: nat, s: nat): (r: Grid<byte>)
    requires IsGrid(g, w, h) && IsKernel(k, n, s) && 2 * s <= w && 2 * s <= h
    ensures IsGrid(r, w - 2 * s, h - 2 * s)
  {
    seq(w - 2 * s, x requires 0 <= x < w - 2 * s => seq(h - 2 * s, y requires 0 <= y < h - 2 * s =>
      ToByte(WindowSum(g, w, h, k, n, x, y, n))))
  }

  /** Total width removed by `m` passes of a kernel with radius `s`. */
  function Border(s: nat, m: nat): nat
  {
    if m == 0 then 0 else 2 * s + Border(s, m - 1)
  }

  /** Each pass shrinks both dimensions by twice the radius. */
  lemma {:induction false} BorderIsLinear(s: nat, m: nat)
    ensures Border(s, m) == 2 * s * m
  {
    if m > 0 {
      BorderIsLinear(s, m - 1);
    }
  }

  /** `m` passes one after the other. */
  function Iterate(g: Grid<byte>, w: nat, h: nat, k: Grid<real>, n: nat, s: nat, m: nat): (r: Grid<byte>)
    requires IsGrid(g, w, h) && IsKernel(k, n, s) && Border(s, m) <= w && Border(s, m) <= h
    ensures IsGrid(r, w - Border(s, m), h - Border(s, m))
    decreases m
  {
    if m == 0 then g
    else Iterate(Pass(g, w, h, k, n, s), w - 2 * s, h - 2 * s, k, n, s, m - 1)
  }

  /** Number of passes a call performs: `times`, but at least one. */
  function Passes(times: int): nat
  {
    if times > 1 then times else 1
  }

  /** Shifting a window by `c` in the image is the same window in the image cropped by `c`. */
  lemma {:induction false} RowSumCrop(g: Grid<byte>, w: nat, h: nat, k: Grid<real>, n: nat, c: nat, x0: int, y0: int, i: int, j: int)
    requires IsGrid(g, w, h) && IsGrid(k, n, n) && 2 * c <= w && 2 * c <= h
    requires Fits(w - 2 * c, h - 2 * c, n, x0, y0) && 0 <= i < n && 0 <= j <= n
    ensures RowSum(g, w, h, k, n, x0 + c, y0 + c, i, j) == RowSum(Crop(g, w, h, c), w - 2 * c, h - 2 * c, k, n, x0, y0, i, j)
    decreases j
  {
    if j > 0 {
      RowSumCrop(g, w, h, k, n, c, x0, y0, i, j - 1);
    }
  }

  lemma {:induction false} WindowSumCrop(g: Grid<byte>, w: nat, h: nat, k: Grid<real>, n: nat, c: nat, x0: int, y0: int, i: int)
    requires IsGrid(g, w, h) && IsGrid(k, n, n) && 2 * c <= w && 2 * c <= h
    requires Fits(w - 2 * c, h - 2 * c, n, x0, y0) && 0 <= i <= n
    ensures WindowSum(g, w, h, k, n, x0 + c, y0 + c, i) == WindowSum(Crop(g, w, h, c), w - 2 * c, h - 2 * c, k, n, x0, y0, i)
    decreases i
  {
    if i > 0 {
      WindowSumCrop(g, w, h, k, n, c, x0, y0, i - 1);
      RowSumCrop(g, w, h, k, n, c, x0, y0, i - 1, n);
    }
  }

  /** Cropping the radius off a pass's result equals a pass over the cropped input. */
  lemma CropPassCommute(g: Grid<byte>, w: nat, h: nat, k: Grid<real>, n: nat, s: nat)
    requires IsGrid(g, w, h) && IsKernel(k, n, s) && 4 * s <= w && 4 * s <= h
    ensures Crop(Pass(g, w, h, k, n, s), w - 2 * s, h - 2 * s, s) == Pass(Crop(g, w, h, s), w - 2 * s, h - 2 * s, k, n, s)
  {
    var left := Crop(Pass(g, w, h, k, n, s), w - 2 * s, h - 2 * s, s);
    var right := Pass(Crop(g, w, h, s), w - 2 * s, h - 2 * s, k, n, s);
    forall x | 0 <= x < w - 4 * s
      ensures left[x] == right[x]
    {
      forall y | 0 <= y < h - 4 * s
        ensures left[x][y] == right[x][y]
      {
        WindowSumCrop(g, w, h, k, n, s, x, y, n);
      }
    }
  }

  /** Cropping commutes with any number of passes. */
  lemma {:induction false} CropIterateCommute(g: Grid<byte>, w: nat, h: nat, k: Grid<real>, n: nat, s: nat, m: nat)
    requires IsGrid(g, w, h) && IsKernel(k, n, s)
    requires Border(s, m + 1) <= w && Border(s, m + 1) <= h
    ensures Border(s, m) <= w && Border(s, m) <= h
    ensures Crop(Iterate(g, w, h, k, n, s, m), w - Border(s, m), h - Border(s, m), s)
         == Iterate(Crop(g, w, h, s), w - 2 * s, h - 2 * s, k, n, s, m)
    decreases m
  {
    if m > 0 {
      var w2, h2 := w - 2 * s, h - 2 * s;
      var p := Pass(g, w, h, k, n, s);
      var c := Crop(g, w, h, s);
      CropIterateCommute(p, w2, h2, k, n, s, m - 1);
      CropPassCommute(g, w, h, k, n, s);
    }
  }

  /** Cropping the zero border off the raw buffer leaves exactly one pass. */
  lemma CropRawIsPass(g: Grid<byte>, w: nat, h: nat, k: Grid<real>, n: nat, s: nat)
    requires IsGrid(g, w, h) && IsKernel(k, n, s) && 2 * s <= w && 2 * s <= h
    ensures Crop(Raw(g, w, h, k, n, s), w, h, s) == Pass(g, w, h, k, n, s)
  {
    var left := Crop(Raw(g, w, h, k, n, s), w, h, s);
    var right := Pass(g, w, h, k, n, s);
    forall x | 0 <= x < w - 2 * s
      ensures left[x] == right[x]
    {
      assert |left[x]| == |right[x]|;
    }
  }

  /** The kernel-weighted total of the window with top-left corner (x0, y0),
      accumulated row by row as the two inner loops of Convolve do. */
  method WindowTotal(input: array2<byte>, kernel: array2<real>, x0: int, y0: int, ghost G: Grid<byte>, ghost K: Grid<real>)
    returns (total: real)
    requires Holds(input, G) && Holds(kernel, K) && kernel.Length0 == kernel.Length1
    requires Fits(input.Length0, input.Length1, kernel.Length0, x0, y0)
    ensures total == WindowSum(G, input.Length0, input.Length1, K, kernel.Length0, x0, y0, kernel.Length0)
  {
    var n := kernel.Length0;
    total := 0.0;
    var i := 0;
    while i < n
      invariant 0 <= i <= n
      invariant total == WindowSum(G, input.Length0, input.Length1, K, n, x0, y0, i)
    {
      var j := 0;
      while j < n
        invariant 0 <= j <= n
        invariant total == WindowSum(G, input.Length0, input.Length1, K, n, x0, y0, i)
                         + RowSum(G, input.Length0, input.Length1, K, n, x0, y0, i, j)
      {
        total := total + kernel[i, j] * input[x0 + i, y0 + j] as real;
        j := j + 1;
      }
      i := i + 1;
    }
  }

  /** Inside the border, the raw buffer holds the byte of the window total. */
  lemma RawInside(g: Grid<byte>, w: nat, h: nat, k: Grid<real>, n: nat, s: nat, x: int, y: int)
    requires IsGrid(g, w, h) && IsKernel(k, n, s) && 2 * s <= w && 2 * s <= h
    requires s <= x < w - s && s <= y < h - s
    ensures Raw(g, w, h, k, n, s)[x][y] == ToByte(WindowSum(g, w, h, k, n, x - s, y - s, n))
  {
  }

  /** The inner `y` loop of one Convolve level: column `x` of the raw buffer is
      written between the borders, and nothing else changes. */
  method FillColumn(input: array2<byte>, kernel: array2<real>, image: array2<byte>, x: int,
                    ghost G: Grid<byte>, ghost K: Grid<real>, ghost R: Grid<byte>)
    modifies image
    requires Holds(input, G) && Holds(kernel, K) && kernel.Length0 == kernel.Length1 && image != input
    requires image.Length0 == input.Length0 && image.Length1 == input.Length1
    requires kernel.Length0 / 2 <= x < input.Length0 - kernel.Length0 / 2
    requires 2 * (kernel.Length0 / 2) <= input.Length1
    requires IsGrid(R, input.Length0, input.Length1)
    requires forall j :: kernel.Length0 / 2 <= j < input.Length1 - kernel.Length0 / 2 ==>
      R[x][j] == ToByte(WindowSum(G, input.Length0, input.Length1, K, kernel.Length0,
                                  x - kernel.Length0 / 2, j - kernel.Length0 / 2, kernel.Length0))
    ensures forall i, j :: 0 <= i < image.Length0 && 0 <= j < image.Length1 ==>
      image[i, j] == if i == x && kernel.Length0 / 2 <= j < image.Length1 - kernel.Length0 / 2 then R[i][j] else old(image[i, j])
  {
    var w, h, n := input.Length0, input.Length1, kernel.Length0;
    var startEnd := n / 2;
    var y := startEnd;
    while y < h - startEnd
      invariant startEnd <= y <= h - startEnd
      invariant forall i, j :: 0 <= i < w && 0 <= j < h ==>
        image[i, j] == if i == x && startEnd <= j < y then R[i][j] else old(image[i, j])
    {
      var total := WindowTotal(input, kernel, x - startEnd, y - startEnd, G, K);
      image[x, y] := ToByte(total);
      y := y + 1;
    }
  }

  /** The first half of one Convolve level: a fresh full-size buffer holding `Raw`. */
  method FillPass(input: array2<byte>, kernel: array2<real>) returns (image: array2<byte>)
    requires kernel.Length0 == kernel.Length1
    requires 2 * (kernel.Length0 / 2) <= input.Length0 && 2 * (kernel.Length0 / 2) <= input.Length1
    ensures fresh(image)
    ensures image.Length0 == input.Length0 && image.Length1 == input.Length1
    ensures Cells(image) == Raw(Cells(input), input.Length0, input.Length1, Cells(kernel), kernel.Length0, kernel.Length0 / 2)
  {
    var w, h, n := input.Length0, input.Length1, kernel.Length0;
    var startEnd := n / 2;
    ghost var G, K := Cells(input), Cells(kernel);
    ghost var R := Raw(G, w, h, K, n, startEnd);
    image := new byte[w, h]((_, _) => 0);
    var x := startEnd;
    while x < w - startEnd
      invariant startEnd <= x <= w - startEnd
      invariant forall i, j :: 0 <= i < w && 0 <= j < h ==>
        image[i, j] == if startEnd <= i < x && startEnd <= j < h - startEnd then R[i][j] else 0
    {
      forall j | startEnd <= j < h - startEnd
        ensures R[x][j] == ToByte(WindowSum(G, w, h, K, n, x - startEnd, j - startEnd, n))
      {
        RawInside(G, w, h, K, n, startEnd, x, j);
      }
      FillColumn(input, kernel, image, x, G, K, R);
      x := x + 1;
    }
    CellsOf(image, R);
  }

  /** Convolution.Convolve: `Passes(times)` successive cropped passes; the input is
      not modified. Each level fills the pixels whose window is inside the image,
      recurses on the whole buffer, and crops the radius from every side. */
  method Convolve(input: array2<byte>, kernel: array2<real>, times: int) returns (r: array2<byte>)
    requires kernel.Length0 == kernel.Length1 && kernel.Length0 < 256
    requires Border(kernel.Length0 / 2, Passes(times)) <= input.Length0
    requires Border(kernel.Length0 / 2, Passes(times)) <= input.Length1
    ensures fresh(r)
    ensures r.Length0 == input.Length0 - Border(kernel.Length0 / 2, Passes(times))
    ensures r.Length1 == input.Length1 - Border(kernel.Length0 / 2, Passes(times))
    ensures Cells(r) == Iterate(Cells(input), input.Length0, input.Length1, Cells(kernel), kernel.Length0, kernel.Length0 / 2, Passes(times))
    decreases times
  {
    var w, h, n := input.Length0, input.Length1, kernel.Length0;
    var startEnd := n / 2;
    ghost var G, K := Cells(input), Cells(kernel);
    var image := FillPass(input, kernel);
    CropRawIsPass(G, w, h, K, n, startEnd);
    if times > 1 {
      ghost var R := Cells(image);
      var m := times - 1;
      image := Convolve(image, kernel, m);
      ghost var I := Cells(image);
      r := CropImage(image, startEnd);
      CropIterateCommute(R, w, h, K, n, startEnd, m);
      assert Cells(r) == Crop(I, w - Border(startEnd, m), h - Border(startEnd, m), startEnd);
      assert Cells(r) == Iterate(Pass(G, w, h, K, n, startEnd), w - 2 * startEnd, h - 2 * startEnd, K, n, startEnd, m);
    } else {
      r := CropImage(image, startEnd);
    }
  }
}
