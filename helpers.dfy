/** The grid helpers of HelperFunctions.cs that the pipeline depends on:
    binary thresholding of byte and real maps, cropping and clamping. */
module Helpers {
  import opened Grids

  /** Clamp a value into the byte range [0, 255]. */
  function ImageClamp(n: real): (r: real)
    ensures 0.0 <= r <= 255.0
    ensures 0.0 <= n <= 255.0 ==> r == n
    ensures n < 0.0 ==> r == 0.0
    ensures n > 255.0 ==> r == 255.0
  {
    if n < 0.0 then 0.0
    else if n > 255.0 then 255.0
    else n
  }

  /** Clamping never reverses the order of two values. */
  lemma ImageClampMonotone(m: real, n: real)
    requires m <= n
    ensures ImageClamp(m) <= ImageClamp(n)
  {
  }

  /** The binary level both threshold functions write: 0 at or below the threshold, 255 above it. */
  function Level(v: real, t: int): (b: byte)
    ensures b == 0 || b == 255
    ensures b == 255 <==> v > t as real
  {
    if v <= t as real then 0 else 255
  }

  /** The image `Threshold` produces from a byte image. */
  function ThresholdGrid(g: Grid<byte>, w: nat, h: nat, t: int): (r: Grid<byte>)
    requires IsGrid(g, w, h)
    ensures IsGrid(r, w, h)
    ensures forall x, y :: 0 <= x < w && 0 <= y < h ==> r[x][y] == Level(g[x][y] as real, t)
  {
    seq(w, x requires 0 <= x < w => seq(h, y requires 0 <= y < h => Level(g[x][y] as real, t)))
  }

  /** The map `ThresholdDouble` produces from a real-valued map. */
  function ThresholdRealGrid(g: Grid<real>, w: nat, h: nat, t: int): (r: Grid<real>)
    requires IsGrid(g, w, h)
    ensures IsGrid(r, w, h)
    ensures forall x, y :: 0 <= x < w && 0 <= y < h ==> r[x][y] == Level(g[x][y], t) as real
  {
    seq(w, x requires 0 <= x < w => seq(h, y requires 0 <= y < h => Level(g[x][y], t) as real))
  }

  /** Raising the threshold never turns a 0 pixel into 255: the 255-pixels of the
      higher threshold are among those of the lower one. */
  lemma ThresholdMonotone(g: Grid<real>, w: nat, h: nat, low: int, high: int, x: int, y: int)
    requires IsGrid(g, w, h) && low <= high
    requires 0 <= x < w && 0 <= y < h
    ensures ThresholdRealGrid(g, w, h, high)[x][y] == 255.0 ==> ThresholdRealGrid(g, w, h, low)[x][y] == 255.0
    ensures ThresholdRealGrid(g, w, h, low)[x][y] == 0.0 ==> ThresholdRealGrid(g, w, h, high)[x][y] == 0.0
  {
  }

  /** The image `CropImage` produces: `c` pixels removed from each side. */
  function Crop<T>(g: Grid<T>, w: nat, h: nat, c: nat): (r: Grid<T>)
    requires IsGrid(g, w, h) && 2 * c <= w && 2 * c <= h
    ensures IsGrid(r, w - 2 * c, h - 2 * c)
  {
    seq(w - 2 * c, x requires 0 <= x < w - 2 * c => seq(h - 2 * c, y requires 0 <= y < h - 2 * c => g[x + c][y + c]))
  }

  /** Cell (x, y) of the cropped image is cell (x + c, y + c) of the original. */
  lemma CropAt<T>(g: Grid<T>, w: nat, h: nat, c: nat, x: int, y: int)
    requires IsGrid(g, w, h) && 2 * c <= w && 2 * c <= h
    requires 0 <= x < w - 2 * c && 0 <= y < h - 2 * c
    ensures Crop(g, w, h, c)[x][y] == g[x + c][y + c]
  {
  }

  /** Cropping twice is cropping once by the sum. */
  lemma CropCompose<T>(g: Grid<T>, w: nat, h: nat, c: nat, d: nat)
    requires IsGrid(g, w, h) && 2 * (c + d) <= w && 2 * (c + d) <= h
    ensures Crop(Crop(g, w, h, c), w - 2 * c, h - 2 * c, d) == Crop(g, w, h, c + d)
  {
    var left := Crop(Crop(g, w, h, c), w - 2 * c, h - 2 * c, d);
    var right := Crop(g, w, h, c + d);
    forall x | 0 <= x < w - 2 * (c + d) ensures left[x] == right[x] {
      assert |left[x]| == |right[x]|;
    }
  }

  /** HelperFunctions.Threshold: a fresh image, 0 where the input is at most the threshold, 255 elsewhere. */
  method Threshold(input: array2<byte>, threshold: byte) returns (image: array2<byte>)
    ensures fresh(image)
    ensures image.Length0 == input.Length0 && image.Length1 == input.Length1
    ensures Cells(image) == ThresholdGrid(Cells(input), input.Length0, input.Length1, threshold)
  {
    image := new byte[input.Length0, input.Length1]((_, _) => 0);
    for x := 0 to image.Length0
      invariant forall i, j :: 0 <= i < x && 0 <= j < image.Length1 ==>
        image[i, j] == Level(input[i, j] as real, threshold)
    {
      for y := 0 to image.Length1
        invariant forall i, j :: 0 <= j < image.Length1 && (0 <= i < x || (i == x && j < y)) ==>
          image[i, j] == Level(input[i, j] as real, threshold)
      {
        if input[x, y] <= threshold {
          image[x, y] := 0;
        } else {
          image[x, y] := 255;
        }
      }
    }
    CellsOf(image, ThresholdGrid(Cells(input), input.Length0, input.Length1, threshold));
  }

  /** HelperFunctions.ThresholdDouble: the same 0/255 rule on a real-valued map. */
  method ThresholdDouble(input: array2<real>, threshold: byte) returns (image: array2<real>)
    ensures fresh(image)
    ensures image.Length0 == input.Length0 && image.Length1 == input.Length1
    ensures Cells(image) == ThresholdRealGrid(Cells(input), input.Length0, input.Length1, threshold)
  {
    image := new real[input.Length0, input.Length1]((_, _) => 0.0);
    for x := 0 to image.Length0
      invariant forall i, j :: 0 <= i < x && 0 <= j < image.Length1 ==>
        image[i, j] == Level(input[i, j], threshold) as real
    {
      for y := 0 to image.Length1
        invariant forall i, j :: 0 <= j < image.Length1 && (0 <= i < x || (i == x && j < y)) ==>
          image[i, j] == Level(input[i, j], threshold) as real
      {
        if input[x, y] <= threshold as real {
          image[x, y] := 0.0;
        } else {
          image[x, y] := 255.0;
        }
      }
    }
    CellsOf(image, ThresholdRealGrid(Cells(input), input.Length0, input.Length1, threshold));
  }

  /** HelperFunctions.CropImage: a fresh image without the outer `startEnd` pixels. */
  method CropImage(input: array2<byte>, startEnd: nat) returns (image: array2<byte>)
    requires 2 * startEnd <= input.Length0 && 2 * startEnd <= input.Length1
    ensures fresh(image)
    ensures image.Length0 == input.Length0 - 2 * startEnd && image.Length1 == input.Length1 - 2 * startEnd
    ensures Cells(image) == Crop(Cells(input), input.Length0, input.Length1, startEnd)
  {
    image := new byte[input.Length0 - startEnd * 2, input.Length1 - startEnd * 2]((_, _) => 0);
    for x := startEnd to input.Length0 - startEnd
      invariant forall i, j :: 0 <= i < x - startEnd && 0 <= j < image.Length1 ==>
        image[i, j] == input[i + startEnd, j + startEnd]
    {
      for y := startEnd to input.Length1 - startEnd
        invariant forall i, j :: 0 <= j < image.Length1 && (0 <= i < x - startEnd || (i == x - startEnd && j < y - startEnd)) ==>
          image[i, j] == input[i + startEnd, j + startEnd]
      {
        image[x - startEnd, y - startEnd] := input[x, y];
      }
    }
    ghost var C := Crop(Cells(input), input.Length0, input.Length1, startEnd);
    forall i, j | 0 <= i < image.Length0 && 0 <= j < image.Length1
      ensures image[i, j] == C[i][j]
    {
      CropAt(Cells(input), input.Length0, input.Length1, startEnd, i, j);
    }
    CellsOf(image, C);
  }
}
