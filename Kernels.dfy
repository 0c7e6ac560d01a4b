/**
 * applySharpen and detectEdges: 3x3 convolutions over the interior pixels
 * (1 <= x < width - 1, 1 <= y < height - 1), reading a copy of the buffer taken
 * before the first write. The outermost ring of pixels and every alpha byte
 * are never written. Kernel cell (kx, ky), -1 <= kx, ky <= 1, has weight
 * `kernel[(ky + 1) * 3 + (kx + 1)]`.
 */
module Kernels {
  import opened Numeric
  import opened Raster

  const SharpenKernel: seq<int> := [0, -1, 0, -1, 5, -1, 0, -1, 0]
  const SobelX: seq<int> := [-1, 0, 1, -2, 0, 2, -1, 0, 1]
  const SobelY: seq<int> := [-1, -2, -1, 0, 0, 0, 1, 2, 1]

  // ------------------------------------------------------------- kernel sums

  /** Sum over kernel row ky, cells kx < end, of weight times channel c of the neighbour (x + kx, y + ky). */
  function ConvRowSum(s: seq<int>, width: nat, height: nat, x: int, y: int, c: int, kernel: seq<int>, ky: int, end: int): int
    requires |s| == width * height * 4 && 0 <= c < 4 && |kernel| == 9
    requires Interior(width, height, x, y) && -1 <= ky <= 1 && end <= 2
    decreases end + 1
  {
    if end <= -1 then 0
    else ConvRowSum(s, width, height, x, y, c, kernel, ky, end - 1) +
         Sample(s, width, height, x + end - 1, y + ky, c) * kernel[(ky + 1) * 3 + end]
  }

  /** One more kernel cell (kx, ky) adds its weight times the neighbour's channel, for each colour channel. */
  lemma ConvRowStep(s: seq<int>, width: nat, height: nat, x: int, y: int, kernel: seq<int>, ky: int, kx: int)
    requires |s| == width * height * 4 && |kernel| == 9
    requires Interior(width, height, x, y) && -1 <= ky <= 1 && -1 <= kx <= 1
    ensures var p, w := PixelIndex(width, x + kx, y + ky), kernel[(ky + 1) * 3 + (kx + 1)];
      && 0 <= p && p + 3 < |s|
      && ConvRowSum(s, width, height, x, y, 0, kernel, ky, kx + 1) == ConvRowSum(s, width, height, x, y, 0, kernel, ky, kx) + s[p] * w
      && ConvRowSum(s, width, height, x, y, 1, kernel, ky, kx + 1) == ConvRowSum(s, width, height, x, y, 1, kernel, ky, kx) + s[p + 1] * w
      && ConvRowSum(s, width, height, x, y, 2, kernel, ky, kx + 1) == ConvRowSum(s, width, height, x, y, 2, kernel, ky, kx) + s[p + 2] * w
  {
    Decompose(width, height, x + kx, y + ky, 3);
  }

  /** Sum over kernel rows ky < end of the convolution of channel c around (x, y). */
  function ConvSum(s: seq<int>, width: nat, height: nat, x: int, y: int, c: int, kernel: seq<int>, end: int): int
    requires |s| == width * height * 4 && 0 <= c < 4 && |kernel| == 9
    requires Interior(width, height, x, y) && end <= 2
    decreases end + 1
  {
    if end <= -1 then 0
    else ConvSum(s, width, height, x, y, c, kernel, end - 1) + ConvRowSum(s, width, height, x, y, c, kernel, end - 1, 2)
  }

  /** A thousand times the luma detectEdges computes for the neighbour (nx, ny). */
  function NeighbourLumaNum(s: seq<int>, width: nat, height: nat, nx: int, ny: int): int
    requires |s| == width * height * 4 && 0 <= nx < width && 0 <= ny < height
  {
    LumaNum(Sample(s, width, height, nx, ny, 0), Sample(s, width, height, nx, ny, 1), Sample(s, width, height, nx, ny, 2))
  }

  /** ConvRowSum with a thousand times the neighbour's luma in place of a channel. */
  function GradRowSum(s: seq<int>, width: nat, height: nat, x: int, y: int, kernel: seq<int>, ky: int, end: int): int
    requires |s| == width * height * 4 && |kernel| == 9
    requires Interior(width, height, x, y) && -1 <= ky <= 1 && end <= 2
    decreases end + 1
  {
    if end <= -1 then 0
    else GradRowSum(s, width, height, x, y, kernel, ky, end - 1) +
         NeighbourLumaNum(s, width, height, x + end - 1, y + ky) * kernel[(ky + 1) * 3 + end]
  }

  /** ConvSum with a thousand times the neighbour's luma in place of a channel. */
  function GradSum(s: seq<int>, width: nat, height: nat, x: int, y: int, kernel: seq<int>, end: int): int
    requires |s| == width * height * 4 && |kernel| == 9
    requires Interior(width, height, x, y) && end <= 2
    decreases end + 1
  {
    if end <= -1 then 0
    else GradSum(s, width, height, x, y, kernel, end - 1) + GradRowSum(s, width, height, x, y, kernel, end - 1, 2)
  }

  /** The luma gradient a kernel measures at (x, y): the sum of weight times luma over the 3x3 neighbourhood. */
  function Gradient(s: seq<int>, width: nat, height: nat, x: int, y: int, kernel: seq<int>): real
    requires |s| == width * height * 4 && |kernel| == 9 && Interior(width, height, x, y)
  {
    GradSum(s, width, height, x, y, kernel, 2) as real / 1000.0
  }

  /** Sum of the weights of kernel row ky, cells kx < end. */
  function WeightRowSum(kernel: seq<int>, ky: int, end: int): int
    requires |kernel| == 9 && -1 <= ky <= 1 && end <= 2
    decreases end + 1
  {
    if end <= -1 then 0 else WeightRowSum(kernel, ky, end - 1) + kernel[(ky + 1) * 3 + end]
  }

  /** Sum of the weights of kernel rows ky < end. */
  function WeightSum(kernel: seq<int>, end: int): int
    requires |kernel| == 9 && end <= 2
    decreases end + 1
  {
    if end <= -1 then 0 else WeightSum(kernel, end - 1) + WeightRowSum(kernel, end - 1, 2)
  }

  /** The sharpen weights sum to 1 and each Sobel kernel's to 0. */
  lemma KernelWeights()
    ensures WeightSum(SharpenKernel, 2) == 1
    ensures WeightSum(SobelX, 2) == 0
    ensures WeightSum(SobelY, 2) == 0
  {
    assert WeightRowSum(SharpenKernel, -1, 2) == -1 && WeightRowSum(SharpenKernel, 0, 2) == 3 && WeightRowSum(SharpenKernel, 1, 2) == -1;
    assert WeightRowSum(SobelX, -1, 2) == 0 && WeightRowSum(SobelX, 0, 2) == 0 && WeightRowSum(SobelX, 1, 2) == 0;
    assert WeightRowSum(SobelY, -1, 2) == -4 && WeightRowSum(SobelY, 0, 2) == 0 && WeightRowSum(SobelY, 1, 2) == 4;
  }

  // ----------------------------------------------------------------- sharpen

  /** What applySharpen stores at buffer offset i. */
  function SharpenedAt(s: seq<int>, width: nat, height: nat, i: nat): int
    requires width > 0 && |s| == width * height * 4 && i < |s|
  {
    Coords(width, height, i);
    var x, y, c := Col(width, i), Row(width, i), Chan(i);
    if c == 3 || !Interior(width, height, x, y) then s[i]
    else ClampByte(ConvSum(s, width, height, x, y, c, SharpenKernel, 2))
  }

  /** The buffer applySharpen leaves behind. */
  function Sharpened(s: seq<int>, width: nat, height: nat): seq<int>
    requires width > 0 && |s| == width * height * 4
  {
    seq(|s|, i requires 0 <= i < |s| => SharpenedAt(s, width, height, i))
  }

  /** The two kernel loops of applySharpen: the red, green and blue convolution sums around (x, y). */
  method KernelTotals(tempData: seq<int>, width: nat, height: nat, x: int, y: int) returns (r: int, g: int, b: int)
    requires |tempData| == width * height * 4 && Interior(width, height, x, y)
    ensures r == ConvSum(tempData, width, height, x, y, 0, SharpenKernel, 2)
    ensures g == ConvSum(tempData, width, height, x, y, 1, SharpenKernel, 2)
    ensures b == ConvSum(tempData, width, height, x, y, 2, SharpenKernel, 2)
  {
    var kernel := SharpenKernel;
    r, g, b := 0, 0, 0;
    var ky := -1;
    while ky <= 1
      invariant -1 <= ky <= 2
      invariant r == ConvSum(tempData, width, height, x, y, 0, kernel, ky)
      invariant g == ConvSum(tempData, width, height, x, y, 1, kernel, ky)
      invariant b == ConvSum(tempData, width, height, x, y, 2, kernel, ky)
    {
      var kx := -1;
      while kx <= 1
        invariant -1 <= kx <= 2
        invariant r == ConvSum(tempData, width, height, x, y, 0, kernel, ky) + ConvRowSum(tempData, width, height, x, y, 0, kernel, ky, kx)
        invariant g == ConvSum(tempData, width, height, x, y, 1, kernel, ky) + ConvRowSum(tempData, width, height, x, y, 1, kernel, ky, kx)
        invariant b == ConvSum(tempData, width, height, x, y, 2, kernel, ky) + ConvRowSum(tempData, width, height, x, y, 2, kernel, ky, kx)
      {
        var idx := ((y + ky) * width + (x + kx)) * 4;
        var weight := kernel[(ky + 1) * 3 + (kx + 1)];
        ConvRowStep(tempData, width, height, x, y, kernel, ky, kx);
        r := r + tempData[idx] * weight;
        g := g + tempData[idx + 1] * weight;
        b := b + tempData[idx + 2] * weight;
        kx := kx + 1;
      }
      ky := ky + 1;
    }
  }

  method ApplySharpen(data: array<int>, width: nat, height: nat)
    requires width > 0 && height > 0 && data.Length == width * height * 4
    modifies data
    ensures data[..] == Sharpened(old(data[..]), width, height)
  {
    var tempData := data[..];
    ghost var out := Sharpened(tempData, width, height);
    var y := 1;
    while y < height - 1
      invariant 1 <= y && (y <= height - 1 || y == 1)
      invariant forall j :: 0 <= j < data.Length ==>
        data[..][j] == if InteriorBefore(width, height, j, 0, y) then out[j] else tempData[j]
    {
      InteriorRowStart(data[..], out, tempData, width, height, y);
      var x := 1;
      while x < width - 1
        invariant 1 <= x && (x <= width - 1 || x == 1)
        invariant forall j :: 0 <= j < data.Length ==>
          data[..][j] == if InteriorBefore(width, height, j, x, y) then out[j] else tempData[j]
      {
        var r, g, b := KernelTotals(tempData, width, height, x, y);
        ghost var before := data[..];
        SharpenStored(tempData, width, height, x, y);
        var idx := (y * width + x) * 4;
        data[idx] := ToUint8Clamp(ClampByte(r) as real);
        data[idx + 1] := ToUint8Clamp(ClampByte(g) as real);
        data[idx + 2] := ToUint8Clamp(ClampByte(b) as real);
        InteriorPixelDone(before, data[..], out, tempData, width, height, x, y);
        x := x + 1;
      }
      InteriorRowEnd(data[..], out, tempData, width, height, x, y);
      y := y + 1;
    }
    SharpenKeepsBorder(tempData, width, height);
    InteriorAllDone(data[..], out, tempData, width, height, y);
  }

  /** What the loop of applySharpen stores into interior pixel (x, y) is what Sharpened holds there. */
  lemma SharpenStored(s: seq<int>, width: nat, height: nat, x: int, y: int)
    requires |s| == width * height * 4 && Interior(width, height, x, y)
    ensures var t, p := Sharpened(s, width, height), PixelIndex(width, x, y);
      && 0 <= p && p + 3 < |s|
      && t[p] == ToUint8Clamp(ClampByte(ConvSum(s, width, height, x, y, 0, SharpenKernel, 2)) as real)
      && t[p + 1] == ToUint8Clamp(ClampByte(ConvSum(s, width, height, x, y, 1, SharpenKernel, 2)) as real)
      && t[p + 2] == ToUint8Clamp(ClampByte(ConvSum(s, width, height, x, y, 2, SharpenKernel, 2)) as real)
      && t[p + 3] == s[p + 3]
  {
    Decompose(width, height, x, y, 0);
    Decompose(width, height, x, y, 1);
    Decompose(width, height, x, y, 2);
    Decompose(width, height, x, y, 3);
    ToUint8ClampOfByte(ClampByte(ConvSum(s, width, height, x, y, 0, SharpenKernel, 2)));
    ToUint8ClampOfByte(ClampByte(ConvSum(s, width, height, x, y, 1, SharpenKernel, 2)));
    ToUint8ClampOfByte(ClampByte(ConvSum(s, width, height, x, y, 2, SharpenKernel, 2)));
  }

  /** applySharpen keeps every alpha byte and every byte of the outermost ring of pixels. */
  lemma SharpenKeepsBorder(s: seq<int>, width: nat, height: nat)
    requires width > 0 && |s| == width * height * 4
    ensures forall j :: 0 <= j < |s| && (Chan(j) == 3 || !Interior(width, height, Col(width, j), Row(width, j))) ==>
              Sharpened(s, width, height)[j] == s[j]
  {
  }
  /** A convolution row over a single-colour image is the row's weight sum times that colour. */
  lemma {:induction false} ConvRowUniform(s: seq<int>, width: nat, height: nat, x: int, y: int, c: int, kernel: seq<int>,
                                          ky: int, end: int, rgba: seq<int>)
    requires |s| == width * height * 4 && 0 <= c < 4 && |kernel| == 9
    requires Interior(width, height, x, y) && -1 <= ky <= 1 && end <= 2
    requires |rgba| == 4 && Uniform(s, rgba)
    ensures ConvRowSum(s, width, height, x, y, c, kernel, ky, end) == rgba[c] * WeightRowSum(kernel, ky, end)
    decreases end + 1
  {
    if end > -1 {
      ConvRowUniform(s, width, height, x, y, c, kernel, ky, end - 1, rgba);
      UniformSample(s, width, height, rgba, x + end - 1, y + ky, c);
      MulDistributesLeft(rgba[c], WeightRowSum(kernel, ky, end - 1), kernel[(ky + 1) * 3 + end]);
    }
  }

  /** A convolution over a single-colour image is the kernel's weight sum times that colour. */
  lemma {:induction false} ConvUniform(s: seq<int>, width: nat, height: nat, x: int, y: int, c: int, kernel: seq<int>,
                                       end: int, rgba: seq<int>)
    requires |s| == width * height * 4 && 0 <= c < 4 && |kernel| == 9
    requires Interior(width, height, x, y) && end <= 2
    requires |rgba| == 4 && Uniform(s, rgba)
    ensures ConvSum(s, width, height, x, y, c, kernel, end) == rgba[c] * WeightSum(kernel, end)
    decreases end + 1
  {
    if end > -1 {
      ConvUniform(s, width, height, x, y, c, kernel, end - 1, rgba);
      ConvRowUniform(s, width, height, x, y, c, kernel, end - 1, 2, rgba);
      MulDistributesLeft(rgba[c], WeightSum(kernel, end - 1), WeightRowSum(kernel, end - 1, 2));
    }
  }

  /** Every byte applySharpen leaves is a byte value: the sums are clamped to [0, 255]. */
  lemma SharpenBounds(s: seq<int>, width: nat, height: nat)
    requires width > 0 && |s| == width * height * 4 && AllBytes(s)
    ensures AllBytes(Sharpened(s, width, height))
  {
    forall j | 0 <= j < |s| ensures IsByte(Sharpened(s, width, height)[j]) {
      assert Sharpened(s, width, height)[j] == SharpenedAt(s, width, height, j);
    }
  }

  /** An image less than three pixels wide or high has no interior pixel, so applySharpen changes nothing. */
  lemma SharpenSmallImage(s: seq<int>, width: nat, height: nat)
    requires width > 0 && |s| == width * height * 4 && (width <= 2 || height <= 2)
    ensures Sharpened(s, width, height) == s
  {
    forall j | 0 <= j < |s| ensures Sharpened(s, width, height)[j] == s[j] {
      assert Sharpened(s, width, height)[j] == SharpenedAt(s, width, height, j);
    }
  }

  /** The sharpen weights sum to 1, so a single-colour image of bytes is left as it is. */
  lemma SharpenUniform(s: seq<int>, width: nat, height: nat, rgba: seq<int>)
    requires width > 0 && |s| == width * height * 4
    requires |rgba| == 4 && IsByte(rgba[0]) && IsByte(rgba[1]) && IsByte(rgba[2]) && Uniform(s, rgba)
    ensures Sharpened(s, width, height) == s
  {
    KernelWeights();
    forall j | 0 <= j < |s| ensures Sharpened(s, width, height)[j] == s[j] {
      assert Sharpened(s, width, height)[j] == SharpenedAt(s, width, height, j);
      Coords(width, height, j);
      var x, y, c := Col(width, j), Row(width, j), Chan(j);
      if c != 3 && Interior(width, height, x, y) {
        ConvUniform(s, width, height, x, y, c, SharpenKernel, 2, rgba);
      }
    }
  }

  // ------------------------------------------------------------ detect edges

  /**
   * The level detectEdges computes for the gradient (gx, gy): `Math.min(255,
   * Math.sqrt(gx * gx + gy * gy))`. The square root is a parameter of the model.
   */
  function EdgeLevel(gx: real, gy: real, sqrt: real -> real): real {
    var magnitude := sqrt(gx * gx + gy * gy);
    if magnitude < 255.0 then magnitude else 255.0
  }

  /** What detectEdges stores for the gradient (gx, gy): the level converted by the store. */
  function EdgeValue(gx: real, gy: real, sqrt: real -> real): (r: int)
    ensures IsByte(r)
  {
    ToUint8Clamp(EdgeLevel(gx, gy, sqrt))
  }

  /** What detectEdges stores at buffer offset i. */
  function EdgeDetectedAt(s: seq<int>, width: nat, height: nat, sqrt: real -> real, i: nat): int
    requires width > 0 && |s| == width * height * 4 && i < |s|
  {
    Coords(width, height, i);
    var x, y, c := Col(width, i), Row(width, i), Chan(i);
    if c == 3 || !Interior(width, height, x, y) then s[i]
    else EdgeValue(Gradient(s, width, height, x, y, SobelX), Gradient(s, width, height, x, y, SobelY), sqrt)
  }

  /** The buffer detectEdges leaves behind. */
  function EdgeDetected(s: seq<int>, width: nat, height: nat, sqrt: real -> real): seq<int>
    requires width > 0 && |s| == width * height * 4
  {
    seq(|s|, i requires 0 <= i < |s| => EdgeDetectedAt(s, width, height, sqrt, i))
  }

  /** One more kernel cell (kx, ky) adds its weight times a thousand times the neighbour's luma. */
  lemma GradRowStep(s: seq<int>, width: nat, height: nat, x: int, y: int, kernel: seq<int>, ky: int, kx: int)
    requires |s| == width * height * 4 && |kernel| == 9
    requires Interior(width, height, x, y) && -1 <= ky <= 1 && -1 <= kx <= 1
    ensures var p := PixelIndex(width, x + kx, y + ky);
      && 0 <= p && p + 3 < |s|
      && GradRowSum(s, width, height, x, y, kernel, ky, kx + 1) ==
         GradRowSum(s, width, height, x, y, kernel, ky, kx) + LumaNum(s[p], s[p + 1], s[p + 2]) * kernel[(ky + 1) * 3 + (kx + 1)]
  {
    PixelBounds(width, height, x + kx, y + ky, 3);
  }

  /**
   * The two kernel loops of detectEdges: the horizontal and vertical Sobel
   * gradients of luma around (x, y). The sums are kept as integers scaled by
   * a thousand, and divided once at the end, which gives the same exact value.
   */
  method GradientTotals(tempData: seq<int>, width: nat, height: nat, x: int, y: int) returns (gx: real, gy: real)
    requires |tempData| == width * height * 4 && Interior(width, height, x, y)
    ensures gx == Gradient(tempData, width, height, x, y, SobelX)
    ensures gy == Gradient(tempData, width, height, x, y, SobelY)
  {
    var sobelX, sobelY := SobelX, SobelY;
    var gxNum, gyNum := 0, 0;
    var ky := -1;
    while ky <= 1
      invariant -1 <= ky <= 2
      invariant gxNum == GradSum(tempData, width, height, x, y, sobelX, ky)
      invariant gyNum == GradSum(tempData, width, height, x, y, sobelY, ky)
    {
      var kx := -1;
      while kx <= 1
        invariant -1 <= kx <= 2
        invariant gxNum == GradSum(tempData, width, height, x, y, sobelX, ky) + GradRowSum(tempData, width, height, x, y, sobelX, ky, kx)
        invariant gyNum == GradSum(tempData, width, height, x, y, sobelY, ky) + GradRowSum(tempData, width, height, x, y, sobelY, ky, kx)
      {
        var idx := ((y + ky) * width + (x + kx)) * 4;
        GradRowStep(tempData, width, height, x, y, sobelX, ky, kx);
        GradRowStep(tempData, width, height, x, y, sobelY, ky, kx);
        var grayNum := LumaNum(tempData[idx], tempData[idx + 1], tempData[idx + 2]);
        var kernelIdx := (ky + 1) * 3 + (kx + 1);
        gxNum := gxNum + grayNum * sobelX[kernelIdx];
        gyNum := gyNum + grayNum * sobelY[kernelIdx];
        kx := kx + 1;
      }
      ky := ky + 1;
    }
    gx, gy := gxNum as real / 1000.0, gyNum as real / 1000.0;
  }

  method DetectEdges(data: array<int>, width: nat, height: nat, sqrt: real -> real)
    requires width > 0 && height > 0 && data.Length == width * height * 4
    modifies data
    ensures data[..] == EdgeDetected(old(data[..]), width, height, sqrt)
  {
    var tempData := data[..];
    ghost var out := EdgeDetected(tempData, width, height, sqrt);
    var y := 1;
    while y < height - 1
      invariant 1 <= y && (y <= height - 1 || y == 1)
      invariant forall j :: 0 <= j < data.Length ==>
        data[..][j] == if InteriorBefore(width, height, j, 0, y) then out[j] else tempData[j]
    {
      InteriorRowStart(data[..], out, tempData, width, height, y);
      var x := 1;
      while x < width - 1
        invariant 1 <= x && (x <= width - 1 || x == 1)
        invariant forall j :: 0 <= j < data.Length ==>
          data[..][j] == if InteriorBefore(width, height, j, x, y) then out[j] else tempData[j]
      {
        var gx, gy := GradientTotals(tempData, width, height, x, y);
        ghost var before := data[..];
        EdgeStored(tempData, width, height, sqrt, x, y);
        var idx := (y * width + x) * 4;
        var level := EdgeLevel(gx, gy, sqrt);
        data[idx + 2] := ToUint8Clamp(level);
        data[idx + 1] := ToUint8Clamp(level);
        data[idx] := ToUint8Clamp(level);
        InteriorPixelDone(before, data[..], out, tempData, width, height, x, y);
        x := x + 1;
      }
      InteriorRowEnd(data[..], out, tempData, width, height, x, y);
      y := y + 1;
    }
    EdgesKeepBorder(tempData, width, height, sqrt);
    InteriorAllDone(data[..], out, tempData, width, height, y);
  }

  /**
   * What the loop of detectEdges stores into interior pixel (x, y) is what
   * EdgeDetected holds there: the same gradient value in red, green and blue,
   * with alpha kept.
   */
  lemma EdgeStored(s: seq<int>, width: nat, height: nat, sqrt: real -> real, x: int, y: int)
    requires |s| == width * height * 4 && Interior(width, height, x, y)
    ensures var t, p := EdgeDetected(s, width, height, sqrt), PixelIndex(width, x, y);
      var v := EdgeValue(Gradient(s, width, height, x, y, SobelX), Gradient(s, width, height, x, y, SobelY), sqrt);
      && 0 <= p && p + 3 < |s|
      && t[p] == t[p + 1] == t[p + 2] == v
      && t[p + 3] == s[p + 3]
  {
    Decompose(width, height, x, y, 0);
    Decompose(width, height, x, y, 1);
    Decompose(width, height, x, y, 2);
    Decompose(width, height, x, y, 3);
  }

  /** detectEdges keeps every alpha byte and every byte of the outermost ring of pixels. */
  lemma EdgesKeepBorder(s: seq<int>, width: nat, height: nat, sqrt: real -> real)
    requires width > 0 && |s| == width * height * 4
    ensures forall j :: 0 <= j < |s| && (Chan(j) == 3 || !Interior(width, height, Col(width, j), Row(width, j))) ==>
              EdgeDetected(s, width, height, sqrt)[j] == s[j]
  {
  }

  /** detectEdges turns a byte buffer into a byte buffer, whatever `sqrt` returns. */
  lemma EdgesKeepBytes(s: seq<int>, width: nat, height: nat, sqrt: real -> real)
    requires width > 0 && |s| == width * height * 4 && AllBytes(s)
    ensures AllBytes(EdgeDetected(s, width, height, sqrt))
  {
  }

  /** A gradient of squared length at least 255 * 255 saturates, when `sqrt` is a square root. */
  lemma EdgeSaturates(gx: real, gy: real, sqrt: real -> real)
    requires gx * gx + gy * gy >= 65025.0
    requires sqrt(gx * gx + gy * gy) >= 0.0 && sqrt(gx * gx + gy * gy) * sqrt(gx * gx + gy * gy) == gx * gx + gy * gy
    ensures EdgeValue(gx, gy, sqrt) == 255
  {
    var m := sqrt(gx * gx + gy * gy);
    assert EdgeLevel(gx, gy, sqrt) == if m < 255.0 then m else 255.0;
    if m < 255.0 {
      assert m * m <= m * 255.0 < 255.0 * 255.0;
    }
    ToUint8ClampRounds(255.0);
  }

  /** A gradient row over a single-colour image is the row's weight sum times the colour's luma. */
  lemma {:induction false} GradRowUniform(s: seq<int>, width: nat, height: nat, x: int, y: int, kernel: seq<int>,
                                          ky: int, end: int, rgba: seq<int>)
    requires |s| == width * height * 4 && |kernel| == 9
    requires Interior(width, height, x, y) && -1 <= ky <= 1 && end <= 2
    requires |rgba| == 4 && Uniform(s, rgba)
    ensures GradRowSum(s, width, height, x, y, kernel, ky, end) == LumaNum(rgba[0], rgba[1], rgba[2]) * WeightRowSum(kernel, ky, end)
    decreases end + 1
  {
    if end > -1 {
      GradRowUniform(s, width, height, x, y, kernel, ky, end - 1, rgba);
      UniformSample(s, width, height, rgba, x + end - 1, y + ky, 0);
      UniformSample(s, width, height, rgba, x + end - 1, y + ky, 1);
      UniformSample(s, width, height, rgba, x + end - 1, y + ky, 2);
      MulDistributesLeft(LumaNum(rgba[0], rgba[1], rgba[2]), WeightRowSum(kernel, ky, end - 1), kernel[(ky + 1) * 3 + end]);
    }
  }

  /** A gradient over a single-colour image is the kernel's weight sum times the colour's luma. */
  lemma {:induction false} GradUniform(s: seq<int>, width: nat, height: nat, x: int, y: int, kernel: seq<int>,
                                       end: int, rgba: seq<int>)
    requires |s| == width * height * 4 && |kernel| == 9
    requires Interior(width, height, x, y) && end <= 2
    requires |rgba| == 4 && Uniform(s, rgba)
    ensures GradSum(s, width, height, x, y, kernel, end) == LumaNum(rgba[0], rgba[1], rgba[2]) * WeightSum(kernel, end)
    decreases end + 1
  {
    if end > -1 {
      GradUniform(s, width, height, x, y, kernel, end - 1, rgba);
      GradRowUniform(s, width, height, x, y, kernel, end - 1, 2, rgba);
      MulDistributesLeft(LumaNum(rgba[0], rgba[1], rgba[2]), WeightSum(kernel, end - 1), WeightRowSum(kernel, end - 1, 2));
    }
  }

  /**
   * Each Sobel kernel's weights sum to 0, so a single-colour image has no
   * gradient: when `sqrt(0) == 0`, every interior colour byte becomes 0 and
   * every other byte is kept.
   */
  lemma EdgesUniform(s: seq<int>, width: nat, height: nat, sqrt: real -> real, rgba: seq<int>)
    requires width > 0 && |s| == width * height * 4 && |rgba| == 4 && Uniform(s, rgba)
    requires sqrt(0.0) == 0.0
    ensures forall j :: 0 <= j < |s| ==>
      EdgeDetected(s, width, height, sqrt)[j] ==
        if Chan(j) != 3 && Interior(width, height, Col(width, j), Row(width, j)) then 0 else s[j]
  {
    KernelWeights();
    ToUint8ClampRounds(0.0);
    forall j | 0 <= j < |s| ensures EdgeDetected(s, width, height, sqrt)[j] ==
        if Chan(j) != 3 && Interior(width, height, Col(width, j), Row(width, j)) then 0 else s[j] {
      assert EdgeDetected(s, width, height, sqrt)[j] == EdgeDetectedAt(s, width, height, sqrt, j);
      Coords(width, height, j);
      var x, y := Col(width, j), Row(width, j);
      if Chan(j) != 3 && Interior(width, height, x, y) {
        GradUniform(s, width, height, x, y, SobelX, 2, rgba);
        GradUniform(s, width, height, x, y, SobelY, 2, rgba);
      }
    }
  }
}
