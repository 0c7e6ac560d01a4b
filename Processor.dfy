/**
 * processImage from the image-processor hook: the operation chosen from the
 * closed OperationType union, the `||` parameter defaults, the rule that
 * only pixel operations write their buffer back to the canvas, the
 * width/height swap of rotate, and the statistics and histogram recomputed
 * from the canvas after every operation.
 */
module Processor {
  import opened Raster
  import Filters = PointFilters
  import BoxBlur = Blur
  import Convolution = Kernels
  import Statistics

  datatype OperationType =
    | Contrast
    | Threshold
    | Blur
    | Sharpen
    | Invert
    | Rotate
    | FlipHorizontal
    | FlipVertical
    | EdgeDetection
    | Grayscale

  /** The operation parameters: the numeric entries of the `params` record. */
  type Params = map<string, real>

  const DefaultFactor: real := 1.5
  const DefaultThreshold: real := 128.0
  const DefaultRadius: real := 2.0
  const DefaultAngle: real := 90.0

  /** `params[key] as number || fallback`: a missing entry and a zero both fall back. */
  function NumberOr(params: Params, key: string, fallback: real): (r: real)
    ensures r == fallback <==> key !in params || params[key] == 0.0 || params[key] == fallback
    ensures key in params && params[key] != 0.0 ==> r == params[key]
  {
    if key in params && params[key] != 0.0 then params[key] else fallback
  }

  function ResolvedFactor(params: Params): real {
    NumberOr(params, "factor", DefaultFactor)
  }

  function ResolvedThreshold(params: Params): real {
    NumberOr(params, "threshold", DefaultThreshold)
  }

  function ResolvedRadius(params: Params): real {
    NumberOr(params, "radius", DefaultRadius)
  }

  function ResolvedAngle(params: Params): real {
    NumberOr(params, "angle", DefaultAngle)
  }

  /** A missing or zero parameter takes its default; any other value is used as given. */
  lemma ResolvedDefaults(params: Params)
    ensures ("factor" !in params || params["factor"] == 0.0) ==> ResolvedFactor(params) == 1.5
    ensures ("threshold" !in params || params["threshold"] == 0.0) ==> ResolvedThreshold(params) == 128.0
    ensures ("radius" !in params || params["radius"] == 0.0) ==> ResolvedRadius(params) == 2.0
    ensures ("angle" !in params || params["angle"] == 0.0) ==> ResolvedAngle(params) == 90.0
    ensures forall key :: key in params && params[key] != 0.0 && key in {"factor", "threshold", "radius", "angle"} ==>
      params[key] == (if key == "factor" then ResolvedFactor(params)
                      else if key == "threshold" then ResolvedThreshold(params)
                      else if key == "radius" then ResolvedRadius(params)
                      else ResolvedAngle(params))
  {
  }

  /**
   * No resolved parameter is ever zero: a threshold of 0 never reaches
   * applyThreshold, a radius of 0 never reaches applyBlur, and a factor of 0
   * never reaches adjustContrast.
   */
  lemma ResolvedNeverZero(params: Params)
    ensures ResolvedFactor(params) != 0.0 && ResolvedThreshold(params) != 0.0
    ensures ResolvedRadius(params) != 0.0 && ResolvedAngle(params) != 0.0
  {
  }

  /** The radius applyBlur can be given: a whole number, as the radius slider produces. */
  predicate IsWhole(x: real) {
    x.Floor as real == x
  }

  /** The write-back rule: every operation except rotate and the two flips puts its buffer back. */
  predicate WritesBack(op: OperationType) {
    op != Rotate && op != FlipHorizontal && op != FlipVertical
  }

  /** The operations with a pixel loop of their own. */
  const PixelOperations: set<OperationType> := {Contrast, Threshold, Blur, Sharpen, Invert, EdgeDetection, Grayscale}

  /** Exactly the seven pixel operations write back; rotate and the flips discard the buffer. */
  lemma WritesBackExactly(op: OperationType)
    ensures WritesBack(op) <==> op in PixelOperations
  {
  }

  /** The canvas size after op: rotate swaps width and height whatever the angle, every other operation keeps them. */
  function NextDimensions(op: OperationType, width: nat, height: nat): (nat, nat)
  {
    if op == Rotate then (height, width) else (width, height)
  }

  /** The swap keeps the pixel count, two rotations restore the size, and flips keep it. */
  lemma NextDimensionsFacts(op: OperationType, width: nat, height: nat)
    ensures var (nw, nh) := NextDimensions(op, width, height); nw * nh == width * height
    ensures var (nw, nh) := NextDimensions(Rotate, width, height); NextDimensions(Rotate, nw, nh) == (width, height)
    ensures op != Rotate ==> NextDimensions(op, width, height) == (width, height)
    ensures NextDimensions(Rotate, width, height) == (height, width)
  {
    var (nw, nh) := NextDimensions(op, width, height);
    if op == Rotate {
      assert nw * nh == height * width == width * height;
    }
  }

  /** The buffer a pixel operation leaves in `imageData`. */
  function Processed(op: OperationType, params: Params, s: seq<int>, width: nat, height: nat, sqrt: real -> real): seq<int>
    requires width > 0 && height > 0 && |s| == width * height * 4 && WritesBack(op)
    requires op == Blur ==> IsWhole(ResolvedRadius(params))
  {
    match op
    case Contrast => Filters.Contrasted(s, ResolvedFactor(params))
    case Threshold => Filters.Thresholded(s, ResolvedThreshold(params))
    case Blur => BoxBlur.Blurred(s, width, height, ResolvedRadius(params).Floor)
    case Sharpen => Convolution.Sharpened(s, width, height)
    case Invert => Filters.Inverted(s)
    case EdgeDetection => Convolution.EdgeDetected(s, width, height, sqrt)
    case Grayscale => Filters.Grayscaled(s)
  }

  /** Every pixel operation turns a canvas buffer into a canvas buffer of the same size. */
  lemma ProcessedKeepsBuffer(op: OperationType, params: Params, s: seq<int>, width: nat, height: nat, sqrt: real -> real)
    requires width > 0 && height > 0 && IsBuffer(s, width, height) && WritesBack(op)
    requires op == Blur ==> IsWhole(ResolvedRadius(params))
    ensures IsBuffer(Processed(op, params, s, width, height, sqrt), width, height)
  {
    match op
    case Contrast => Filters.ContrastKeepsBytes(s, ResolvedFactor(params));
    case Threshold => Filters.ThresholdKeepsBytes(s, ResolvedThreshold(params));
    case Blur => BoxBlur.BlurKeepsBytes(s, width, height, ResolvedRadius(params).Floor);
    case Sharpen => Convolution.SharpenBounds(s, width, height);
    case Invert => Filters.InvertBounds(s);
    case EdgeDetection => Convolution.EdgesKeepBytes(s, width, height, sqrt);
    case Grayscale => Filters.GrayscaleKeepsBytes(s);
  }

  /** Every pixel operation leaves the alpha byte of each pixel as it was. */
  lemma ProcessedKeepsAlpha(op: OperationType, params: Params, s: seq<int>, width: nat, height: nat, sqrt: real -> real)
    requires width > 0 && height > 0 && IsBuffer(s, width, height) && WritesBack(op)
    requires op == Blur ==> IsWhole(ResolvedRadius(params))
    ensures forall i :: 0 <= i < |s| && i % 4 == 3 ==> Processed(op, params, s, width, height, sqrt)[i] == s[i]
  {
    match op
    case Contrast =>
    case Threshold =>
    case Blur => BoxBlur.BlurKeepsAlpha(s, width, height, ResolvedRadius(params).Floor);
    case Sharpen => Convolution.SharpenKeepsBorder(s, width, height);
    case Invert =>
    case EdgeDetection => Convolution.EdgesKeepBorder(s, width, height, sqrt);
    case Grayscale =>
  }

  /** The switch of processImage over the seven pixel operations, each run on `imageData` in place. */
  method ApplyOperation(op: OperationType, params: Params, imageData: array<int>, width: nat, height: nat, sqrt: real -> real)
    requires width > 0 && height > 0 && imageData.Length == width * height * 4 && WritesBack(op)
    requires op == Blur ==> IsWhole(ResolvedRadius(params))
    requires AllBytes(imageData[..])
    modifies imageData
    ensures imageData[..] == Processed(op, params, old(imageData[..]), width, height, sqrt)
  {
    match op {
      case Contrast =>
        Filters.AdjustContrast(imageData, ResolvedFactor(params));
      case Threshold =>
        Filters.ApplyThreshold(imageData, ResolvedThreshold(params));
      case Blur =>
        BoxBlur.ApplyBlur(imageData, width, height, ResolvedRadius(params).Floor);
      case Sharpen =>
        Convolution.ApplySharpen(imageData, width, height);
      case Invert =>
        Filters.InvertColors(imageData);
      case EdgeDetection =>
        Convolution.DetectEdges(imageData, width, height, sqrt);
      case Grayscale =>
        Filters.ConvertToGrayscale(imageData);
    }
  }

  /**
   * The hook's view of the canvas: its size and pixels, and the statistics
   * and histogram last computed from it.
   */
  class ImageProcessor {
    var width: nat
    var height: nat
    var pixels: seq<int>
    var stats: Statistics.ImageStats
    var histogram: seq<int>

    /** The canvas holds a width x height byte buffer, and stats and histogram describe it. */
    ghost predicate Valid()
      reads this
    {
      && width > 0 && height > 0 && IsBuffer(pixels, width, height)
      && stats == Statistics.StatsOf(pixels, width, height)
      && histogram == Statistics.HistogramOf(pixels, |pixels| / 4)
    }

    /** loadImage: the canvas takes the decoded image's size and pixels, then stats and histogram are computed. */
    constructor (width: nat, height: nat, image: seq<int>)
      requires width > 0 && height > 0 && IsBuffer(image, width, height)
      ensures Valid()
      ensures this.width == width && this.height == height && pixels == image
    {
      this.width := width;
      this.height := height;
      pixels := image;
      var st := Statistics.GetImageStats(image, width, height);
      var hist := Statistics.GenerateHistogram(image);
      stats, histogram := st, hist;
    }

    /**
     * processImage. `rendered` stands for what the canvas holds after the
     * drawImage of rotate (by ResolvedAngle(params) degrees) or of a flip,
     * already at the new size; `sqrt` stands for Math.sqrt.
     */
    method ProcessImage(op: OperationType, params: Params, sqrt: real -> real, rendered: seq<int>)
      requires Valid()
      requires op == Blur ==> IsWhole(ResolvedRadius(params))
      requires !WritesBack(op) ==> IsBuffer(rendered, NextDimensions(op, width, height).0, NextDimensions(op, width, height).1)
      modifies this
      ensures Valid()
      ensures (width, height) == NextDimensions(op, old(width), old(height))
      ensures WritesBack(op) ==> pixels == Processed(op, params, old(pixels), old(width), old(height), sqrt)
      ensures !WritesBack(op) ==> pixels == rendered
      ensures stats == Statistics.StatsOf(pixels, width, height)
      ensures histogram == Statistics.HistogramOf(pixels, |pixels| / 4)
    {
      var buf := pixels;
      var imageData := new int[|buf|](i requires 0 <= i < |buf| => buf[i]);
      assert imageData[..] == buf;
      if WritesBack(op) {
        ApplyOperation(op, params, imageData, width, height, sqrt);
        ProcessedKeepsBuffer(op, params, buf, width, height, sqrt);
        pixels := imageData[..];
      } else {
        if op == Rotate {
          width, height := height, width;
        }
        pixels := rendered;
      }
      assert IsBuffer(pixels, width, height);
      BufferLength(pixels, width, height);
      stats := Statistics.GetImageStats(pixels, width, height);
      histogram := Statistics.GenerateHistogram(pixels);
    }
  }
}
