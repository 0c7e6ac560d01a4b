/**
 * The pointwise filters of the pixel engine: adjustContrast, applyThreshold,
 * invertColors and convertToGrayscale. Each walks the buffer four bytes at a
 * time, rewrites the red, green and blue bytes of the pixel from that pixel's
 * own values, and never writes the alpha byte.
 */
module PointFilters {
  import opened Numeric
  import opened Raster

  /** Offset of the red byte of the pixel that offset i belongs to. */
  function PixelBase(i: int): int {
    i - i % 4
  }

  /** Luma of the pixel that offset i belongs to. */
  function PixelLuma(s: seq<int>, i: int): real
    requires |s| % 4 == 0 && 0 <= i < |s|
  {
    var p := PixelBase(i);
    Luma(s[p], s[p + 1], s[p + 2])
  }

  /** The four offsets of pixel k decode to channels 0..3 of that pixel. */
  lemma PixelOffsets(k: int)
    ensures (4 * k) % 4 == 0 && (4 * k + 1) % 4 == 1 && (4 * k + 2) % 4 == 2 && (4 * k + 3) % 4 == 3
    ensures PixelBase(4 * k) == PixelBase(4 * k + 1) == PixelBase(4 * k + 2) == PixelBase(4 * k + 3) == 4 * k
  {
    DivModUnique(4 * k, 4, k, 0);
    DivModUnique(4 * k + 1, 4, k, 1);
    DivModUnique(4 * k + 2, 4, k, 2);
    DivModUnique(4 * k + 3, 4, k, 3);
  }

  /** Every offset is one of the four offsets of pixel i / 4. */
  lemma OffsetPixel(i: int)
    requires 0 <= i
    ensures i == 4 * (i / 4) + i % 4 && 0 <= i % 4 < 4
  {
  }

  /**
   * One step of a loop that rewrites the buffer one pixel at a time: once the
   * four bytes at i..i+3 hold their final values and nothing else moved, the
   * finished prefix has grown by one pixel.
   */
  lemma PixelStep(before: seq<int>, after: seq<int>, out: seq<int>, s: seq<int>, i: int)
    requires |before| == |after| == |out| == |s| && 0 <= i && i + 4 <= |s|
    requires forall j :: 0 <= j < |s| ==> before[j] == if j < i then out[j] else s[j]
    requires forall j :: 0 <= j < |s| && (j < i || i + 4 <= j) ==> after[j] == before[j]
    requires after[i] == out[i] && after[i + 1] == out[i + 1] && after[i + 2] == out[i + 2] && after[i + 3] == out[i + 3]
    ensures forall j :: 0 <= j < |s| ==> after[j] == if j < i + 4 then out[j] else s[j]
  {
    forall j | 0 <= j < |s| ensures after[j] == if j < i + 4 then out[j] else s[j] {
      if i <= j < i + 4 {
        assert j == i || j == i + 1 || j == i + 2 || j == i + 3;
      }
    }
  }

  // ---------------------------------------------------------------- contrast

  /** The offset adjustContrast adds to every colour channel: `(factor - 1) * 255`. */
  function ContrastOffset(factor: real): real {
    (factor - 1.0) * 255.0
  }

  /** What adjustContrast stores into one colour channel holding v. */
  function ContrastChannel(v: int, factor: real): int {
    ToUint8Clamp(ClampReal(v as real + ContrastOffset(factor), 0.0, 255.0))
  }

  /** The buffer adjustContrast leaves behind. */
  function Contrasted(s: seq<int>, factor: real): seq<int> {
    seq(|s|, i requires 0 <= i < |s| => if i % 4 == 3 then s[i] else ContrastChannel(s[i], factor))
  }

  method AdjustContrast(data: array<int>, factor: real)
    requires data.Length % 4 == 0
    modifies data
    ensures data[..] == Contrasted(old(data[..]), factor)
  {
    ghost var s := data[..];
    ghost var out := Contrasted(s, factor);
    var contrast := (factor - 1.0) * 255.0;
    var i := 0;
    ghost var k := 0;
    while i < data.Length
      invariant 0 <= i <= data.Length && i == 4 * k
      invariant forall j :: 0 <= j < data.Length ==> data[..][j] == if j < i then out[j] else s[j]
    {
      ghost var before := data[..];
      data[i] := ToUint8Clamp(ClampReal(data[i] as real + contrast, 0.0, 255.0));
      data[i + 1] := ToUint8Clamp(ClampReal(data[i + 1] as real + contrast, 0.0, 255.0));
      data[i + 2] := ToUint8Clamp(ClampReal(data[i + 2] as real + contrast, 0.0, 255.0));
      ContrastStep(before, data[..], s, factor, k);
      i := i + 4;
      k := k + 1;
    }
  }

  /** What the loop of adjustContrast stores into pixel k is what Contrasted holds there. */
  lemma ContrastStored(s: seq<int>, factor: real, k: int)
    requires 0 <= k && 4 * k + 3 < |s|
    ensures var t, p := Contrasted(s, factor), 4 * k;
      && t[p] == ToUint8Clamp(ClampReal(s[p] as real + (factor - 1.0) * 255.0, 0.0, 255.0))
      && t[p + 1] == ToUint8Clamp(ClampReal(s[p + 1] as real + (factor - 1.0) * 255.0, 0.0, 255.0))
      && t[p + 2] == ToUint8Clamp(ClampReal(s[p + 2] as real + (factor - 1.0) * 255.0, 0.0, 255.0))
      && t[p + 3] == s[p + 3]
  {
    PixelOffsets(k);
  }

  /** One pass of the loop of adjustContrast extends the finished prefix by pixel k. */
  lemma ContrastStep(before: seq<int>, after: seq<int>, s: seq<int>, factor: real, k: int)
    requires |before| == |after| == |s| && 0 <= k && 4 * k + 4 <= |s|
    requires forall j :: 0 <= j < |s| ==> before[j] == if j < 4 * k then Contrasted(s, factor)[j] else s[j]
    requires forall j :: 0 <= j < |s| && (j < 4 * k || 4 * k + 4 <= j) ==> after[j] == before[j]
    requires var i := 4 * k;
      && after[i] == ToUint8Clamp(ClampReal(before[i] as real + (factor - 1.0) * 255.0, 0.0, 255.0))
      && after[i + 1] == ToUint8Clamp(ClampReal(before[i + 1] as real + (factor - 1.0) * 255.0, 0.0, 255.0))
      && after[i + 2] == ToUint8Clamp(ClampReal(before[i + 2] as real + (factor - 1.0) * 255.0, 0.0, 255.0))
      && after[i + 3] == before[i + 3]
    ensures forall j :: 0 <= j < |s| ==> after[j] == if j < 4 * k + 4 then Contrasted(s, factor)[j] else s[j]
  {
    var i := 4 * k;
    assert before[i] == s[i] && before[i + 1] == s[i + 1] && before[i + 2] == s[i + 2] && before[i + 3] == s[i + 3];
    ContrastStored(s, factor, k);
    PixelStep(before, after, Contrasted(s, factor), s, i);
  }

  /** Every channel adjustContrast leaves is a byte, and alpha keeps its old value. */
  lemma ContrastBounds(s: seq<int>, factor: real, i: int)
    requires AllBytes(s) && 0 <= i < |s|
    ensures IsByte(Contrasted(s, factor)[i])
    ensures i % 4 == 3 ==> Contrasted(s, factor)[i] == s[i]
  {
    if i % 4 != 3 {
      assert Contrasted(s, factor)[i] == ContrastChannel(s[i], factor);
    }
  }

  /** adjustContrast turns a byte buffer into a byte buffer. */
  lemma ContrastKeepsBytes(s: seq<int>, factor: real)
    requires AllBytes(s)
    ensures AllBytes(Contrasted(s, factor))
  {
    forall i | 0 <= i < |s| ensures IsByte(Contrasted(s, factor)[i]) {
      ContrastBounds(s, factor, i);
    }
  }

  /** A factor of 1 adds nothing, so adjustContrast leaves a byte buffer as it was. */
  lemma ContrastIdentity(s: seq<int>)
    requires AllBytes(s)
    ensures Contrasted(s, 1.0) == s
  {
    forall i | 0 <= i < |s| ensures Contrasted(s, 1.0)[i] == s[i] {
      if i % 4 != 3 {
        assert ClampReal(s[i] as real + ContrastOffset(1.0), 0.0, 255.0) == s[i] as real;
        ToUint8ClampOfByte(s[i]);
      }
    }
  }

  /** A factor above 1 never darkens a channel; a factor below 1 never brightens one. */
  lemma ContrastDirection(s: seq<int>, factor: real, i: int)
    requires AllBytes(s) && 0 <= i < |s|
    ensures factor >= 1.0 ==> Contrasted(s, factor)[i] >= s[i]
    ensures factor <= 1.0 ==> Contrasted(s, factor)[i] <= s[i]
  {
    if i % 4 != 3 {
      var x := ClampReal(s[i] as real + ContrastOffset(factor), 0.0, 255.0);
      assert Contrasted(s, factor)[i] == ToUint8Clamp(x);
      if factor >= 1.0 {
        ToUint8ClampBetween(x, s[i], 255);
      }
      if factor <= 1.0 {
        ToUint8ClampBetween(x, 0, s[i]);
      }
    }
  }

  // --------------------------------------------------------------- threshold

  /** The value applyThreshold writes for a pixel of luma `gray`: white from the threshold up, black below it. */
  function ThresholdLevel(gray: real, threshold: real): (r: int)
    ensures IsByte(r)
    ensures r == 255 <==> gray >= threshold
    ensures r == 0 <==> gray < threshold
  {
    if gray >= threshold then 255 else 0
  }

  /** The buffer applyThreshold leaves behind: colour channels 255 where luma reaches the threshold, else 0. */
  function Thresholded(s: seq<int>, threshold: real): seq<int>
    requires |s| % 4 == 0
  {
    seq(|s|, i requires 0 <= i < |s| =>
      if i % 4 == 3 then s[i] else ThresholdLevel(PixelLuma(s, i), threshold))
  }

  method ApplyThreshold(data: array<int>, threshold: real)
    requires data.Length % 4 == 0
    modifies data
    ensures data[..] == Thresholded(old(data[..]), threshold)
  {
    ghost var s := data[..];
    ghost var out := Thresholded(s, threshold);
    var i := 0;
    ghost var k := 0;
    while i < data.Length
      invariant 0 <= i <= data.Length && i == 4 * k
      invariant forall j :: 0 <= j < data.Length ==> data[..][j] == if j < i then out[j] else s[j]
    {
      ghost var before := data[..];
      var gray := Luma(data[i], data[i + 1], data[i + 2]);
      var value := ThresholdLevel(gray, threshold);
      data[i + 2] := ToUint8Clamp(value as real);
      data[i + 1] := ToUint8Clamp(value as real);
      data[i] := ToUint8Clamp(value as real);
      ThresholdStep(before, data[..], s, threshold, k);
      i := i + 4;
      k := k + 1;
    }
  }

  /** One pass of the loop of applyThreshold extends the finished prefix by pixel k. */
  lemma ThresholdStep(before: seq<int>, after: seq<int>, s: seq<int>, threshold: real, k: int)
    requires |before| == |after| == |s| && |s| % 4 == 0 && 0 <= k && 4 * k + 4 <= |s|
    requires forall j :: 0 <= j < |s| ==> before[j] == if j < 4 * k then Thresholded(s, threshold)[j] else s[j]
    requires forall j :: 0 <= j < |s| && (j < 4 * k || 4 * k + 4 <= j) ==> after[j] == before[j]
    requires var i := 4 * k;
      var v := ToUint8Clamp(ThresholdLevel(Luma(before[i], before[i + 1], before[i + 2]), threshold) as real);
      after[i] == v && after[i + 1] == v && after[i + 2] == v && after[i + 3] == before[i + 3]
    ensures forall j :: 0 <= j < |s| ==> after[j] == if j < 4 * k + 4 then Thresholded(s, threshold)[j] else s[j]
  {
    var i := 4 * k;
    assert before[i] == s[i] && before[i + 1] == s[i + 1] && before[i + 2] == s[i + 2] && before[i + 3] == s[i + 3];
    ThresholdStored(s, threshold, k);
    PixelStep(before, after, Thresholded(s, threshold), s, i);
  }

  /** What the loop of applyThreshold stores into pixel k is what Thresholded holds there. */
  lemma ThresholdStored(s: seq<int>, threshold: real, k: int)
    requires |s| % 4 == 0 && 0 <= k && 4 * k + 3 < |s|
    ensures var t, p := Thresholded(s, threshold), 4 * k;
      var v := ThresholdLevel(Luma(s[p], s[p + 1], s[p + 2]), threshold);
      && t[p] == t[p + 1] == t[p + 2] == ToUint8Clamp(v as real)
      && t[p + 3] == s[p + 3]
  {
    PixelOffsets(k);
    ToUint8ClampOfByte(ThresholdLevel(Luma(s[4 * k], s[4 * k + 1], s[4 * k + 2]), threshold));
  }

  /**
   * After applyThreshold every pixel is black or white with R = G = B, it is white
   * exactly when its luma is at least the threshold (ties go to white), and alpha is kept.
   */
  lemma ThresholdBinary(s: seq<int>, threshold: real, k: int)
    requires |s| % 4 == 0 && 0 <= k && 4 * k + 3 < |s|
    ensures var t, p := Thresholded(s, threshold), 4 * k;
      && t[p] == t[p + 1] == t[p + 2]
      && (t[p] == 255 || t[p] == 0)
      && (t[p] == 255 <==> Luma(s[p], s[p + 1], s[p + 2]) >= threshold)
      && t[p + 3] == s[p + 3]
  {
    PixelOffsets(k);
  }

  /** applyThreshold turns a byte buffer into a byte buffer. */
  lemma ThresholdKeepsBytes(s: seq<int>, threshold: real)
    requires |s| % 4 == 0 && AllBytes(s)
    ensures AllBytes(Thresholded(s, threshold))
  {
  }

  /** Any threshold maps a buffer it has already thresholded to itself. */
  lemma ThresholdIdempotent(s: seq<int>, threshold: real)
    requires |s| % 4 == 0 && AllBytes(s)
    ensures Thresholded(Thresholded(s, threshold), threshold) == Thresholded(s, threshold)
  {
    var t := Thresholded(s, threshold);
    forall i | 0 <= i < |s| ensures Thresholded(t, threshold)[i] == t[i] {
      ThresholdIdempotentAtOffset(s, threshold, i);
    }
  }

  lemma ThresholdIdempotentAtOffset(s: seq<int>, threshold: real, i: int)
    requires |s| % 4 == 0 && AllBytes(s) && 0 <= i < |s|
    ensures Thresholded(Thresholded(s, threshold), threshold)[i] == Thresholded(s, threshold)[i]
  {
    var k, c := i / 4, i % 4;
    OffsetPixel(i);
    ThresholdIdempotentAt(s, threshold, k);
    if c == 0 {
      assert i == 4 * k;
    } else if c == 1 {
      assert i == 4 * k + 1;
    } else if c == 2 {
      assert i == 4 * k + 2;
    } else {
      assert i == 4 * k + 3;
    }
  }

  lemma ThresholdIdempotentAt(s: seq<int>, threshold: real, k: int)
    requires |s| % 4 == 0 && AllBytes(s) && 0 <= k && 4 * k + 3 < |s|
    ensures var t, p := Thresholded(s, threshold), 4 * k;
      var tt := Thresholded(t, threshold);
      tt[p] == t[p] && tt[p + 1] == t[p + 1] && tt[p + 2] == t[p + 2] && tt[p + 3] == t[p + 3]
  {
    var t, p := Thresholded(s, threshold), 4 * k;
    ThresholdBinary(s, threshold, k);
    ThresholdBinary(t, threshold, k);
    var v, luma := t[p], Luma(s[p], s[p + 1], s[p + 2]);
    LumaOfGray(v);
    LumaRange(s[p], s[p + 1], s[p + 2]);
    if luma >= threshold {
      // white stays white: 255 is at least the luma that reached the threshold
      assert v == 255 && 255.0 >= luma;
    } else {
      // black stays black: 0 is at most the luma that fell short of it
      assert v == 0 && 0.0 <= luma;
    }
  }

  // ------------------------------------------------------------------ invert

  /** The buffer invertColors leaves behind: each colour channel v becomes 255 - v. */
  function Inverted(s: seq<int>): seq<int> {
    seq(|s|, i requires 0 <= i < |s| => if i % 4 == 3 then s[i] else 255 - s[i])
  }

  method InvertColors(data: array<int>)
    requires data.Length % 4 == 0 && AllBytes(data[..])
    modifies data
    ensures data[..] == Inverted(old(data[..]))
  {
    ghost var s := data[..];
    ghost var out := Inverted(s);
    var i := 0;
    ghost var k := 0;
    while i < data.Length
      invariant 0 <= i <= data.Length && i == 4 * k
      invariant forall j :: 0 <= j < data.Length ==> data[..][j] == if j < i then out[j] else s[j]
    {
      ghost var before := data[..];
      data[i] := ToUint8Clamp((255 - data[i]) as real);
      data[i + 1] := ToUint8Clamp((255 - data[i + 1]) as real);
      data[i + 2] := ToUint8Clamp((255 - data[i + 2]) as real);
      InvertStep(before, data[..], s, k);
      i := i + 4;
      k := k + 1;
    }
  }

  /** What the loop of invertColors stores into pixel k is what Inverted holds there. */
  lemma InvertStored(s: seq<int>, k: int)
    requires AllBytes(s) && 0 <= k && 4 * k + 3 < |s|
    ensures var t, p := Inverted(s), 4 * k;
      && t[p] == ToUint8Clamp((255 - s[p]) as real)
      && t[p + 1] == ToUint8Clamp((255 - s[p + 1]) as real)
      && t[p + 2] == ToUint8Clamp((255 - s[p + 2]) as real)
      && t[p + 3] == s[p + 3]
  {
    PixelOffsets(k);
    ToUint8ClampOfByte(255 - s[4 * k]);
    ToUint8ClampOfByte(255 - s[4 * k + 1]);
    ToUint8ClampOfByte(255 - s[4 * k + 2]);
  }

  /** One pass of the loop of invertColors extends the finished prefix by pixel k. */
  lemma InvertStep(before: seq<int>, after: seq<int>, s: seq<int>, k: int)
    requires |before| == |after| == |s| && AllBytes(s) && 0 <= k && 4 * k + 4 <= |s|
    requires forall j :: 0 <= j < |s| ==> before[j] == if j < 4 * k then Inverted(s)[j] else s[j]
    requires forall j :: 0 <= j < |s| && (j < 4 * k || 4 * k + 4 <= j) ==> after[j] == before[j]
    requires var i := 4 * k;
      && after[i] == ToUint8Clamp((255 - before[i]) as real)
      && after[i + 1] == ToUint8Clamp((255 - before[i + 1]) as real)
      && after[i + 2] == ToUint8Clamp((255 - before[i + 2]) as real)
      && after[i + 3] == before[i + 3]
    ensures forall j :: 0 <= j < |s| ==> after[j] == if j < 4 * k + 4 then Inverted(s)[j] else s[j]
  {
    var i := 4 * k;
    assert before[i] == s[i] && before[i + 1] == s[i + 1] && before[i + 2] == s[i + 2] && before[i + 3] == s[i + 3];
    InvertStored(s, k);
    PixelStep(before, after, Inverted(s), s, i);
  }

  /** invertColors keeps a byte buffer a byte buffer and never changes alpha. */
  lemma InvertBounds(s: seq<int>)
    requires AllBytes(s)
    ensures AllBytes(Inverted(s))
    ensures forall p :: 0 <= p < |s| && p % 4 == 3 ==> Inverted(s)[p] == s[p]
  {
  }

  /** Inverting twice restores every byte. */
  lemma InvertInvolution(s: seq<int>)
    ensures Inverted(Inverted(s)) == s
  {
    assert forall i :: 0 <= i < |s| ==> Inverted(Inverted(s))[i] == s[i];
  }

  // --------------------------------------------------------------- grayscale

  /** The buffer convertToGrayscale leaves behind: every colour channel becomes the stored luma. */
  function Grayscaled(s: seq<int>): seq<int>
    requires |s| % 4 == 0
  {
    seq(|s|, i requires 0 <= i < |s| => if i % 4 == 3 then s[i] else ToUint8Clamp(PixelLuma(s, i)))
  }

  method ConvertToGrayscale(data: array<int>)
    requires data.Length % 4 == 0
    modifies data
    ensures data[..] == Grayscaled(old(data[..]))
  {
    ghost var s := data[..];
    ghost var out := Grayscaled(s);
    var i := 0;
    ghost var k := 0;
    while i < data.Length
      invariant 0 <= i <= data.Length && i == 4 * k
      invariant forall j :: 0 <= j < data.Length ==> data[..][j] == if j < i then out[j] else s[j]
    {
      ghost var before := data[..];
      var gray := Luma(data[i], data[i + 1], data[i + 2]);
      data[i + 2] := ToUint8Clamp(gray);
      data[i + 1] := ToUint8Clamp(gray);
      data[i] := ToUint8Clamp(gray);
      GrayscaleStep(before, data[..], s, k);
      i := i + 4;
      k := k + 1;
    }
  }

  /** One pass of the loop of convertToGrayscale extends the finished prefix by pixel k. */
  lemma GrayscaleStep(before: seq<int>, after: seq<int>, s: seq<int>, k: int)
    requires |before| == |after| == |s| && |s| % 4 == 0 && 0 <= k && 4 * k + 4 <= |s|
    requires forall j :: 0 <= j < |s| ==> before[j] == if j < 4 * k then Grayscaled(s)[j] else s[j]
    requires forall j :: 0 <= j < |s| && (j < 4 * k || 4 * k + 4 <= j) ==> after[j] == before[j]
    requires var i, v := 4 * k, ToUint8Clamp(Luma(before[4 * k], before[4 * k + 1], before[4 * k + 2]));
      after[i] == v && after[i + 1] == v && after[i + 2] == v && after[i + 3] == before[i + 3]
    ensures forall j :: 0 <= j < |s| ==> after[j] == if j < 4 * k + 4 then Grayscaled(s)[j] else s[j]
  {
    var i := 4 * k;
    assert before[i] == s[i] && before[i + 1] == s[i + 1] && before[i + 2] == s[i + 2] && before[i + 3] == s[i + 3];
    GrayscaleGray(s, k);
    PixelStep(before, after, Grayscaled(s), s, i);
  }

  /** After convertToGrayscale R = G = B = ToUint8Clamp(luma), a byte, and alpha is kept. */
  lemma GrayscaleGray(s: seq<int>, k: int)
    requires |s| % 4 == 0 && 0 <= k && 4 * k + 3 < |s|
    ensures var g, p := Grayscaled(s), 4 * k;
      && g[p] == g[p + 1] == g[p + 2] == ToUint8Clamp(Luma(s[p], s[p + 1], s[p + 2]))
      && IsByte(g[p])
      && g[p + 3] == s[p + 3]
  {
    PixelOffsets(k);
  }

  /** convertToGrayscale turns a byte buffer into a byte buffer. */
  lemma GrayscaleKeepsBytes(s: seq<int>)
    requires |s| % 4 == 0 && AllBytes(s)
    ensures AllBytes(Grayscaled(s))
  {
  }

  /** A second convertToGrayscale changes nothing. */
  lemma GrayscaleIdempotent(s: seq<int>)
    requires |s| % 4 == 0
    ensures Grayscaled(Grayscaled(s)) == Grayscaled(s)
  {
    var g := Grayscaled(s);
    forall i | 0 <= i < |s| ensures Grayscaled(g)[i] == g[i] {
      GrayscaleIdempotentAtOffset(s, i);
    }
  }

  lemma GrayscaleIdempotentAtOffset(s: seq<int>, i: int)
    requires |s| % 4 == 0 && 0 <= i < |s|
    ensures Grayscaled(Grayscaled(s))[i] == Grayscaled(s)[i]
  {
    var k, c := i / 4, i % 4;
    OffsetPixel(i);
    GrayscaleIdempotentAt(s, k);
    if c == 0 {
      assert i == 4 * k;
    } else if c == 1 {
      assert i == 4 * k + 1;
    } else if c == 2 {
      assert i == 4 * k + 2;
    } else {
      assert i == 4 * k + 3;
    }
  }

  lemma GrayscaleIdempotentAt(s: seq<int>, k: int)
    requires |s| % 4 == 0 && 0 <= k && 4 * k + 3 < |s|
    ensures var g, p := Grayscaled(s), 4 * k;
      var gg := Grayscaled(g);
      gg[p] == g[p] && gg[p + 1] == g[p + 1] && gg[p + 2] == g[p + 2] && gg[p + 3] == g[p + 3]
  {
    var g := Grayscaled(s);
    GrayscaleGray(s, k);
    GrayscaleGray(g, k);
    var v := g[4 * k];
    LumaOfGray(v);
    ToUint8ClampOfByte(v);
  }
}
