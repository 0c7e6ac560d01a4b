/**
 * getImageStats and generateHistogram: per-channel averages and the luma
 * histogram of an RGBA buffer, and the memory figure shown beside them.
 */
module Statistics {
  import opened Numeric
  import opened Raster

  // ------------------------------------------------------------------ totals

  /** Sum of channel c over the first n pixels. */
  function ChannelTotal(s: seq<int>, c: int, n: nat): int
    requires 0 <= c < 4 && 4 * n <= |s|
  {
    if n == 0 then 0 else ChannelTotal(s, c, n - 1) + s[4 * (n - 1) + c]
  }

  /** `Math.round(total / pixelCount)`. */
  function Average(total: int, pixelCount: nat): int
    requires pixelCount > 0
  {
    JsRound(total as real / pixelCount as real)
  }

  // ------------------------------------------------------------ memory figure

  /** The character of decimal digit d, which reads back as d. */
  function DigitChar(d: int): (ch: char)
    requires 0 <= d < 10
    ensures IsDigit(ch) && ch as int - '0' as int == d
  {
    "0123456789"[d]
  }

  predicate IsDigit(ch: char) {
    '0' <= ch <= '9'
  }

  /** The decimal digits of n, without leading zeros. */
  function NatToString(n: nat): (r: string)
    ensures |r| >= 1 && forall i :: 0 <= i < |r| ==> IsDigit(r[i])
    decreases n
  {
    if n < 10 then [DigitChar(n)] else NatToString(n / 10) + [DigitChar(n % 10)]
  }

  /** The number a string of decimal digits denotes. */
  function ParseDigits(s: string): int
    requires forall i :: 0 <= i < |s| ==> IsDigit(s[i])
  {
    if |s| == 0 then 0 else ParseDigits(s[..|s| - 1]) * 10 + (s[|s| - 1] as int - '0' as int)
  }

  /** Reading back the digits of n gives n. */
  lemma {:induction false} NatToStringRoundTrip(n: nat)
    ensures ParseDigits(NatToString(n)) == n
    decreases n
  {
    if n >= 10 {
      NatToStringRoundTrip(n / 10);
      var r := NatToString(n);
      assert r[..|r| - 1] == NatToString(n / 10);
    }
  }

  /**
   * `(totalBytes / (1024 * 1024)).toFixed(2)` in hundredths: the integer n for
   * which n / 100 is closest to the number of mebibytes, the larger on a tie.
   */
  function MemoryHundredths(totalBytes: nat): (n: int)
    ensures n >= 0
  {
    JsRound(totalBytes as real * 100.0 / 1048576.0)
  }

  /** `${memoryMB} MB`: whole mebibytes, a point, two decimals, and the unit. */
  function MemoryUsage(totalBytes: nat): string {
    var n := MemoryHundredths(totalBytes);
    NatToString(n / 100) + "." + [DigitChar((n % 100) / 10), DigitChar(n % 10)] + " MB"
  }

  /** Two digit characters read back as the two-digit number they spell. */
  lemma TwoDigits(a: int, b: int)
    requires 0 <= a < 10 && 0 <= b < 10
    ensures ParseDigits([DigitChar(a), DigitChar(b)]) == 10 * a + b
  {
    var s := [DigitChar(a), DigitChar(b)];
    assert s[..1] == [DigitChar(a)] && [DigitChar(a)][..0] == [];
    assert ParseDigits([DigitChar(a)]) == a;
    assert ParseDigits(s) == ParseDigits(s[..1]) * 10 + b;
  }

  /**
   * The figure shown is within half a hundredth of the exact size in
   * mebibytes. The string is the whole-MB digits, a point, two decimals and
   * " MB", and its digits read back as the figure in hundredths.
   */
  lemma MemoryUsageValue(totalBytes: nat)
    ensures var n, mb := MemoryHundredths(totalBytes), totalBytes as real / 1048576.0;
      && (n as real) / 100.0 - 0.005 <= mb < (n as real) / 100.0 + 0.005
      && ParseDigits(NatToString(n / 100)) * 100 + (n % 100) == n
    ensures var n, m := MemoryHundredths(totalBytes), MemoryUsage(totalBytes);
      var k := |NatToString(n / 100)|;
      && |m| == k + 6 && m[..k] == NatToString(n / 100) && m[k] == '.' && m[k + 3..] == " MB"
      && (forall i :: k + 1 <= i < k + 3 ==> IsDigit(m[i]))
      && ParseDigits(m[..k]) * 100 + ParseDigits(m[k + 1..k + 3]) == n
  {
    var n, m := MemoryHundredths(totalBytes), MemoryUsage(totalBytes);
    var whole, tens, units := NatToString(n / 100), (n % 100) / 10, n % 10;
    var k := |whole|;
    assert m == whole + "." + [DigitChar(tens), DigitChar(units)] + " MB";
    assert m[..k] == whole;
    assert m[k + 1..k + 3] == [DigitChar(tens), DigitChar(units)];
    assert m[k + 3..] == " MB";
    NatToStringRoundTrip(n / 100);
    TwoDigits(tens, units);
  }

  // ------------------------------------------------------------------ stats

  datatype ImageStats = ImageStats(
    width: int,
    height: int,
    memoryUsage: string,
    totalPixels: int,
    avgRed: int,
    avgGreen: int,
    avgBlue: int)

  /** The record getImageStats returns for a `width` x `height` buffer s. */
  function StatsOf(s: seq<int>, width: nat, height: nat): ImageStats
    requires width > 0 && height > 0 && |s| == width * height * 4
  {
    var pixelCount := |s| / 4;
    ImageStats(width, height, MemoryUsage(width * height * 4), pixelCount,
               Average(ChannelTotal(s, 0, pixelCount), pixelCount),
               Average(ChannelTotal(s, 1, pixelCount), pixelCount),
               Average(ChannelTotal(s, 2, pixelCount), pixelCount))
  }

  method GetImageStats(data: seq<int>, width: nat, height: nat) returns (stats: ImageStats)
    requires width > 0 && height > 0 && |data| == width * height * 4
    ensures stats == StatsOf(data, width, height)
  {
    var totalR, totalG, totalB := 0, 0, 0;
    var pixelCount := |data| / 4;
    var i := 0;
    ghost var k := 0;
    while i < |data|
      invariant 0 <= i <= |data| && i == 4 * k
      invariant totalR == ChannelTotal(data, 0, k)
      invariant totalG == ChannelTotal(data, 1, k)
      invariant totalB == ChannelTotal(data, 2, k)
    {
      totalR := totalR + data[i];
      totalG := totalG + data[i + 1];
      totalB := totalB + data[i + 2];
      i := i + 4;
      k := k + 1;
    }
    var bytesPerPixel := 4;
    var totalBytes := width * height * bytesPerPixel;
    stats := ImageStats(width, height, MemoryUsage(totalBytes), pixelCount,
                        Average(totalR, pixelCount), Average(totalG, pixelCount), Average(totalB, pixelCount));
  }

  /** Over n pixels whose channel c lies in [lo, hi], the total lies in [n * lo, n * hi]. */
  lemma {:induction false} ChannelTotalBounds(s: seq<int>, c: int, n: nat, lo: int, hi: int)
    requires 0 <= c < 4 && 4 * n <= |s|
    requires forall p :: 0 <= p < n ==> lo <= s[4 * p + c] <= hi
    ensures n * lo <= ChannelTotal(s, c, n) <= n * hi
  {
    if n > 0 {
      ChannelTotalBounds(s, c, n - 1, lo, hi);
      MulDistributes(n - 1, 1, lo);
      MulDistributes(n - 1, 1, hi);
    }
  }

  /** Math.round of a mean of values in [lo, hi] lies in [lo, hi]. */
  lemma AverageBetween(total: int, pixelCount: nat, lo: int, hi: int)
    requires pixelCount > 0 && pixelCount * lo <= total <= pixelCount * hi
    ensures lo <= Average(total, pixelCount) <= hi
  {
    var q := total as real / pixelCount as real;
    ProductAsReal(pixelCount, lo);
    ProductAsReal(pixelCount, hi);
    QuotientBetween(total as real, pixelCount as real, lo as real, hi as real);
    JsRoundBetween(q, lo, hi);
  }

  /** Channel c of every pixel of the buffer. */
  lemma PixelChannels(s: seq<int>, width: nat, height: nat, c: int, p: int)
    requires |s| == width * height * 4 && 0 <= c < 4 && 0 <= p < |s| / 4
    ensures 0 <= 4 * p + c < |s| && (4 * p + c) % 4 == c
  {
    DivModUnique(4 * p + c, 4, p, c);
  }

  /**
   * The stats describe the image: its dimensions, its pixel count, and
   * averages that are bytes whenever the buffer holds bytes.
   */
  lemma StatsFacts(s: seq<int>, width: nat, height: nat)
    requires width > 0 && height > 0 && |s| == width * height * 4 && AllBytes(s)
    ensures var st := StatsOf(s, width, height);
      && st.width == width && st.height == height && st.totalPixels == width * height
      && IsByte(st.avgRed) && IsByte(st.avgGreen) && IsByte(st.avgBlue)
  {
    var n := |s| / 4;
    forall c | 0 <= c < 3 ensures IsByte(Average(ChannelTotal(s, c, n), n)) {
      forall p | 0 <= p < n ensures 0 <= s[4 * p + c] <= 255 {
        PixelChannels(s, width, height, c, p);
      }
      ChannelTotalBounds(s, c, n, 0, 255);
      AverageBetween(ChannelTotal(s, c, n), n, 0, 255);
    }
  }

  /** A single-colour image averages to its own colour. */
  lemma StatsUniform(s: seq<int>, width: nat, height: nat, rgba: seq<int>)
    requires width > 0 && height > 0 && |s| == width * height * 4 && |rgba| == 4 && Uniform(s, rgba)
    ensures var st := StatsOf(s, width, height);
      st.avgRed == rgba[0] && st.avgGreen == rgba[1] && st.avgBlue == rgba[2]
  {
    var n := |s| / 4;
    forall c | 0 <= c < 3 ensures Average(ChannelTotal(s, c, n), n) == rgba[c] {
      forall p | 0 <= p < n ensures rgba[c] <= s[4 * p + c] <= rgba[c] {
        PixelChannels(s, width, height, c, p);
      }
      ChannelTotalBounds(s, c, n, rgba[c], rgba[c]);
      assert ChannelTotal(s, c, n) == n * rgba[c];
      assert (n * rgba[c]) as real / n as real == rgba[c] as real by {
        assert (n * rgba[c]) as real == rgba[c] as real * n as real;
      }
      JsRoundOfInt(rgba[c]);
    }
  }

  // -------------------------------------------------------------- histogram

  /** The histogram bucket of pixel p: `Math.round` of its luma. */
  function Bucket(s: seq<int>, p: nat): int
    requires 4 * p + 3 < |s|
  {
    JsRound(Luma(s[4 * p], s[4 * p + 1], s[4 * p + 2]))
  }

  /** A pixel of bytes falls into one of the 256 buckets. */
  lemma BucketRange(s: seq<int>, p: nat)
    requires 4 * p + 3 < |s| && AllBytes(s)
    ensures 0 <= Bucket(s, p) < 256
  {
    LumaRange(s[4 * p], s[4 * p + 1], s[4 * p + 2]);
    JsRoundBetween(Luma(s[4 * p], s[4 * p + 1], s[4 * p + 2]), 0, 255);
  }

  /** The histogram generateHistogram builds from the first n pixels. */
  function HistogramOf(s: seq<int>, n: nat): (h: seq<int>)
    requires 4 * n <= |s| && AllBytes(s)
    ensures |h| == 256
  {
    if n == 0 then seq(256, _ => 0)
    else
      var h := HistogramOf(s, n - 1);
      BucketRange(s, n - 1);
      var b := Bucket(s, n - 1);
      h[b := h[b] + 1]
  }

  /** Number of the first n pixels whose bucket is b. */
  function CountBucket(s: seq<int>, b: int, n: nat): nat
    requires 4 * n <= |s|
  {
    if n == 0 then 0 else CountBucket(s, b, n - 1) + (if Bucket(s, n - 1) == b then 1 else 0)
  }

  /** Entry b of the histogram counts exactly the pixels whose rounded luma is b. */
  lemma {:induction false} HistogramCounts(s: seq<int>, n: nat, b: int)
    requires 4 * n <= |s| && AllBytes(s) && 0 <= b < 256
    ensures HistogramOf(s, n)[b] == CountBucket(s, b, n)
  {
    if n > 0 {
      HistogramCounts(s, n - 1, b);
      BucketRange(s, n - 1);
    }
  }

  function Sum(h: seq<int>): int {
    if |h| == 0 then 0 else Sum(h[..|h| - 1]) + h[|h| - 1]
  }

  lemma {:induction false} SumZeros(n: nat)
    ensures Sum(seq(n, _ => 0)) == 0
  {
    if n > 0 {
      assert seq(n, _ => 0)[..n - 1] == seq(n - 1, _ => 0);
      SumZeros(n - 1);
    }
  }

  /** Adding one to an entry adds one to the sum. */
  lemma {:induction false} SumIncrement(h: seq<int>, b: int)
    requires 0 <= b < |h|
    ensures Sum(h[b := h[b] + 1]) == Sum(h) + 1
    decreases |h|
  {
    var h' := h[b := h[b] + 1];
    if b < |h| - 1 {
      assert h'[..|h| - 1] == h[..|h| - 1][b := h[b] + 1];
      SumIncrement(h[..|h| - 1], b);
    } else {
      assert h'[..|h| - 1] == h[..|h| - 1];
    }
  }

  /** Every pixel is counted once: the entries add up to the pixel count. */
  lemma {:induction false} HistogramTotal(s: seq<int>, n: nat)
    requires 4 * n <= |s| && AllBytes(s)
    ensures Sum(HistogramOf(s, n)) == n
  {
    if n == 0 {
      SumZeros(256);
    } else {
      HistogramTotal(s, n - 1);
      BucketRange(s, n - 1);
      SumIncrement(HistogramOf(s, n - 1), Bucket(s, n - 1));
    }
  }

  method GenerateHistogram(data: seq<int>) returns (histogram: seq<int>)
    requires |data| % 4 == 0 && AllBytes(data)
    ensures histogram == HistogramOf(data, |data| / 4)
  {
    var h := new int[256](_ => 0);
    assert h[..] == HistogramOf(data, 0);
    var i := 0;
    ghost var k := 0;
    while i < |data|
      invariant 0 <= i <= |data| && i == 4 * k
      invariant h[..] == HistogramOf(data, k)
    {
      BucketRange(data, k);
      var gray := JsRound(Luma(data[i], data[i + 1], data[i + 2]));
      h[gray] := h[gray] + 1;
      i := i + 4;
      k := k + 1;
    }
    histogram := h[..];
  }
}
