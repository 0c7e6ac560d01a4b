/**
 * applyBlur: a box blur. Every colour byte of pixel (x, y) becomes the mean of
 * that channel over the pixels of the square window (x + dx, y + dy),
 * -radius <= dx, dy <= radius, that fall inside the image, read from a copy of
 * the buffer taken before the first write. Alpha is never written.
 */
module Blur {
  import opened Numeric
  import opened Raster

  predicate InImage(width: int, height: int, nx: int, ny: int) {
    0 <= nx < width && 0 <= ny < height
  }

  /** What the window position (nx, ny) adds to the channel-c sum: its sample when it is inside the image. */
  function Term(s: seq<int>, width: nat, height: nat, nx: int, ny: int, c: int): int
    requires |s| == width * height * 4 && 0 <= c < 4
  {
    if InImage(width, height, nx, ny) then Sample(s, width, height, nx, ny, c) else 0
  }

  /** What the window position (nx, ny) adds to the count. */
  function Hit(width: int, height: int, nx: int, ny: int): int {
    if InImage(width, height, nx, ny) then 1 else 0
  }

  /** Channel-c sum over the positions (x + dx, ny), lo <= dx < end. */
  function RowSum(s: seq<int>, width: nat, height: nat, x: int, ny: int, c: int, lo: int, end: int): int
    requires |s| == width * height * 4 && 0 <= c < 4
    decreases end - lo
  {
    if end <= lo then 0 else RowSum(s, width, height, x, ny, c, lo, end - 1) + Term(s, width, height, x + end - 1, ny, c)
  }

  /** Number of the positions (x + dx, ny), lo <= dx < end, inside the image. */
  function RowCount(width: nat, height: nat, x: int, ny: int, lo: int, end: int): int
    decreases end - lo
  {
    if end <= lo then 0 else RowCount(width, height, x, ny, lo, end - 1) + Hit(width, height, x + end - 1, ny)
  }

  /** Channel-c sum over the rows y + dy, lo <= dy < end, of the window of the given radius around column x. */
  function WindowSum(s: seq<int>, width: nat, height: nat, x: int, y: int, c: int, radius: int, lo: int, end: int): int
    requires |s| == width * height * 4 && 0 <= c < 4
    decreases end - lo
  {
    if end <= lo then 0
    else WindowSum(s, width, height, x, y, c, radius, lo, end - 1) + RowSum(s, width, height, x, y + end - 1, c, -radius, radius + 1)
  }

  /** Number of in-image positions over the rows y + dy, lo <= dy < end, of the window around column x. */
  function WindowCount(width: nat, height: nat, x: int, y: int, radius: int, lo: int, end: int): int
    decreases end - lo
  {
    if end <= lo then 0
    else WindowCount(width, height, x, y, radius, lo, end - 1) + RowCount(width, height, x, y + end - 1, -radius, radius + 1)
  }

  /**
   * `sum / count` stored into a Uint8ClampedArray. With no position inside
   * the window both are 0, and 0 / 0 is NaN, which is stored as 0.
   */
  function BlurValue(sum: int, count: int): (r: int)
    ensures IsByte(r)
  {
    if count == 0 then 0 else ToUint8Clamp(sum as real / count as real)
  }

  /** What applyBlur stores at buffer offset i. */
  function BlurredAt(s: seq<int>, width: nat, height: nat, radius: int, i: nat): int
    requires width > 0 && |s| == width * height * 4 && i < |s|
  {
    Coords(width, height, i);
    var x, y, c := Col(width, i), Row(width, i), Chan(i);
    if c == 3 then s[i]
    else BlurValue(WindowSum(s, width, height, x, y, c, radius, -radius, radius + 1),
                   WindowCount(width, height, x, y, radius, -radius, radius + 1))
  }

  /** The buffer applyBlur leaves behind. */
  function Blurred(s: seq<int>, width: nat, height: nat, radius: int): seq<int>
    requires width > 0 && |s| == width * height * 4
  {
    seq(|s|, i requires 0 <= i < |s| => BlurredAt(s, width, height, radius, i))
  }

  /** The two inner loops of applyBlur: the window sums of red, green and blue, and the window count. */
  method WindowTotals(tempData: seq<int>, width: nat, height: nat, x: int, y: int, radius: int)
    returns (r: int, g: int, b: int, count: int)
    requires |tempData| == width * height * 4
    ensures r == WindowSum(tempData, width, height, x, y, 0, radius, -radius, radius + 1)
    ensures g == WindowSum(tempData, width, height, x, y, 1, radius, -radius, radius + 1)
    ensures b == WindowSum(tempData, width, height, x, y, 2, radius, -radius, radius + 1)
    ensures count == WindowCount(width, height, x, y, radius, -radius, radius + 1)
  {
    r, g, b, count := 0, 0, 0, 0;
    var dy := -radius;
    while dy <= radius
      invariant -radius <= dy && (dy <= radius + 1 || dy == -radius)
      invariant r == WindowSum(tempData, width, height, x, y, 0, radius, -radius, dy)
      invariant g == WindowSum(tempData, width, height, x, y, 1, radius, -radius, dy)
      invariant b == WindowSum(tempData, width, height, x, y, 2, radius, -radius, dy)
      invariant count == WindowCount(width, height, x, y, radius, -radius, dy)
    {
      var dx := -radius;
      while dx <= radius
        invariant -radius <= dx <= radius + 1
        invariant r == WindowSum(tempData, width, height, x, y, 0, radius, -radius, dy) + RowSum(tempData, width, height, x, y + dy, 0, -radius, dx)
        invariant g == WindowSum(tempData, width, height, x, y, 1, radius, -radius, dy) + RowSum(tempData, width, height, x, y + dy, 1, -radius, dx)
        invariant b == WindowSum(tempData, width, height, x, y, 2, radius, -radius, dy) + RowSum(tempData, width, height, x, y + dy, 2, -radius, dx)
        invariant count == WindowCount(width, height, x, y, radius, -radius, dy) + RowCount(width, height, x, y + dy, -radius, dx)
      {
        var nx := x + dx;
        var ny := y + dy;
        if nx >= 0 && nx < width && ny >= 0 && ny < height {
          var idx := (ny * width + nx) * 4;
          Decompose(width, height, nx, ny, 2);
          r := r + tempData[idx];
          g := g + tempData[idx + 1];
          b := b + tempData[idx + 2];
          count := count + 1;
        }
        dx := dx + 1;
      }
      dy := dy + 1;
    }
  }

  method ApplyBlur(data: array<int>, width: nat, height: nat, radius: int)
    requires width > 0 && height > 0 && data.Length == width * height * 4
    modifies data
    ensures data[..] == Blurred(old(data[..]), width, height, radius)
  {
    var tempData := data[..];
    ghost var out := Blurred(tempData, width, height, radius);
    var y := 0;
    while y < height
      invariant 0 <= y <= height
      invariant forall j :: 0 <= j < data.Length ==> data[..][j] == if Before(width, j, 0, y) then out[j] else tempData[j]
    {
      var x := 0;
      while x < width
        invariant 0 <= x <= width
        invariant forall j :: 0 <= j < data.Length ==> data[..][j] == if Before(width, j, x, y) then out[j] else tempData[j]
      {
        var r, g, b, count := WindowTotals(tempData, width, height, x, y, radius);
        ghost var before := data[..];
        BlurStored(tempData, width, height, radius, x, y);
        var idx := (y * width + x) * 4;
        data[idx] := BlurValue(r, count);
        data[idx + 1] := BlurValue(g, count);
        data[idx + 2] := BlurValue(b, count);
        PixelDone(before, data[..], out, tempData, width, height, x, y);
        x := x + 1;
      }
      RowDone(data[..], out, tempData, width, height, y);
      y := y + 1;
    }
    AllDone(data[..], out, tempData, width, height);
  }

  /** What the loop of applyBlur stores into pixel (x, y) is what Blurred holds there. */
  lemma BlurStored(s: seq<int>, width: nat, height: nat, radius: int, x: int, y: int)
    requires |s| == width * height * 4 && 0 <= x < width && 0 <= y < height
    ensures var t, p := Blurred(s, width, height, radius), PixelIndex(width, x, y);
      var count := WindowCount(width, height, x, y, radius, -radius, radius + 1);
      && 0 <= p && p + 3 < |s|
      && t[p] == BlurValue(WindowSum(s, width, height, x, y, 0, radius, -radius, radius + 1), count)
      && t[p + 1] == BlurValue(WindowSum(s, width, height, x, y, 1, radius, -radius, radius + 1), count)
      && t[p + 2] == BlurValue(WindowSum(s, width, height, x, y, 2, radius, -radius, radius + 1), count)
      && t[p + 3] == s[p + 3]
  {
    Decompose(width, height, x, y, 0);
    Decompose(width, height, x, y, 1);
    Decompose(width, height, x, y, 2);
    Decompose(width, height, x, y, 3);
  }
  // ---------------------------------------------------------------- the count

  /** Size of the intersection of the integer ranges [a, b) and [c, d). */
  function Overlap(a: int, b: int, c: int, d: int): int {
    var top := if b < d then b else d;
    var bottom := if a > c then a else c;
    if top > bottom then top - bottom else 0
  }

  /** Extending [a, b) by b adds one to the overlap with [c, d) exactly when b lies in [c, d). */
  lemma OverlapStep(a: int, b: int, c: int, d: int)
    requires a <= b
    ensures Overlap(a, b + 1, c, d) == Overlap(a, b, c, d) + (if c <= b < d then 1 else 0)
  {
  }

  /** A row of the window counts the columns of [x + lo, x + end) inside the image, or none when the row is outside. */
  lemma {:induction false} RowCountClosed(width: nat, height: nat, x: int, ny: int, lo: int, end: int)
    requires lo <= end
    ensures RowCount(width, height, x, ny, lo, end) == if 0 <= ny < height then Overlap(x + lo, x + end, 0, width) else 0
    decreases end - lo
  {
    if end > lo {
      RowCountClosed(width, height, x, ny, lo, end - 1);
      OverlapStep(x + lo, x + end - 1, 0, width);
    }
  }

  /** The count applyBlur divides by is the number of window positions inside the image: rows times columns. */
  lemma {:induction false} WindowCountClosed(width: nat, height: nat, x: int, y: int, radius: int, lo: int, end: int)
    requires radius >= 0 && lo <= end
    ensures WindowCount(width, height, x, y, radius, lo, end) ==
            Overlap(y + lo, y + end, 0, height) * Overlap(x - radius, x + radius + 1, 0, width)
    decreases end - lo
  {
    if end > lo {
      WindowCountClosed(width, height, x, y, radius, lo, end - 1);
      RowCountClosed(width, height, x, y + end - 1, -radius, radius + 1);
      OverlapStep(y + lo, y + end - 1, 0, height);
      MulDistributes(Overlap(y + lo, y + end - 1, 0, height), if 0 <= y + end - 1 < height then 1 else 0,
                Overlap(x - radius, x + radius + 1, 0, width));
    }
  }

  lemma PositiveProduct(a: int, b: int)
    requires a >= 1 && b >= 1
    ensures a * b >= 1
  {
    assert a * b >= 1 * b;
  }

  /** With a non-negative radius the window always holds its own centre, so the division is never by zero. */
  lemma WindowCountPositive(width: nat, height: nat, x: int, y: int, radius: int)
    requires radius >= 0 && 0 <= x < width && 0 <= y < height
    ensures WindowCount(width, height, x, y, radius, -radius, radius + 1) >= 1
  {
    WindowCountClosed(width, height, x, y, radius, -radius, radius + 1);
    var rows := Overlap(y - radius, y + radius + 1, 0, height);
    var cols := Overlap(x - radius, x + radius + 1, 0, width);
    assert rows >= 1 && cols >= 1;
    PositiveProduct(rows, cols);
  }

  // ----------------------------------------------------------------- the mean

  /** Channel c of every in-image cell (nx, ny) with xlo <= nx < xend and ylo <= ny < yend lies in [vmin, vmax]. */
  ghost predicate CellsWithin(s: seq<int>, width: nat, height: nat, c: int, xlo: int, xend: int, ylo: int, yend: int,
                              vmin: int, vmax: int)
    requires |s| == width * height * 4 && 0 <= c < 4
  {
    forall nx, ny :: xlo <= nx < xend && ylo <= ny < yend && InImage(width, height, nx, ny) ==>
      vmin <= Sample(s, width, height, nx, ny, c) <= vmax
  }

  /** Channel c lies in [vmin, vmax] over the clipped window of the given radius around (x, y). */
  ghost predicate WindowWithin(s: seq<int>, width: nat, height: nat, x: int, y: int, radius: int, c: int, vmin: int, vmax: int)
    requires |s| == width * height * 4 && 0 <= c < 4
  {
    CellsWithin(s, width, height, c, x - radius, x + radius + 1, y - radius, y + radius + 1, vmin, vmax)
  }

  lemma TermWithin(s: seq<int>, width: nat, height: nat, nx: int, ny: int, c: int, vmin: int, vmax: int)
    requires |s| == width * height * 4 && 0 <= c < 4
    requires InImage(width, height, nx, ny) ==> vmin <= Sample(s, width, height, nx, ny, c) <= vmax
    ensures vmin * Hit(width, height, nx, ny) <= Term(s, width, height, nx, ny, c) <= vmax * Hit(width, height, nx, ny)
  {
  }

  /** Sums of two parts whose averages lie in [vmin, vmax] still average within [vmin, vmax]. */
  lemma SumWithinStep(vmin: int, vmax: int, n: int, a: int, m: int, b: int)
    requires vmin * n <= a <= vmax * n && vmin * m <= b <= vmax * m
    ensures vmin * (n + m) <= a + b <= vmax * (n + m)
  {
    assert vmin * (n + m) == vmin * n + vmin * m;
    assert vmax * (n + m) == vmax * n + vmax * m;
  }

  /** A row of the window whose in-image cells lie in [vmin, vmax] sums to between vmin and vmax times its count. */
  lemma {:induction false} RowSumWithin(s: seq<int>, width: nat, height: nat, x: int, ny: int, c: int, lo: int, end: int, vmin: int, vmax: int)
    requires |s| == width * height * 4 && 0 <= c < 4
    requires CellsWithin(s, width, height, c, x + lo, x + end, ny, ny + 1, vmin, vmax)
    ensures vmin * RowCount(width, height, x, ny, lo, end) <= RowSum(s, width, height, x, ny, c, lo, end)
                                                       <= vmax * RowCount(width, height, x, ny, lo, end)
    decreases end - lo
  {
    if end > lo {
      RowSumWithin(s, width, height, x, ny, c, lo, end - 1, vmin, vmax);
      TermWithin(s, width, height, x + end - 1, ny, c, vmin, vmax);
      SumWithinStep(vmin, vmax, RowCount(width, height, x, ny, lo, end - 1), RowSum(s, width, height, x, ny, c, lo, end - 1),
                    Hit(width, height, x + end - 1, ny), Term(s, width, height, x + end - 1, ny, c));
    }
  }

  /** Rows lo <= dy < end of the window, with their in-image cells in [vmin, vmax], sum to between vmin and vmax times their count. */
  lemma {:induction false} WindowSumWithin(s: seq<int>, width: nat, height: nat, x: int, y: int, c: int, radius: int,
                                           lo: int, end: int, vmin: int, vmax: int)
    requires |s| == width * height * 4 && 0 <= c < 4
    requires CellsWithin(s, width, height, c, x - radius, x + radius + 1, y + lo, y + end, vmin, vmax)
    ensures vmin * WindowCount(width, height, x, y, radius, lo, end) <= WindowSum(s, width, height, x, y, c, radius, lo, end)
                                                                  <= vmax * WindowCount(width, height, x, y, radius, lo, end)
    decreases end - lo
  {
    if end > lo {
      WindowSumWithin(s, width, height, x, y, c, radius, lo, end - 1, vmin, vmax);
      RowSumWithin(s, width, height, x, y + end - 1, c, -radius, radius + 1, vmin, vmax);
      SumWithinStep(vmin, vmax, WindowCount(width, height, x, y, radius, lo, end - 1),
                    WindowSum(s, width, height, x, y, c, radius, lo, end - 1),
                    RowCount(width, height, x, y + end - 1, -radius, radius + 1),
                    RowSum(s, width, height, x, y + end - 1, c, -radius, radius + 1));
    }
  }

  /** A mean of values in [vmin, vmax] is stored as a byte in [vmin, vmax]. */
  lemma BlurValueWithin(sum: int, count: int, vmin: int, vmax: int)
    requires count > 0 && IsByte(vmin) && IsByte(vmax) && vmin * count <= sum <= vmax * count
    ensures vmin <= BlurValue(sum, count) <= vmax
  {
    var q := sum as real / count as real;
    QuotientBetween(sum as real, count as real, vmin as real, vmax as real);
    ToUint8ClampBetween(q, vmin, vmax);
  }

  /**
   * With a non-negative radius, each blurred colour byte lies between the
   * smallest and the largest value of that channel over the pixel's own
   * clipped window. A pixel whose whole window is black stays black.
   */
  lemma BlurWithinWindow(s: seq<int>, width: nat, height: nat, radius: int, x: int, y: int, c: int, vmin: int, vmax: int)
    requires width > 0 && |s| == width * height * 4 && radius >= 0
    requires 0 <= x < width && 0 <= y < height && 0 <= c < 3
    requires IsByte(vmin) && IsByte(vmax) && WindowWithin(s, width, height, x, y, radius, c, vmin, vmax)
    ensures vmin <= Sample(Blurred(s, width, height, radius), width, height, x, y, c) <= vmax
  {
    var sum := WindowSum(s, width, height, x, y, c, radius, -radius, radius + 1);
    var count := WindowCount(width, height, x, y, radius, -radius, radius + 1);
    WindowCountPositive(width, height, x, y, radius);
    WindowSumWithin(s, width, height, x, y, c, radius, -radius, radius + 1, vmin, vmax);
    BlurValueWithin(sum, count, vmin, vmax);
    BlurStored(s, width, height, radius, x, y);
  }

  /** Channel c of every pixel lies in [vmin, vmax]. */
  ghost predicate ChannelWithin(s: seq<int>, c: int, vmin: int, vmax: int) {
    forall i :: 0 <= i < |s| && i % 4 == c ==> vmin <= s[i] <= vmax
  }

  lemma BlurWithinAt(s: seq<int>, width: nat, height: nat, radius: int, c: int, vmin: int, vmax: int, i: int)
    requires width > 0 && |s| == width * height * 4 && radius >= 0 && 0 <= c < 3
    requires ChannelWithin(s, c, vmin, vmax) && IsByte(vmin) && IsByte(vmax)
    requires 0 <= i < |s| && i % 4 == c
    ensures vmin <= Blurred(s, width, height, radius)[i] <= vmax
  {
    Coords(width, height, i);
    var x, y := Col(width, i), Row(width, i);
    forall nx, ny | InImage(width, height, nx, ny) ensures vmin <= Sample(s, width, height, nx, ny, c) <= vmax {
      Decompose(width, height, nx, ny, c);
    }
    BlurWithinWindow(s, width, height, radius, x, y, c, vmin, vmax);
    Decompose(width, height, x, y, c);
  }

  /** Globally: blurring never takes a colour channel outside the range its values already spanned. */
  lemma BlurWithin(s: seq<int>, width: nat, height: nat, radius: int, c: int, vmin: int, vmax: int)
    requires width > 0 && |s| == width * height * 4 && radius >= 0 && 0 <= c < 3
    requires ChannelWithin(s, c, vmin, vmax) && IsByte(vmin) && IsByte(vmax)
    ensures ChannelWithin(Blurred(s, width, height, radius), c, vmin, vmax)
  {
    forall i | 0 <= i < |s| && i % 4 == c ensures vmin <= Blurred(s, width, height, radius)[i] <= vmax {
      BlurWithinAt(s, width, height, radius, c, vmin, vmax, i);
    }
  }

  /** Blurring keeps every alpha byte. */
  lemma BlurKeepsAlpha(s: seq<int>, width: nat, height: nat, radius: int)
    requires width > 0 && |s| == width * height * 4
    ensures forall i :: 0 <= i < |s| && i % 4 == 3 ==> Blurred(s, width, height, radius)[i] == s[i]
  {
  }

  /** applyBlur turns a byte buffer into a byte buffer, whatever the radius. */
  lemma BlurKeepsBytes(s: seq<int>, width: nat, height: nat, radius: int)
    requires width > 0 && |s| == width * height * 4 && AllBytes(s)
    ensures AllBytes(Blurred(s, width, height, radius))
  {
  }

  /** A single-colour image is left as it is by any non-negative radius. */
  lemma BlurUniform(s: seq<int>, width: nat, height: nat, radius: int, rgba: seq<int>)
    requires width > 0 && |s| == width * height * 4 && radius >= 0
    requires |rgba| == 4 && IsByte(rgba[0]) && IsByte(rgba[1]) && IsByte(rgba[2]) && Uniform(s, rgba)
    ensures Blurred(s, width, height, radius) == s
  {
    var t := Blurred(s, width, height, radius);
    forall i | 0 <= i < |s| ensures t[i] == s[i] {
      var c := i % 4;
      if c < 3 {
        assert ChannelWithin(s, c, rgba[c], rgba[c]);
        BlurWithinAt(s, width, height, radius, c, rgba[c], rgba[c], i);
      }
    }
  }

  /** A 1x1 image of bytes is left as it is. */
  lemma BlurSinglePixel(s: seq<int>, radius: int)
    requires |s| == 4 && AllBytes(s) && radius >= 0
    ensures Blurred(s, 1, 1, radius) == s
  {
    assert Uniform(s, s);
    BlurUniform(s, 1, 1, radius, s);
  }

  lemma BlurRadiusZeroAt(s: seq<int>, width: nat, height: nat, i: int)
    requires width > 0 && |s| == width * height * 4 && AllBytes(s) && 0 <= i < |s|
    ensures Blurred(s, width, height, 0)[i] == s[i]
  {
    Coords(width, height, i);
    var x, y, c := Col(width, i), Row(width, i), Chan(i);
    if c < 3 {
      assert WindowSum(s, width, height, x, y, c, 0, 0, 1) == s[i];
      assert WindowCount(width, height, x, y, 0, 0, 1) == 1;
      ToUint8ClampOfByte(s[i]);
    }
  }

  /** A radius of 0 averages each pixel with itself alone: the image is unchanged. */
  lemma BlurRadiusZero(s: seq<int>, width: nat, height: nat)
    requires width > 0 && |s| == width * height * 4 && AllBytes(s)
    ensures Blurred(s, width, height, 0) == s
  {
    forall i | 0 <= i < |s| ensures Blurred(s, width, height, 0)[i] == s[i] {
      BlurRadiusZeroAt(s, width, height, i);
    }
  }

  /** A negative radius leaves the window loops empty: every colour byte becomes 0 / 0, stored as 0. */
  lemma BlurNegativeRadius(s: seq<int>, width: nat, height: nat, radius: int)
    requires width > 0 && |s| == width * height * 4 && radius < 0
    ensures forall i :: 0 <= i < |s| && i % 4 != 3 ==> Blurred(s, width, height, radius)[i] == 0
  {
  }
}
