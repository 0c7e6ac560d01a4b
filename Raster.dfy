/**
 * The layout of an RGBA pixel buffer: `width * height` pixels in row-major
 * order, four channel bytes per pixel (red, green, blue, alpha), so that
 * channel `c` of pixel `(x, y)` sits at offset `(y * width + x) * 4 + c`.
 */
module Raster {
  import opened Numeric

  /** A buffer of the right length whose every element is a byte. */
  ghost predicate IsBuffer(s: seq<int>, width: nat, height: nat) {
    |s| == width * height * 4 && AllBytes(s)
  }

  ghost predicate AllBytes(s: seq<int>) {
    forall i :: 0 <= i < |s| ==> IsByte(s[i])
  }

  /** Offset of the red byte of pixel (x, y): `(y * width + x) * 4`. */
  function PixelIndex(width: int, x: int, y: int): int {
    (y * width + x) * 4
  }

  /** Channel (0 red, 1 green, 2 blue, 3 alpha) of buffer offset i. */
  function Chan(i: nat): nat {
    i % 4
  }

  /** Column of the pixel buffer offset i belongs to. */
  function Col(width: nat, i: nat): nat
    requires width > 0
  {
    (i / 4) % width
  }

  /** Row of the pixel buffer offset i belongs to. */
  function Row(width: nat, i: nat): nat
    requires width > 0
  {
    (i / 4) / width
  }

  /** Offset i belongs to a pixel that comes before pixel (x, y) in row-major order. */
  predicate Before(width: nat, i: nat, x: int, y: int)
    requires width > 0
  {
    Row(width, i) < y || (Row(width, i) == y && Col(width, i) < x)
  }

  lemma {:induction false} MulGap(m: int, n: int, d: int)
    requires m > n && d > 0
    ensures m * d >= n * d + d
    decreases m - n
  {
    if m > n + 1 {
      MulGap(m - 1, n, d);
      assert m * d == (m - 1) * d + d;
    } else {
      assert m * d == n * d + d;
    }
  }

  lemma DivModUnique(a: int, d: int, q: int, r: int)
    requires d > 0 && 0 <= r < d && a == q * d + r
    ensures a / d == q && a % d == r
  {
    var q', r' := a / d, a % d;
    assert a == q' * d + r';
    if q' > q {
      MulGap(q', q, d);
    } else if q' < q {
      MulGap(q, q', d);
    }
  }

  lemma PixelInRange(width: nat, height: nat, x: int, y: int)
    requires 0 <= x < width && 0 <= y < height
    ensures 0 <= y * width + x < width * height
  {
    assert y * width <= (height - 1) * width == height * width - width;
  }

  /** Channel c of pixel (x, y) lies in the buffer, and its offset decodes back to (x, y, c). */
  lemma Decompose(width: nat, height: nat, x: int, y: int, c: int)
    requires 0 <= x < width && 0 <= y < height && 0 <= c < 4
    ensures 0 <= PixelIndex(width, x, y) + c < width * height * 4
    ensures Chan(PixelIndex(width, x, y) + c) == c
    ensures Col(width, PixelIndex(width, x, y) + c) == x
    ensures Row(width, PixelIndex(width, x, y) + c) == y
  {
    var p := y * width + x;
    var i := PixelIndex(width, x, y) + c;
    assert i == p * 4 + c;
    PixelInRange(width, height, x, y);
    DivModUnique(i, 4, p, c);
    assert i / 4 == p;
    DivModUnique(p, width, y, x);
  }

  /** Every buffer offset is channel Chan(i) of pixel (Col(i), Row(i)). */
  lemma Coords(width: nat, height: nat, i: nat)
    requires width > 0 && i < width * height * 4
    ensures Col(width, i) < width && Row(width, i) < height
    ensures i == PixelIndex(width, Col(width, i), Row(width, i)) + Chan(i)
  {
    var p := i / 4;
    assert i == p * 4 + i % 4;
    assert p < width * height;
    assert p == (p / width) * width + p % width;
    if p / width >= height {
      assert (p / width) * width >= height * width;
    }
  }

  /** Advancing the row-major cursor by one pixel adds exactly the four bytes of that pixel. */
  lemma BeforeStep(width: nat, height: nat, x: int, y: int, i: nat)
    requires 0 <= x < width && 0 <= y < height && i < width * height * 4
    ensures Before(width, i, x + 1, y) <==>
              Before(width, i, x, y) || PixelIndex(width, x, y) <= i < PixelIndex(width, x, y) + 4
  {
    Coords(width, height, i);
    if PixelIndex(width, x, y) <= i < PixelIndex(width, x, y) + 4 {
      Decompose(width, height, x, y, i - PixelIndex(width, x, y));
    }
  }

  /** A width x height buffer holds whole pixels, width * height of them. */
  lemma BufferLength(s: seq<int>, width: nat, height: nat)
    requires |s| == width * height * 4
    ensures |s| % 4 == 0 && |s| / 4 == width * height
  {
  }

  /** Channel c of pixel (x, y) lies in the buffer. */
  lemma PixelBounds(width: nat, height: nat, x: int, y: int, c: int)
    requires 0 <= x < width && 0 <= y < height && 0 <= c < 4
    ensures 0 <= PixelIndex(width, x, y) + c < width * height * 4
  {
    PixelInRange(width, height, x, y);
  }

  /** Channel c of pixel (x, y). */
  function Sample(s: seq<int>, width: nat, height: nat, x: int, y: int, c: int): int
    requires |s| == width * height * 4
    requires 0 <= x < width && 0 <= y < height && 0 <= c < 4
  {
    PixelBounds(width, height, x, y, c);
    s[PixelIndex(width, x, y) + c]
  }

  /** Every pixel of the buffer has colour `rgba`. */
  ghost predicate Uniform(s: seq<int>, rgba: seq<int>)
    requires |rgba| == 4
  {
    forall i :: 0 <= i < |s| ==> s[i] == rgba[i % 4]
  }

  lemma UniformSample(s: seq<int>, width: nat, height: nat, rgba: seq<int>, x: int, y: int, c: int)
    requires |s| == width * height * 4 && |rgba| == 4 && Uniform(s, rgba)
    requires 0 <= x < width && 0 <= y < height && 0 <= c < 4
    ensures Sample(s, width, height, x, y, c) == rgba[c]
  {
    Decompose(width, height, x, y, c);
  }
  /**
   * One step of a loop that rewrites the image one pixel at a time in row-major
   * order: once the colour bytes of pixel (x, y) hold their final values, its
   * alpha byte and every other byte are untouched, and `out` keeps that alpha,
   * the finished part has grown by pixel (x, y).
   */
  lemma PixelDone(before: seq<int>, after: seq<int>, out: seq<int>, s: seq<int>, width: nat, height: nat, x: int, y: int)
    requires |before| == |after| == |out| == |s| == width * height * 4
    requires 0 <= x < width && 0 <= y < height
    requires forall j :: 0 <= j < |s| ==> before[j] == if Before(width, j, x, y) then out[j] else s[j]
    requires forall j :: 0 <= j < |s| && (j < PixelIndex(width, x, y) || PixelIndex(width, x, y) + 4 <= j) ==>
               after[j] == before[j]
    requires var p := PixelIndex(width, x, y);
      0 <= p && p + 3 < |s| &&
      after[p] == out[p] && after[p + 1] == out[p + 1] && after[p + 2] == out[p + 2] &&
      after[p + 3] == before[p + 3] && out[p + 3] == s[p + 3]
    ensures forall j :: 0 <= j < |s| ==> after[j] == if Before(width, j, x + 1, y) then out[j] else s[j]
  {
    var p := PixelIndex(width, x, y);
    forall j | 0 <= j < |s| ensures after[j] == if Before(width, j, x + 1, y) then out[j] else s[j] {
      BeforeStep(width, height, x, y, j);
      if p <= j < p + 4 {
        Decompose(width, height, x, y, j - p);
        assert !Before(width, j, x, y);
        assert j == p || j == p + 1 || j == p + 2 || j == p + 3;
      }
    }
  }

  /** A row that is finished up to its last column is the same as all rows above the next one. */
  lemma RowDone(cur: seq<int>, out: seq<int>, s: seq<int>, width: nat, height: nat, y: int)
    requires |cur| == |out| == |s| == width * height * 4 && width > 0
    requires forall j :: 0 <= j < |s| ==> cur[j] == if Before(width, j, width, y) then out[j] else s[j]
    ensures forall j :: 0 <= j < |s| ==> cur[j] == if Before(width, j, 0, y + 1) then out[j] else s[j]
  {
    forall j | 0 <= j < |s| ensures cur[j] == if Before(width, j, 0, y + 1) then out[j] else s[j] {
      Coords(width, height, j);
    }
  }

  /** Once every row is finished, the buffer is the result. */
  lemma AllDone(cur: seq<int>, out: seq<int>, s: seq<int>, width: nat, height: nat)
    requires |cur| == |out| == |s| == width * height * 4 && width > 0
    requires forall j :: 0 <= j < |s| ==> cur[j] == if Before(width, j, 0, height) then out[j] else s[j]
    ensures cur == out
  {
    forall j | 0 <= j < |s| ensures cur[j] == out[j] {
      Coords(width, height, j);
    }
  }
  // ------------------------------------------------ loops over interior pixels

  /** Pixel (x, y) is not on the outermost ring: the 3x3 kernels read only inside the image there. */
  predicate Interior(width: int, height: int, x: int, y: int) {
    1 <= x < width - 1 && 1 <= y < height - 1
  }

  /** Offset j belongs to an interior pixel that comes before (x, y) in row-major order. */
  predicate InteriorBefore(width: nat, height: nat, j: nat, x: int, y: int)
    requires width > 0
  {
    Before(width, j, x, y) && Interior(width, height, Col(width, j), Row(width, j))
  }

  /** The interior-pixel version of PixelDone, for a loop that visits only interior pixels. */
  lemma InteriorPixelDone(before: seq<int>, after: seq<int>, out: seq<int>, s: seq<int>, width: nat, height: nat, x: int, y: int)
    requires |before| == |after| == |out| == |s| == width * height * 4
    requires Interior(width, height, x, y)
    requires forall j :: 0 <= j < |s| ==> before[j] == if InteriorBefore(width, height, j, x, y) then out[j] else s[j]
    requires forall j :: 0 <= j < |s| && (j < PixelIndex(width, x, y) || PixelIndex(width, x, y) + 4 <= j) ==>
               after[j] == before[j]
    requires var p := PixelIndex(width, x, y);
      0 <= p && p + 3 < |s| &&
      after[p] == out[p] && after[p + 1] == out[p + 1] && after[p + 2] == out[p + 2] &&
      after[p + 3] == before[p + 3] && out[p + 3] == s[p + 3]
    ensures forall j :: 0 <= j < |s| ==> after[j] == if InteriorBefore(width, height, j, x + 1, y) then out[j] else s[j]
  {
    var p := PixelIndex(width, x, y);
    forall j | 0 <= j < |s| ensures after[j] == if InteriorBefore(width, height, j, x + 1, y) then out[j] else s[j] {
      BeforeStep(width, height, x, y, j);
      if p <= j < p + 4 {
        Decompose(width, height, x, y, j - p);
        assert !Before(width, j, x, y);
        assert j == p || j == p + 1 || j == p + 2 || j == p + 3;
      }
    }
  }

  /** Column 0 is on the border: starting a row at column 1 finishes nothing new. */
  lemma InteriorRowStart(cur: seq<int>, out: seq<int>, s: seq<int>, width: nat, height: nat, y: int)
    requires |cur| == |out| == |s| == width * height * 4 && width > 0
    requires forall j :: 0 <= j < |s| ==> cur[j] == if InteriorBefore(width, height, j, 0, y) then out[j] else s[j]
    ensures forall j :: 0 <= j < |s| ==> cur[j] == if InteriorBefore(width, height, j, 1, y) then out[j] else s[j]
  {
  }

  /** The columns from x on are on the border once x >= width - 1: the row is finished. */
  lemma InteriorRowEnd(cur: seq<int>, out: seq<int>, s: seq<int>, width: nat, height: nat, x: int, y: int)
    requires |cur| == |out| == |s| == width * height * 4 && width > 0 && x >= width - 1
    requires forall j :: 0 <= j < |s| ==> cur[j] == if InteriorBefore(width, height, j, x, y) then out[j] else s[j]
    ensures forall j :: 0 <= j < |s| ==> cur[j] == if InteriorBefore(width, height, j, 0, y + 1) then out[j] else s[j]
  {
    forall j | 0 <= j < |s| ensures cur[j] == if InteriorBefore(width, height, j, 0, y + 1) then out[j] else s[j] {
      Coords(width, height, j);
    }
  }

  /**
   * The rows from y on are on the border once y >= height - 1, and `out` keeps
   * every border byte: every interior pixel is finished and the buffer is the result.
   */
  lemma InteriorAllDone(cur: seq<int>, out: seq<int>, s: seq<int>, width: nat, height: nat, y: int)
    requires |cur| == |out| == |s| == width * height * 4 && width > 0 && y >= height - 1
    requires forall j :: 0 <= j < |s| && !Interior(width, height, Col(width, j), Row(width, j)) ==> out[j] == s[j]
    requires forall j :: 0 <= j < |s| ==> cur[j] == if InteriorBefore(width, height, j, 0, y) then out[j] else s[j]
    ensures cur == out
  {
    forall j | 0 <= j < |s| ensures cur[j] == out[j] {
      Coords(width, height, j);
    }
  }
}
