/**
 * The grayscale pass `applyGrayscale` (tm_capture_page.h lines 117-130) over the
 * RGBA bytes of the 96x96 canvas: four bytes per pixel, red, green, blue, alpha.
 */
module Grayscale {

  const BytesPerPixel := 4

  /**
   * ITU-R BT.601 luma `Math.round(0.299 r + 0.587 g + 0.114 b)` computed on exact
   * rationals: round half up of (299 r + 587 g + 114 b) / 1000.
   */
  function Luma601(r: int, g: int, b: int): (y: int)
    ensures 1000 * y <= 299 * r + 587 * g + 114 * b + 500 < 1000 * (y + 1)
  {
    (299 * r + 587 * g + 114 * b + 500) / 1000
  }

  function Min3(a: int, b: int, c: int): int {
    if a <= b && a <= c then a else if b <= c then b else c
  }

  function Max3(a: int, b: int, c: int): int {
    if a >= b && a >= c then a else if b >= c then b else c
  }

  /**
   * The weights sum to one, so the gray value lies between the darkest and the
   * brightest channel; for bytes it is a byte, and the clamped array never clamps it.
   */
  lemma LumaBetweenChannels(r: int, g: int, b: int)
    ensures Min3(r, g, b) <= Luma601(r, g, b) <= Max3(r, g, b)
  {
    var lo, hi := Min3(r, g, b), Max3(r, g, b);
    var x := 299 * r + 587 * g + 114 * b;
    assert 1000 * lo <= x <= 1000 * hi;
    assert 1000 * lo <= x + 500 < 1000 * (hi + 1);
  }

  /** A pixel that is already gray keeps its value. */
  lemma LumaOfGray(y: int)
    ensures Luma601(y, y, y) == y
  {
    assert 299 * y + 587 * y + 114 * y + 500 == 1000 * y + 500;
  }

  /**
   * The bytes after the pass: every pixel's red, green and blue become
   * `luma(r, g, b)` of that pixel; its alpha stays.
   */
  function Grayscale(s: seq<int>, luma: (int, int, int) -> int): (r: seq<int>)
    requires |s| % BytesPerPixel == 0
    ensures |r| == |s|
    decreases |s|
  {
    if s == [] then []
    else
      var y := luma(s[0], s[1], s[2]);
      [y, y, y, s[3]] + Grayscale(s[4..], luma)
  }

  /** A pixel that starts inside a whole number of pixels ends inside it. */
  lemma PixelFits(i: int, n: int)
    requires 0 <= i < n && i % BytesPerPixel == 0 && n % BytesPerPixel == 0
    ensures i + 3 < n
  {
    assert i == 4 * (i / 4) && n == 4 * (n / 4);
  }

  /** What the pass does to the pixel starting at byte `i`. */
  lemma {:induction false} GrayscaleAt(s: seq<int>, luma: (int, int, int) -> int, i: nat)
    requires |s| % BytesPerPixel == 0 && i % BytesPerPixel == 0 && i + 3 < |s|
    ensures var r := Grayscale(s, luma);
      var y := luma(s[i], s[i + 1], s[i + 2]);
      r[i] == y && r[i + 1] == y && r[i + 2] == y && r[i + 3] == s[i + 3]
    decreases i
  {
    if i > 0 {
      GrayscaleAt(s[4..], luma, i - 4);
    }
  }

  /** Every pixel has equal red, green and blue. */
  predicate IsGray(s: seq<int>) {
    forall i :: 0 <= i && i + 3 < |s| && i % BytesPerPixel == 0 ==> s[i] == s[i + 1] == s[i + 2]
  }

  /** The alpha byte of every pixel. */
  predicate SameAlpha(s: seq<int>, t: seq<int>)
    requires |s| == |t|
  {
    forall i :: 0 <= i && i + 3 < |s| && i % BytesPerPixel == 0 ==> s[i + 3] == t[i + 3]
  }

  /** The pass leaves every pixel gray and every alpha byte as it was. */
  lemma GrayscaleIsGray(s: seq<int>, luma: (int, int, int) -> int)
    requires |s| % BytesPerPixel == 0
    ensures IsGray(Grayscale(s, luma))
    ensures SameAlpha(Grayscale(s, luma), s)
  {
    var r := Grayscale(s, luma);
    forall i | 0 <= i && i + 3 < |s| && i % BytesPerPixel == 0
      ensures r[i] == r[i + 1] == r[i + 2] && r[i + 3] == s[i + 3]
    {
      GrayscaleAt(s, luma, i);
    }
  }

  /** A luma that maps every gray pixel to its own value makes a second pass change nothing. */
  lemma {:induction false} GrayscaleIdempotentFor(s: seq<int>, luma: (int, int, int) -> int)
    requires |s| % BytesPerPixel == 0
    requires forall y :: luma(y, y, y) == y
    ensures Grayscale(Grayscale(s, luma), luma) == Grayscale(s, luma)
    decreases |s|
  {
    if s != [] {
      PixelFits(0, |s|);
      var y := luma(s[0], s[1], s[2]);
      var g := Grayscale(s, luma);
      assert g == [y, y, y, s[3]] + Grayscale(s[4..], luma);
      assert g[4..] == Grayscale(s[4..], luma);
      GrayscaleIdempotentFor(s[4..], luma);
    }
  }

  /** With the BT.601 weights a second pass changes nothing. */
  lemma GrayscaleIdempotent(s: seq<int>)
    requires |s| % BytesPerPixel == 0
    ensures Grayscale(Grayscale(s, Luma601), Luma601) == Grayscale(s, Luma601)
  {
    forall y ensures Luma601(y, y, y) == y {
      LumaOfGray(y);
    }
    GrayscaleIdempotentFor(s, Luma601);
  }

  /** `applyGrayscale`: the stride-4 loop rewriting the canvas bytes in place. */
  method ApplyGrayscale(data: array<int>, luma: (int, int, int) -> int)
    requires data.Length % BytesPerPixel == 0
    modifies data
    ensures data[..] == Grayscale(old(data[..]), luma)
  {
    ghost var before := data[..];
    ghost var after := Grayscale(before, luma);
    var i := 0;
    while i < data.Length
      invariant 0 <= i <= data.Length && i % BytesPerPixel == 0
      invariant forall k :: 0 <= k < i ==> data[k] == after[k]
      invariant forall k :: i <= k < data.Length ==> data[k] == before[k]
    {
      PixelFits(i, data.Length);
      var r, g, b := data[i], data[i + 1], data[i + 2];
      var gray := luma(r, g, b);
      data[i] := gray;
      data[i + 1] := gray;
      data[i + 2] := gray;
      GrayscaleAt(before, luma, i);
      i := i + 4;
    }
  }
}
