/** Adam7 de-interlacing (section 2.6 of RFC 2083). */
module Adam7 {
  import opened Bytes

  /** The bytes of one pixel. */
  type Pixel = seq<byte>

  /** Origins and spacings of the seven passes. */
  function XOrig(p: nat): (r: nat)
    requires p < 7
    ensures r < XSpc(p)
  {
    [0, 4, 0, 2, 0, 1, 0][p]
  }

  function YOrig(p: nat): (r: nat)
    requires p < 7
    ensures r < YSpc(p)
  {
    [0, 0, 4, 0, 2, 0, 1][p]
  }

  function XSpc(p: nat): (r: nat)
    requires p < 7
    ensures r in {1, 2, 4, 8}
  {
    [8, 8, 4, 4, 2, 2, 1][p]
  }

  function YSpc(p: nat): (r: nat)
    requires p < 7
    ensures r in {1, 2, 4, 8}
  {
    [8, 8, 8, 4, 4, 2, 2][p]
  }

  /** The number of columns or rows of a pass, with the 32-bit unsigned arithmetic of the code. */
  function PassSize(n: dword, orig: nat, spc: nat): nat
    requires spc > 0
  {
    (n - orig + spc - 1) % TWO32 / spc
  }

  /** The images the decoder accepts are at most 2^24 pixels wide and high. */
  const MAX_SIDE: nat := 0x100_0000

  /** The unsigned size is right even for images smaller than the origin: it counts the positions inside. */
  lemma PassSizeCounts(n: nat, orig: nat, spc: nat, i: nat)
    requires n <= MAX_SIDE && orig < spc && spc in {1, 2, 4, 8}
    ensures i < PassSize(n, orig, spc) <==> i * spc + orig < n
  {
    var m := n - orig + spc - 1;
    DivModUnique(m, TWO32, 0, m);
  }

  /** The standard's picture of the passes: which pass, counted from 1, holds each pixel of an 8 by 8 tile. */
  function PassPicture(x: nat, y: nat): nat
    requires x < 8 && y < 8
  {
    [[1, 6, 4, 6, 2, 6, 4, 6],
     [7, 7, 7, 7, 7, 7, 7, 7],
     [5, 6, 5, 6, 5, 6, 5, 6],
     [7, 7, 7, 7, 7, 7, 7, 7],
     [3, 6, 4, 6, 3, 6, 4, 6],
     [7, 7, 7, 7, 7, 7, 7, 7],
     [5, 6, 5, 6, 5, 6, 5, 6],
     [7, 7, 7, 7, 7, 7, 7, 7]][y][x]
  }

  /** Pass `p` writes column `x` and row `y`. */
  predicate InPass(p: nat, x: nat, y: nat)
    requires p < 7
  {
    x % XSpc(p) == XOrig(p) && y % YSpc(p) == YOrig(p)
  }

  /** Every pixel belongs to exactly the pass of the picture. */
  lemma OnePass(p: nat, x: nat, y: nat)
    requires p < 7
    ensures InPass(p, x, y) <==> PassPicture(x % 8, y % 8) == p + 1
  {
    hide PassPicture, XOrig, YOrig, XSpc, YSpc;
    ModOf8(x, XSpc(p));
    ModOf8(y, YSpc(p));
    TilePass(p, x % 8, y % 8);
  }

  lemma ModOf8(x: nat, s: nat)
    requires s in {1, 2, 4, 8}
    ensures x % s == x % 8 % s
  {
    var q, r := x / 8, x % 8;
    if s == 1 {
      DivModUnique(x, 1, x, 0);
    } else if s == 2 {
      DivModUnique(x, 2, 4 * q + r / 2, r % 2);
    } else if s == 4 {
      DivModUnique(x, 4, 2 * q + r / 4, r % 4);
    }
  }

  function PictureRow(y: nat): (r: seq<nat>)
    requires y < 8
    ensures |r| == 8
  {
    if y % 2 == 1 then [7, 7, 7, 7, 7, 7, 7, 7]
    else if y % 4 == 2 then [5, 6, 5, 6, 5, 6, 5, 6]
    else if y == 4 then [3, 6, 4, 6, 3, 6, 4, 6]
    else [1, 6, 4, 6, 2, 6, 4, 6]
  }

  lemma TileRow(p: nat, y: nat)
    requires p < 7 && y < 8
    ensures forall x :: 0 <= x < 8 ==> (InPass(p, x, y) <==> PictureRow(y)[x] == p + 1)
  {
  }

  lemma TilePass(p: nat, x: nat, y: nat)
    requires p < 7 && x < 8 && y < 8
    ensures InPass(p, x, y) <==> PassPicture(x, y) == p + 1
  {
    TileRow(p, y);
    assert PassPicture(x, y) == PictureRow(y)[x];
  }

  function PassOf(x: nat, y: nat): (p: nat)
    ensures p < 7
  {
    PassPicture(x % 8, y % 8) - 1
  }

  /* ---- cells of images ---- */

  /** The index of column `x` and row `y` in an image `w` pixels wide. */
  function Cell(w: nat, x: nat, y: nat): nat {
    y * w + x
  }

  function Area(w: nat, h: nat): nat {
    w * h
  }

  lemma CellInside(w: nat, h: nat, x: nat, y: nat)
    requires x < w && y < h
    ensures Cell(w, x, y) < Area(w, h)
  {
    assert (h - 1 - y) * w >= 0;
    assert w * h == (h - 1 - y) * w + y * w + w;
  }

  lemma CellInjective(w: nat, x: nat, y: nat, x': nat, y': nat)
    requires x < w && x' < w && Cell(w, x, y) == Cell(w, x', y')
    ensures x == x' && y == y'
  {
    DivModUnique(Cell(w, x, y), w, y, x);
    DivModUnique(Cell(w, x', y'), w, y', x');
  }

  /** Widths and heights of the pass images. */
  function PassWidth(w: dword, p: nat): nat
    requires p < 7
  {
    PassSize(w, XOrig(p), XSpc(p))
  }

  function PassHeight(h: dword, p: nat): nat
    requires p < 7
  {
    PassSize(h, YOrig(p), YSpc(p))
  }

  /** Pass images of the right sizes. */
  ghost predicate PassImages(subs: seq<seq<Pixel>>, w: dword, h: dword) {
    |subs| == 7 && forall p :: 0 <= p < 7 ==> |subs[p]| == Area(PassWidth(w, p), PassHeight(h, p))
  }

  /** Column `x` and row `y` of the image stand at this column and row of their pass. */
  lemma PlaceInPass(w: nat, h: nat, p: nat, x: nat, y: nat)
    requires w <= MAX_SIDE && h <= MAX_SIDE && p < 7 && InPass(p, x, y)
    ensures x == x / XSpc(p) * XSpc(p) + XOrig(p) && y == y / YSpc(p) * YSpc(p) + YOrig(p)
    ensures x < w <==> x / XSpc(p) < PassWidth(w, p)
    ensures y < h <==> y / YSpc(p) < PassHeight(h, p)
  {
    hide XOrig, YOrig, XSpc, YSpc;
    PassSizeCounts(w, XOrig(p), XSpc(p), x / XSpc(p));
    PassSizeCounts(h, YOrig(p), YSpc(p), y / YSpc(p));
  }

  function PixelAt(image: seq<Pixel>, k: int): Pixel {
    if 0 <= k < |image| then image[k] else []
  }

  /** The pixel of the pass images that belongs at column `x` and row `y`. */
  function Source(subs: seq<seq<Pixel>>, w: dword, x: nat, y: nat): Pixel
    requires |subs| == 7
  {
    var p := PassOf(x, y);
    PixelAt(subs[p], Cell(PassWidth(w, p), x / XSpc(p), y / YSpc(p)))
  }

  /* ---- the loops ---- */

  /** Pixel `x`, `y` comes before column `i`, row `j` of pass `p` in the order of the loops. */
  predicate Before(x: nat, y: nat, p: nat, i: nat, j: nat) {
    var q := PassOf(x, y);
    q < p || (q == p && (y / YSpc(q) < j || (y / YSpc(q) == j && x / XSpc(q) < i)))
  }

  /** Pixel `x`, `y` is written, from the right place, if it comes before; it is still blank if not. */
  ghost predicate ScatteredAt(final: seq<Pixel>, blank: Pixel, subs: seq<seq<Pixel>>, w: dword, p: nat, i: nat, j: nat, x: nat, y: nat)
    requires |subs| == 7
  {
    PixelAt(final, Cell(w, x, y)) == if Before(x, y, p, i, j) then Source(subs, w, x, y) else blank
  }

  ghost predicate Sizes(final: seq<Pixel>, subs: seq<seq<Pixel>>, w: dword, h: dword) {
    PassImages(subs, w, h) && w <= MAX_SIDE && h <= MAX_SIDE && |final| == Area(w, h)
  }

  ghost predicate Scattered(final: seq<Pixel>, blank: Pixel, subs: seq<seq<Pixel>>, w: dword, h: dword, p: nat, i: nat, j: nat) {
    && Sizes(final, subs, w, h)
    && forall x, y :: 0 <= x < w && 0 <= y < h ==> ScatteredAt(final, blank, subs, w, p, i, j, x, y)
  }

  /** The column and row that column `i`, row `j` of pass `p` goes to. */
  function Column(p: nat, i: nat): nat
    requires p < 7
  {
    i * XSpc(p) + XOrig(p)
  }

  function RowOf(p: nat, j: nat): nat
    requires p < 7
  {
    j * YSpc(p) + YOrig(p)
  }

  /** The place a pass pixel goes to: inside the image, in its pass, and it leads back. */
  lemma Target(w: nat, h: nat, p: nat, i: nat, j: nat)
    requires w <= MAX_SIDE && h <= MAX_SIDE && p < 7 && i < PassWidth(w, p) && j < PassHeight(h, p)
    ensures Column(p, i) < w && RowOf(p, j) < h && PassOf(Column(p, i), RowOf(p, j)) == p
    ensures Column(p, i) / XSpc(p) == i && RowOf(p, j) / YSpc(p) == j
  {
    hide XOrig, YOrig, XSpc, YSpc, PassPicture, PassSize;
    Spread(w, XOrig(p), XSpc(p), i);
    Spread(h, YOrig(p), YSpc(p), j);
    OnePass(p, Column(p, i), RowOf(p, j));
  }

  lemma Spread(n: nat, orig: nat, spc: nat, i: nat)
    requires n <= MAX_SIDE && orig < spc && spc in {1, 2, 4, 8} && i < PassSize(n, orig, spc)
    ensures i * spc + orig < n && (i * spc + orig) / spc == i && (i * spc + orig) % spc == orig
  {
    PassSizeCounts(n, orig, spc, i);
    DivModUnique(i * spc + orig, spc, i, orig);
  }

  /** Any pixel of a pass is the target of its place in the pass. */
  lemma TargetOf(w: nat, h: nat, p: nat, x: nat, y: nat)
    requires w <= MAX_SIDE && h <= MAX_SIDE && x < w && y < h && PassOf(x, y) == p
    ensures x == Column(p, x / XSpc(p)) && y == RowOf(p, y / YSpc(p))
    ensures x / XSpc(p) < PassWidth(w, p) && y / YSpc(p) < PassHeight(h, p)
  {
    hide XOrig, YOrig, XSpc, YSpc, PassPicture, PassSize;
    OnePass(p, x, y);
    PlaceInPass(w, h, p, x, y);
  }

  lemma ScatterStep(final: seq<Pixel>, blank: Pixel, subs: seq<seq<Pixel>>, w: dword, h: dword, p: nat, i: nat, j: nat)
    requires Scattered(final, blank, subs, w, h, p, i, j) && p < 7 && i < PassWidth(w, p) && j < PassHeight(h, p)
    ensures var c, d := Cell(w, Column(p, i), RowOf(p, j)), Cell(PassWidth(w, p), i, j);
            && c < |final| && d < |subs[p]| && final[c] == blank
            && Scattered(final[c := subs[p][d]], blank, subs, w, h, p, i + 1, j)
  {
    hide XSpc, YSpc, XOrig, YOrig, PassOf, PassSize, Cell, Column, RowOf;
    var c, d := Cell(w, Column(p, i), RowOf(p, j)), Cell(PassWidth(w, p), i, j);
    Target(w, h, p, i, j);
    CellInside(w, h, Column(p, i), RowOf(p, j));
    CellInside(PassWidth(w, p), PassHeight(h, p), i, j);
    assert ScatteredAt(final, blank, subs, w, p, i, j, Column(p, i), RowOf(p, j));
    var after, i' := final[c := subs[p][d]], i + 1;
    forall x, y | 0 <= x < w && 0 <= y < h ensures ScatteredAt(after, blank, subs, w, p, i', j, x, y) {
      assert ScatteredAt(final, blank, subs, w, p, i, j, x, y);
      CellInside(w, h, x, y);
      if Cell(w, x, y) == c {
        CellInjective(w, x, y, Column(p, i), RowOf(p, j));
      } else if PassOf(x, y) == p {
        TargetOf(w, h, p, x, y);
      }
    }
  }

  /** At the end of a row of a pass the next row starts; at the end of a pass, the next pass. */
  lemma ScatterEnd(final: seq<Pixel>, blank: Pixel, subs: seq<seq<Pixel>>, w: dword, h: dword, p: nat, i: nat, j: nat, q: nat, k: nat)
    requires Scattered(final, blank, subs, w, h, p, i, j) && p < 7
    requires (q == p && k == j + 1 && i == PassWidth(w, p))
             || (q == p + 1 && k == 0 && i == 0 && (j == PassHeight(h, p) || (j == 0 && PassWidth(w, p) == 0)))
    ensures Scattered(final, blank, subs, w, h, q, 0, k)
  {
    hide XSpc, YSpc, XOrig, YOrig, PassOf, PassSize, Cell, Column, RowOf;
    forall x, y | 0 <= x < w && 0 <= y < h ensures ScatteredAt(final, blank, subs, w, q, 0, k, x, y) {
      assert ScatteredAt(final, blank, subs, w, p, i, j, x, y);
      if PassOf(x, y) == p {
        TargetOf(w, h, p, x, y);
      }
    }
  }

  /** The copying loops of one pass. */
  method ScatterPass(final: array<Pixel>, subs: seq<seq<Pixel>>, w: dword, h: dword, p: nat, ghost blank: Pixel)
    requires p < 7 && Scattered(final[..], blank, subs, w, h, p, 0, 0)
    modifies final
    ensures Scattered(final[..], blank, subs, w, h, p + 1, 0, 0)
  {
    hide XSpc, YSpc, XOrig, YOrig, PassWidth, PassHeight, Cell, Scattered, Column, RowOf;
    SevenImages(final[..], blank, subs, w, h, p);
    var x, y := PassWidth(w, p), PassHeight(h, p);
    if x != 0 && y != 0 {
      for j := 0 to y
        invariant Scattered(final[..], blank, subs, w, h, p, 0, j)
      {
        for i := 0 to x
          invariant Scattered(final[..], blank, subs, w, h, p, i, j)
        {
          ScatterStep(final[..], blank, subs, w, h, p, i, j);
          final[Cell(w, Column(p, i), RowOf(p, j))] := subs[p][Cell(x, i, j)];
        }
        ScatterEnd(final[..], blank, subs, w, h, p, x, j, p, j + 1);
      }
      ScatterEnd(final[..], blank, subs, w, h, p, 0, y, p + 1, 0);
    } else {
      ScatterEnd(final[..], blank, subs, w, h, p, 0, 0, p + 1, 0);
    }
  }

  /** The de-interlacing part of stbi__create_png_image: every pixel is written once, from its place in its pass. */
  method Deinterlace(subs: seq<seq<Pixel>>, w: dword, h: dword, blank: Pixel) returns (final: array<Pixel>)
    requires PassImages(subs, w, h) && w <= MAX_SIDE && h <= MAX_SIDE
    ensures final.Length == Area(w, h)
    ensures forall x, y :: 0 <= x < w && 0 <= y < h ==> PixelAt(final[..], Cell(w, x, y)) == Source(subs, w, x, y)
  {
    hide Area, Cell, Source, Scattered, PassImages, PixelAt;
    final := NewImage(Area(w, h), blank);
    Blank(final[..], blank, subs, w, h);
    for p := 0 to 7
      invariant Scattered(final[..], blank, subs, w, h, p, 0, 0)
    {
      ScatterPass(final, subs, w, h, p, blank);
    }
    AllScattered(final[..], blank, subs, w, h);
  }

  method NewImage(size: nat, blank: Pixel) returns (image: array<Pixel>)
    ensures fresh(image) && image.Length == size && forall k :: 0 <= k < size ==> image[k] == blank
  {
    image := new Pixel[size](_ => blank);
  }

  lemma AllScattered(final: seq<Pixel>, blank: Pixel, subs: seq<seq<Pixel>>, w: dword, h: dword)
    requires Scattered(final, blank, subs, w, h, 7, 0, 0)
    ensures |subs| == 7 && |final| == Area(w, h)
    ensures forall x, y :: 0 <= x < w && 0 <= y < h ==> PixelAt(final, Cell(w, x, y)) == Source(subs, w, x, y)
  {
    hide Cell, Source, PixelAt;
    forall x, y | 0 <= x < w && 0 <= y < h ensures PixelAt(final, Cell(w, x, y)) == Source(subs, w, x, y) {
      assert ScatteredAt(final, blank, subs, w, 7, 0, 0, x, y);
    }
  }

  lemma SevenImages(final: seq<Pixel>, blank: Pixel, subs: seq<seq<Pixel>>, w: dword, h: dword, p: nat)
    requires Scattered(final, blank, subs, w, h, p, 0, 0)
    ensures |subs| == 7
  {
  }

  lemma Blank(final: seq<Pixel>, blank: Pixel, subs: seq<seq<Pixel>>, w: dword, h: dword)
    requires Sizes(final, subs, w, h) && forall k :: 0 <= k < |final| ==> final[k] == blank
    ensures Scattered(final, blank, subs, w, h, 0, 0, 0)
  {
    hide Cell;
    forall x, y | 0 <= x < w && 0 <= y < h ensures ScatteredAt(final, blank, subs, w, 0, 0, 0, x, y) {
      CellInside(w, h, x, y);
    }
  }
}
