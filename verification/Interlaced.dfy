/** Interlaced images: seven filtered pass images one after the other in the data. */
module Interlaced {
  import opened Bytes
  import opened Png
  import opened Adam7

  /** Pixel `k` of an image of `n` bytes per pixel. */
  function PixelOf(bytes: seq<byte>, n: nat, k: nat): Pixel {
    if n * k + n <= |bytes| then bytes[n * k..n * k + n] else []
  }

  function Pixels(bytes: seq<byte>, n: nat, count: nat): (r: seq<Pixel>)
    ensures |r| == count
  {
    seq(count, k requires 0 <= k < count => PixelOf(bytes, n, k))
  }

  /** The pass has pixels at all. */
  predicate HasPixels(w: dword, h: dword, p: nat)
    requires p < 7
  {
    PassWidth(w, p) != 0 && PassHeight(h, p) != 0
  }

  /** Bytes of a row of the pass. */
  function RowBytes(n: nat, w: dword, p: nat): nat
    requires p < 7
  {
    n * PassWidth(w, p)
  }

  /** Where the data of pass `p` starts. */
  function PassStart(n: nat, w: dword, h: dword, p: nat): nat
    requires p <= 7
  {
    if p == 0 then 0
    else PassStart(n, w, h, p - 1) + if HasPixels(w, h, p - 1) then LineAt(RowBytes(n, w, p - 1), PassHeight(h, p - 1)) else 0
  }

  /** The data of the pass is there and its filter types are valid. */
  ghost predicate PassOk(data: seq<byte>, n: nat, w: dword, h: dword, p: nat)
    requires p < 7
  {
    HasPixels(w, h, p) ==>
      && PassStart(n, w, h, p) <= |data|
      && var raw := data[PassStart(n, w, h, p)..];
         LineAt(RowBytes(n, w, p), PassHeight(h, p)) <= |raw| && FiltersOk(raw, RowBytes(n, w, p), PassHeight(h, p))
  }

  /** The pixels of the pass, rebuilt from its part of the data. */
  ghost function PassImage(data: seq<byte>, n: nat, w: dword, h: dword, p: nat): (r: seq<Pixel>)
    requires p < 7 && n > 0 && PassOk(data, n, w, h, p)
    ensures |r| == Area(PassWidth(w, p), PassHeight(h, p))
  {
    if HasPixels(w, h, p) then
      Pixels(Image(data[PassStart(n, w, h, p)..], RowBytes(n, w, p), n, PassHeight(h, p)), n, Area(PassWidth(w, p), PassHeight(h, p)))
    else NoArea(w, h, p); []
  }

  lemma NoArea(w: dword, h: dword, p: nat)
    requires p < 7 && !HasPixels(w, h, p)
    ensures Area(PassWidth(w, p), PassHeight(h, p)) == 0
  {
  }

  /** The pixel at column `x` and row `y` as its pass has it. */
  ghost function Decoded(data: seq<byte>, n: nat, w: dword, h: dword, x: nat, y: nat): Pixel
    requires n > 0 && forall p :: 0 <= p < 7 ==> PassOk(data, n, w, h, p)
  {
    InPass(data, n, w, h, PassOf(x, y), x, y)
  }

  ghost function InPass(data: seq<byte>, n: nat, w: dword, h: dword, p: nat, x: nat, y: nat): Pixel
    requires p < 7 && n > 0 && PassOk(data, n, w, h, p)
  {
    PixelAt(PassImage(data, n, w, h, p), Cell(PassWidth(w, p), x / XSpc(p), y / YSpc(p)))
  }

  /** The first pixel fits into a row. */
  lemma Wide(n: nat, x: nat)
    requires x >= 1
    ensures n <= n * x
  {
    MulAtLeast(n, x);
  }

  /** One pass of stbi__create_png_image: its rows are rebuilt from the data that starts at `at`. */
  method ReadPass(data: seq<byte>, n: nat, w: dword, h: dword, p: nat, at: nat) returns (ok: bool, pixels: seq<Pixel>, next: nat)
    requires p < 7 && n > 0 && at == PassStart(n, w, h, p) <= |data|
    ensures ok <==> PassOk(data, n, w, h, p)
    ensures ok ==> pixels == PassImage(data, n, w, h, p) && next == PassStart(n, w, h, p + 1) <= |data|
  {
    hide PassWidth, PassHeight, Image, LineAt, FiltersOk, Area;
    var x, y := PassWidth(w, p), PassHeight(h, p);
    ok, pixels, next := true, [], at;
    if x != 0 && y != 0 {
      Wide(n, x);
      var out;
      ok, out := CreateImage(data[at..], n * x, n, y);
      if ok {
        pixels := Pixels(out[..], n, Area(x, y));
        next := at + LineAt(n * x, y);
      }
    }
  }

  /** stbi__create_png_image for an interlaced image of one byte per sample: the passes are rebuilt and put in their places. */
  method DecodeInterlaced(data: seq<byte>, n: nat, w: dword, h: dword) returns (ok: bool, final: array<Pixel>)
    requires n > 0 && w <= MAX_SIDE && h <= MAX_SIDE
    ensures ok <==> forall p :: 0 <= p < 7 ==> PassOk(data, n, w, h, p)
    ensures ok ==> final.Length == Area(w, h) && forall x, y :: 0 <= x < w && 0 <= y < h ==>
                     PixelAt(final[..], Cell(w, x, y)) == Decoded(data, n, w, h, x, y)
  {
    hide PassOk, PassImage, PassWidth, PassHeight, Cell, Area, PixelAt, PassStart;
    var subs: seq<seq<Pixel>>, at := [], 0;
    ok := true;
    ZeroStart(n, w, h);
    for p := 0 to 7
      invariant |subs| == p && at == PassStart(n, w, h, p) <= |data|
      invariant forall q :: 0 <= q < p ==> PassOk(data, n, w, h, q) && subs[q] == PassImage(data, n, w, h, q)
    {
      var pixels;
      ok, pixels, at := ReadPass(data, n, w, h, p, at);
      if !ok {
        final := new Pixel[0](_ => []);
        return;
      }
      subs := subs + [pixels];
    }
    final := Deinterlace(subs, w, h, []);
    forall x, y | 0 <= x < w && 0 <= y < h ensures PixelAt(final[..], Cell(w, x, y)) == Decoded(data, n, w, h, x, y) {
      assert PixelAt(final[..], Cell(w, x, y)) == Source(subs, w, x, y);
    }
  }

  lemma ZeroStart(n: nat, w: dword, h: dword)
    ensures PassStart(n, w, h, 0) == 0
  {
  }

  /* ---- an image that was interlaced and filtered ---- */

  /** Pixels of `n` bytes, all rows `w` wide. */
  ghost predicate IsImage(img: seq<seq<Pixel>>, n: nat, w: nat, h: nat) {
    && |img| == h && (forall y :: 0 <= y < h ==> |img[y]| == w)
    && forall x, y :: 0 <= y < h && 0 <= x < w ==> |img[y][x]| == n
  }

  /** Row `j` of pass `p` of the image. */
  function PassRow(img: seq<seq<Pixel>>, w: dword, p: nat, j: nat): (r: seq<Pixel>)
    requires p < 7
    ensures |r| == PassWidth(w, p)
  {
    seq(PassWidth(w, p), i requires 0 <= i < PassWidth(w, p) =>
      if RowOf(p, j) < |img| && Column(p, i) < |img[RowOf(p, j)]| then img[RowOf(p, j)][Column(p, i)] else [])
  }

  /** The rows of pass `p`, as bytes. */
  function PassRows(img: seq<seq<Pixel>>, w: dword, h: dword, p: nat): (r: seq<seq<byte>>)
    requires p < 7
    ensures |r| == PassHeight(h, p)
  {
    seq(PassHeight(h, p), j requires 0 <= j < PassHeight(h, p) => Joined(PassRow(img, w, p, j)))
  }

  /** Every pass that has pixels stands in the data, its rows filtered in any way. */
  ghost predicate HoldsPasses(data: seq<byte>, n: nat, w: dword, h: dword, img: seq<seq<Pixel>>) {
    forall p :: 0 <= p < 7 && HasPixels(w, h, p) ==> HoldsPass(data, n, w, h, img, p)
  }

  ghost predicate HoldsPass(data: seq<byte>, n: nat, w: dword, h: dword, img: seq<seq<Pixel>>, p: nat)
    requires p < 7
  {
    PassStart(n, w, h, p) <= |data| && Holds(data[PassStart(n, w, h, p)..], RowBytes(n, w, p), n, PassRows(img, w, h, p))
  }

  /** Parts of equal length stand one after the other. */
  lemma {:induction false} JoinedAt(parts: seq<seq<byte>>, n: nat, k: nat)
    requires (forall i :: 0 <= i < |parts| ==> |parts[i]| == n) && k < |parts|
    ensures |Joined(parts)| == n * |parts| && n * k + n <= |Joined(parts)| && Joined(parts)[n * k..n * k + n] == parts[k]
  {
    hide Joined;
    var m := |parts| - 1;
    var head := parts[..m];
    JoinedLength(head, n);
    JoinedMore(parts, n);
    if k < m {
      JoinedAt(head, n, k);
    }
    AppendedAt(Joined(head), parts[m], n * k, n);
  }

  lemma JoinedMore(parts: seq<seq<byte>>, n: nat)
    requires parts != []
    ensures Joined(parts) == Joined(parts[..|parts| - 1]) + parts[|parts| - 1] && n * |parts| == n * (|parts| - 1) + n
  {
  }

  /** A piece that ends before the appended bytes is the same, and they are the piece after them. */
  lemma AppendedAt(s: seq<byte>, t: seq<byte>, o: nat, n: nat)
    requires |t| == n
    ensures o + n <= |s| ==> (s + t)[o..o + n] == s[o..o + n]
    ensures o == |s| ==> (s + t)[o..o + n] == t
  {
  }

  lemma {:induction false} JoinedLength(parts: seq<seq<byte>>, n: nat)
    requires forall i :: 0 <= i < |parts| ==> |parts[i]| == n
    ensures |Joined(parts)| == n * |parts|
  {
    if parts != [] {
      JoinedLength(parts[..|parts| - 1], n);
      assert n * |parts| == n * (|parts| - 1) + n;
    }
  }

  /** A pass row has pixels of the image only. */
  lemma RowOfImage(img: seq<seq<Pixel>>, n: nat, w: dword, h: dword, p: nat, j: nat)
    requires IsImage(img, n, w, h) && w <= MAX_SIDE && h <= MAX_SIDE && p < 7 && j < PassHeight(h, p)
    ensures forall i :: 0 <= i < PassWidth(w, p) ==>
      && RowOf(p, j) < h && Column(p, i) < w && |PassRow(img, w, p, j)[i]| == n && PassRow(img, w, p, j)[i] == img[RowOf(p, j)][Column(p, i)]
    ensures |Joined(PassRow(img, w, p, j))| == RowBytes(n, w, p)
  {
    hide Column, RowOf, PassWidth, PassHeight;
    forall i | 0 <= i < PassWidth(w, p)
      ensures RowOf(p, j) < h && Column(p, i) < w && |PassRow(img, w, p, j)[i]| == n && PassRow(img, w, p, j)[i] == img[RowOf(p, j)][Column(p, i)]
    {
      Target(w, h, p, i, j);
    }
    JoinedLength(PassRow(img, w, p, j), n);
  }

  /** Pixel `i`, `j` of a pass is found again in its rebuilt image. */
  lemma PassPixel(data: seq<byte>, n: nat, w: dword, h: dword, img: seq<seq<Pixel>>, p: nat, i: nat, j: nat)
    requires IsImage(img, n, w, h) && w <= MAX_SIDE && h <= MAX_SIDE && n > 0 && p < 7 && i < PassWidth(w, p) && j < PassHeight(h, p)
    requires HasPixels(w, h, p) && HoldsPass(data, n, w, h, img, p)
    ensures PassOk(data, n, w, h, p) && RowOf(p, j) < h && Column(p, i) < w
    ensures PixelAt(PassImage(data, n, w, h, p), Cell(PassWidth(w, p), i, j)) == img[RowOf(p, j)][Column(p, i)]
  {
    hide Column, RowOf, PassWidth, PassHeight, Image, Holds, Cell, PassRow, PassStart, Joined, IsImage, Area, LineAt;
    var raw, x, y, b := data[PassStart(n, w, h, p)..], PassWidth(w, p), PassHeight(h, p), RowBytes(n, w, p);
    var rows := PassRows(img, w, h, p);
    PassReadable(data, n, w, h, img, p);
    ImageFound(raw, b, n, rows, y);
    assert rows[..y] == rows;
    RowOfImage(img, n, w, h, p, j);
    CellInside(x, y, i, j);
    forall k | 0 <= k < |rows| ensures |rows[k]| == b {
      RowOfImage(img, n, w, h, p, k);
    }
    JoinedAt(rows, b, j);
    JoinedAt(PassRow(img, w, p, j), n, i);
    CellStart(n, x, b, i, j);
    PieceOfRow(Joined(rows), rows[j], b * j, b, n * i, n, Cell(x, i, j));
  }

  lemma PassReadable(data: seq<byte>, n: nat, w: dword, h: dword, img: seq<seq<Pixel>>, p: nat)
    requires p < 7 && n > 0 && HasPixels(w, h, p) && HoldsPass(data, n, w, h, img, p)
    ensures PassOk(data, n, w, h, p) && LineAt(RowBytes(n, w, p), PassHeight(h, p)) <= |data[PassStart(n, w, h, p)..]|
  {
    hide PassWidth, PassHeight, PassRow, PassStart, Joined, LineAt, Filtered;
    var raw, b := data[PassStart(n, w, h, p)..], RowBytes(n, w, p);
    forall i | 0 <= i < PassHeight(h, p) ensures LineAt(b, i) < |raw| && raw[LineAt(b, i)] <= 4 {
      assert HoldsRow(raw, b, n, PassRows(img, w, h, p), i);
    }
  }

  /** The bytes of a pixel, in its row and in the whole. */
  lemma PieceOfRow(all: seq<byte>, row: seq<byte>, a: nat, m: nat, b: nat, n: nat, c: nat)
    requires a + m <= |all| && row == all[a..a + m] && b + n <= m && n * c == a + b
    ensures PixelOf(all, n, c) == row[b..b + n]
  {
    SliceOfSlice(all, a, a + m, b, b + n);
  }

  lemma CellStart(n: nat, x: nat, b: nat, i: nat, j: nat)
    requires b == n * x
    ensures n * Cell(x, i, j) == b * j + n * i
  {
    assert n * (x * j + i) == n * (x * j) + n * i;
    assert n * x * j == n * (x * j);
  }

  /** Decoding an image that was interlaced and filtered gives the image back: every pass, size and choice of filters. */
  lemma InterlacedFound(data: seq<byte>, n: nat, w: dword, h: dword, img: seq<seq<Pixel>>, x: nat, y: nat)
    requires IsImage(img, n, w, h) && w <= MAX_SIDE && h <= MAX_SIDE && n > 0 && HoldsPasses(data, n, w, h, img) && x < w && y < h
    ensures (forall p :: 0 <= p < 7 ==> PassOk(data, n, w, h, p)) && Decoded(data, n, w, h, x, y) == img[y][x]
  {
    hide Column, RowOf, PassWidth, PassHeight, HoldsPass, PassOk, PassImage, PassOf, XSpc, YSpc, IsImage, Cell, PixelAt;
    forall p | 0 <= p < 7 ensures PassOk(data, n, w, h, p) {
      if HasPixels(w, h, p) {
        assert HoldsPass(data, n, w, h, img, p);
        PassReadable(data, n, w, h, img, p);
      } else {
        NothingToRead(data, n, w, h, p);
      }
    }
    var p := PassOf(x, y);
    TargetOf(w, h, p, x, y);
    assert HasPixels(w, h, p) && HoldsPass(data, n, w, h, img, p);
    PassPixel(data, n, w, h, img, p, x / XSpc(p), y / YSpc(p));
  }

  lemma NothingToRead(data: seq<byte>, n: nat, w: dword, h: dword, p: nat)
    requires p < 7 && !HasPixels(w, h, p)
    ensures PassOk(data, n, w, h, p)
  {
  }
}
