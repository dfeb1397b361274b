/** PNG scanline filters (section 6 of RFC 2083) and the decoder's two-row reconstruction loop. */
module Png {
  import opened Bytes

  /* ---- the filters ---- */

  const NONE: nat := 0
  const SUB: nat := 1
  const UP: nat := 2
  const AVG: nat := 3
  const PAETH: nat := 4
  /** The decoder's own filter for an averaged first row. */
  const AVG_FIRST: nat := 5

  function Abs(x: int): int {
    if x < 0 then -x else x
  }

  /** The predictor as section 6.6 of RFC 2083 gives it. */
  function PaethPredictor(a: int, b: int, c: int): int {
    var p := a + b - c;
    var pa, pb, pc := Abs(p - a), Abs(p - b), Abs(p - c);
    if pa <= pb && pa <= pc then a else if pb <= pc then b else c
  }

  /** stbi__paeth */
  function Paeth(a: int, b: int, c: int): int {
    var thresh := c * 3 - (a + b);
    var lo := if a < b then a else b;
    var hi := if a < b then b else a;
    var t0 := if hi <= thresh then lo else c;
    if thresh <= lo then hi else t0
  }

  /** The formulation with two comparisons is the predictor of the standard, for all integers. */
  lemma PaethEquivalent(a: int, b: int, c: int)
    ensures Paeth(a, b, c) == PaethPredictor(a, b, c)
  {
  }

  /** The prediction from the bytes to the left, above, and above left. */
  function Predict(f: nat, a: byte, b: byte, c: byte): int {
    if f == SUB then a
    else if f == UP then b
    else if f == AVG then (a + b) / 2
    else if f == PAETH then PaethPredictor(a, b, c)
    else if f == AVG_FIRST then a / 2
    else 0
  }

  /** The predictions by filter number: nothing, the byte to the left, the byte above, and the mean of both rounded down. */
  lemma PredictByNumber(a: byte, b: byte, c: byte)
    ensures Predict(0, a, b, c) == 0 && Predict(1, a, b, c) == a && Predict(2, a, b, c) == b
    ensures 2 * Predict(3, a, b, c) <= a + b <= 2 * Predict(3, a, b, c) + 1
  {
  }

  /** Filter 4 predicts the one of the three neighbours that is nearest to left plus above minus corner, in that order of preference. */
  lemma PredictNearest(a: byte, b: byte, c: byte)
    ensures var p, t := Predict(4, a, b, c), a + b - c;
            && (p == a || p == b || p == c)
            && Abs(t - p) <= Abs(t - a) && Abs(t - p) <= Abs(t - b) && Abs(t - p) <= Abs(t - c)
            && (Abs(t - a) <= Abs(t - b) && Abs(t - a) <= Abs(t - c) ==> p == a)
            && (Abs(t - b) < Abs(t - a) && Abs(t - b) <= Abs(t - c) ==> p == b)
  {
  }

  /** A sum cut to a byte. */
  function Plus(x: int, y: int): byte {
    (x + y) % 256
  }

  function Average(x: int, y: int): int {
    (x + y) / 2
  }

  /** The byte `d` places before `k`, 0 at the start of the row. */
  function Left(row: seq<byte>, k: nat, d: nat): byte {
    if d <= k < |row| + d then row[k - d] else 0
  }

  function Above(row: seq<byte>, k: nat): byte {
    if k < |row| then row[k] else 0
  }

  /** The filtered row: every byte minus its prediction, modulo 256. */
  function Filtered(f: nat, bpp: nat, row: seq<byte>, prior: seq<byte>): (r: seq<byte>)
    ensures |r| == |row|
  {
    seq(|row|, k requires 0 <= k < |row| =>
      (row[k] - Predict(f, Left(row, k, bpp), Above(prior, k), Left(prior, k, bpp))) % 256)
  }

  /** The first `n` bytes of the row that `line` was filtered from. */
  function Rebuilt(f: nat, bpp: nat, line: seq<byte>, prior: seq<byte>, n: nat): (r: seq<byte>)
    requires n <= |line| && bpp > 0
    ensures |r| == n
  {
    if n == 0 then [] else
    var r := Rebuilt(f, bpp, line, prior, n - 1);
    r + [(line[n - 1] + Predict(f, Left(r, n - 1, bpp), Above(prior, n - 1), Left(prior, n - 1, bpp))) % 256]
  }

  /** Rebuilding undoes filtering, for every filter, row, prior row and distance. */
  lemma {:induction false} RebuiltInverts(f: nat, bpp: nat, row: seq<byte>, prior: seq<byte>, n: nat)
    requires n <= |row| && bpp > 0
    ensures Rebuilt(f, bpp, Filtered(f, bpp, row, prior), prior, n) == row[..n]
  {
    hide Predict;
    if n > 0 {
      RebuiltInverts(f, bpp, row, prior, n - 1);
      var k := n - 1;
      var p := Predict(f, Left(row, k, bpp), Above(prior, k), Left(prior, k, bpp));
      assert Left(row[..k], k, bpp) == Left(row, k, bpp);
      AddBack(row[k], p);
      assert row[..n] == row[..k] + [row[k]];
    }
  }

  lemma AddBack(x: byte, p: int)
    ensures ((x - p) % 256 + p) % 256 == x
  {
    var q := (x - p) / 256;
    assert x - p == 256 * q + (x - p) % 256;
    DivModUnique((x - p) % 256 + p, 256, -q, x);
  }

  /** first_row_filter */
  function FirstRowFilter(f: nat): (r: nat)
    requires f <= 4
  {
    [NONE, SUB, NONE, AVG_FIRST, SUB][f]
  }

  predicate Zero(row: seq<byte>) {
    forall k :: 0 <= k < |row| ==> row[k] == 0
  }

  /** Above a row of zeros the substituted filter rebuilds the same row, whatever lies in the buffer above. */
  lemma {:induction false} FirstRow(f: nat, bpp: nat, line: seq<byte>, zero: seq<byte>, junk: seq<byte>, n: nat)
    requires f <= 4 && n <= |line| && bpp > 0 && Zero(zero)
    ensures Rebuilt(FirstRowFilter(f), bpp, line, junk, n) == Rebuilt(f, bpp, line, zero, n)
  {
    if n > 0 {
      FirstRow(f, bpp, line, zero, junk, n - 1);
      var a := Left(Rebuilt(f, bpp, line, zero, n - 1), n - 1, bpp);
      SamePrediction(f, a, Above(junk, n - 1), Left(junk, n - 1, bpp));
      assert Above(zero, n - 1) == 0 && Left(zero, n - 1, bpp) == 0;
    }
  }

  lemma SamePrediction(f: nat, a: byte, b: byte, c: byte)
    requires f <= 4
    ensures Predict(FirstRowFilter(f), a, b, c) == Predict(f, a, 0, 0)
  {
  }

  /* ---- the rows in the two-row buffer ---- */

  /** Two rows of `w` bytes in one buffer, at `cur` and `prior`. */
  predicate TwoRows(cur: nat, prior: nat, w: nat) {
    (cur == 0 && prior == w) || (cur == w && prior == 0)
  }

  /** A row being rebuilt: the filter, the distance, the filtered line and the row above. */
  datatype Task = Task(f: nat, bpp: nat, line: seq<byte>, above: seq<byte>) {
    ghost predicate Valid(w: nat) {
      0 < bpp <= w && |line| == w && |above| == w
    }
  }

  /** The first `k` bytes of the current row are rebuilt, and the row above is in place. */
  ghost predicate Progress(buf: seq<byte>, cur: nat, prior: nat, w: nat, t: Task, k: nat) {
    && t.Valid(w) && TwoRows(cur, prior, w) && |buf| == 2 * w && k <= w
    && buf[prior..prior + w] == t.above && buf[cur..cur + k] == Rebuilt(t.f, t.bpp, t.line, t.above, k)
  }

  /** What the loops read while byte `k` is rebuilt. */
  lemma Reads(buf: seq<byte>, cur: nat, prior: nat, w: nat, t: Task, k: nat)
    requires Progress(buf, cur, prior, w, t, k) && k < w
    ensures 0 <= cur + k < 2 * w && 0 <= prior + k < 2 * w && buf[prior + k] == Above(t.above, k)
    ensures var r := Rebuilt(t.f, t.bpp, t.line, t.above, k);
            if k >= t.bpp then buf[cur + k - t.bpp] == Left(r, k, t.bpp) && buf[prior + k - t.bpp] == Left(t.above, k, t.bpp)
            else Left(r, k, t.bpp) == 0 && Left(t.above, k, t.bpp) == 0
  {
    hide Rebuilt;
    assert t.above[k] == buf[prior..prior + w][k];
    if k >= t.bpp {
      assert buf[cur..cur + k][k - t.bpp] == buf[cur + k - t.bpp];
      assert t.above[k - t.bpp] == buf[prior..prior + w][k - t.bpp];
    }
  }

  /** The value of byte `k`. */
  function NextByte(t: Task, k: nat): byte
    requires k < |t.line| && t.bpp > 0
  {
    var r := Rebuilt(t.f, t.bpp, t.line, t.above, k);
    (t.line[k] + Predict(t.f, Left(r, k, t.bpp), Above(t.above, k), Left(t.above, k, t.bpp))) % 256
  }

  /** Store the next byte of the current row. */
  method StoreNext(buf: array<byte>, cur: nat, prior: nat, w: nat, k: nat, v: byte, ghost t: Task)
    requires Progress(buf[..], cur, prior, w, t, k) && k < w && v == NextByte(t, k)
    modifies buf
    ensures Progress(buf[..], cur, prior, w, t, k + 1)
  {
    hide Rebuilt, NextByte;
    ghost var b := buf[..];
    buf[cur + k] := v;
    Stored(b, buf[..], cur, prior, w, t, k, v);
  }

  lemma Stored(b: seq<byte>, b': seq<byte>, cur: nat, prior: nat, w: nat, t: Task, k: nat, v: byte)
    requires Progress(b, cur, prior, w, t, k) && k < w && v == NextByte(t, k) && cur + k < |b| && b' == b[cur + k := v]
    ensures Progress(b', cur, prior, w, t, k + 1)
  {
    hide Predict;
    assert b'[prior..prior + w] == b[prior..prior + w];
    assert b'[cur..cur + k + 1] == b[cur..cur + k] + [v];
  }

  /** memcpy of the whole row */
  method RowNone(buf: array<byte>, cur: nat, prior: nat, w: nat, bpp: nat, raw: seq<byte>, off: nat, ghost t: Task)
    requires Progress(buf[..], cur, prior, w, t, 0) && off + w <= |raw| && t.line == raw[off..off + w] && t.f == NONE && t.bpp == bpp
    modifies buf
    ensures Progress(buf[..], cur, prior, w, t, w)
  {
    hide Progress, Rebuilt, Left, Above, PaethPredictor, Paeth;
    TaskFits(buf[..], cur, prior, w, t);
    for k := 0 to w
      invariant Progress(buf[..], cur, prior, w, t, k)
    {
      Reads(buf[..], cur, prior, w, t, k);
      StoreNext(buf, cur, prior, w, k, raw[off + k], t);
    }
  }

  /** The first pixel is copied, the others add the pixel to the left. */
  method RowSub(buf: array<byte>, cur: nat, prior: nat, w: nat, bpp: nat, raw: seq<byte>, off: nat, ghost t: Task)
    requires Progress(buf[..], cur, prior, w, t, 0) && off + w <= |raw| && t.line == raw[off..off + w] && t.f == SUB && t.bpp == bpp
    modifies buf
    ensures Progress(buf[..], cur, prior, w, t, w)
  {
    hide Progress, Rebuilt, Left, Above, PaethPredictor, Paeth;
    TaskFits(buf[..], cur, prior, w, t);
    for k := 0 to bpp
      invariant Progress(buf[..], cur, prior, w, t, k)
    {
      Reads(buf[..], cur, prior, w, t, k);
      StoreNext(buf, cur, prior, w, k, raw[off + k], t);
    }
    for k := bpp to w
      invariant Progress(buf[..], cur, prior, w, t, k)
    {
      Reads(buf[..], cur, prior, w, t, k);
      StoreNext(buf, cur, prior, w, k, Plus(raw[off + k], buf[cur + k - bpp]), t);
    }
  }

  /** Every byte adds the one above. */
  method RowUp(buf: array<byte>, cur: nat, prior: nat, w: nat, bpp: nat, raw: seq<byte>, off: nat, ghost t: Task)
    requires Progress(buf[..], cur, prior, w, t, 0) && off + w <= |raw| && t.line == raw[off..off + w] && t.f == UP && t.bpp == bpp
    modifies buf
    ensures Progress(buf[..], cur, prior, w, t, w)
  {
    hide Progress, Rebuilt, Left, Above, PaethPredictor, Paeth;
    TaskFits(buf[..], cur, prior, w, t);
    for k := 0 to w
      invariant Progress(buf[..], cur, prior, w, t, k)
    {
      Reads(buf[..], cur, prior, w, t, k);
      StoreNext(buf, cur, prior, w, k, Plus(raw[off + k], buf[prior + k]), t);
    }
  }

  /** Every byte adds the average of left and above. */
  method RowAvg(buf: array<byte>, cur: nat, prior: nat, w: nat, bpp: nat, raw: seq<byte>, off: nat, ghost t: Task)
    requires Progress(buf[..], cur, prior, w, t, 0) && off + w <= |raw| && t.line == raw[off..off + w] && t.f == AVG && t.bpp == bpp
    modifies buf
    ensures Progress(buf[..], cur, prior, w, t, w)
  {
    hide Progress, Rebuilt, Left, Above, PaethPredictor, Paeth;
    TaskFits(buf[..], cur, prior, w, t);
    for k := 0 to bpp
      invariant Progress(buf[..], cur, prior, w, t, k)
    {
      Reads(buf[..], cur, prior, w, t, k);
      StoreNext(buf, cur, prior, w, k, Plus(raw[off + k], buf[prior + k] / 2), t);
    }
    for k := bpp to w
      invariant Progress(buf[..], cur, prior, w, t, k)
    {
      Reads(buf[..], cur, prior, w, t, k);
      StoreNext(buf, cur, prior, w, k, Plus(raw[off + k], Average(buf[cur + k - bpp], buf[prior + k])), t);
    }
  }

  /** Every byte adds the Paeth prediction, which is the byte above in the first pixel. */
  method RowPaeth(buf: array<byte>, cur: nat, prior: nat, w: nat, bpp: nat, raw: seq<byte>, off: nat, ghost t: Task)
    requires Progress(buf[..], cur, prior, w, t, 0) && off + w <= |raw| && t.line == raw[off..off + w] && t.f == PAETH && t.bpp == bpp
    modifies buf
    ensures Progress(buf[..], cur, prior, w, t, w)
  {
    hide Progress, Rebuilt, Left, Above, PaethPredictor, Paeth;
    TaskFits(buf[..], cur, prior, w, t);
    for k := 0 to bpp
      invariant Progress(buf[..], cur, prior, w, t, k)
    {
      Reads(buf[..], cur, prior, w, t, k);
      PaethAbove(buf[prior + k]);
      StoreNext(buf, cur, prior, w, k, Plus(raw[off + k], buf[prior + k]), t);
    }
    for k := bpp to w
      invariant Progress(buf[..], cur, prior, w, t, k)
    {
      Reads(buf[..], cur, prior, w, t, k);
      PaethEquivalent(buf[cur + k - bpp], buf[prior + k], buf[prior + k - bpp]);
      StoreNext(buf, cur, prior, w, k, Plus(raw[off + k], Paeth(buf[cur + k - bpp], buf[prior + k], buf[prior + k - bpp])), t);
    }
  }

  /** Every byte adds half the pixel to the left. */
  method RowAvgFirst(buf: array<byte>, cur: nat, prior: nat, w: nat, bpp: nat, raw: seq<byte>, off: nat, ghost t: Task)
    requires Progress(buf[..], cur, prior, w, t, 0) && off + w <= |raw| && t.line == raw[off..off + w] && t.f == AVG_FIRST && t.bpp == bpp
    modifies buf
    ensures Progress(buf[..], cur, prior, w, t, w)
  {
    hide Progress, Rebuilt, Left, Above, PaethPredictor, Paeth;
    TaskFits(buf[..], cur, prior, w, t);
    for k := 0 to bpp
      invariant Progress(buf[..], cur, prior, w, t, k)
    {
      Reads(buf[..], cur, prior, w, t, k);
      StoreNext(buf, cur, prior, w, k, raw[off + k], t);
    }
    for k := bpp to w
      invariant Progress(buf[..], cur, prior, w, t, k)
    {
      Reads(buf[..], cur, prior, w, t, k);
      StoreNext(buf, cur, prior, w, k, Plus(raw[off + k], buf[cur + k - bpp] / 2), t);
    }
  }

  lemma TaskFits(buf: seq<byte>, cur: nat, prior: nat, w: nat, t: Task)
    requires Progress(buf, cur, prior, w, t, 0)
    ensures 0 < t.bpp <= w && |buf| == 2 * w
  {
  }

  lemma PaethAbove(b: byte)
    ensures PaethPredictor(0, b, 0) == b
  {
  }

  /** The unfiltering switch. */
  method UnfilterRow(buf: array<byte>, cur: nat, prior: nat, w: nat, f: nat, bpp: nat, raw: seq<byte>, off: nat, ghost t: Task)
    requires Progress(buf[..], cur, prior, w, t, 0) && off + w <= |raw| && t.line == raw[off..off + w]
    requires t.f == f <= AVG_FIRST && t.bpp == bpp
    modifies buf
    ensures Progress(buf[..], cur, prior, w, t, w)
  {
    hide Progress;
    match f
    case 0 => RowNone(buf, cur, prior, w, bpp, raw, off, t);
    case 1 => RowSub(buf, cur, prior, w, bpp, raw, off, t);
    case 2 => RowUp(buf, cur, prior, w, bpp, raw, off, t);
    case 3 => RowAvg(buf, cur, prior, w, bpp, raw, off, t);
    case 4 => RowPaeth(buf, cur, prior, w, bpp, raw, off, t);
    case _ => RowAvgFirst(buf, cur, prior, w, bpp, raw, off, t);
  }

  /* ---- whole images ---- */

  /** The offsets of line `j` in the filtered data, where each line starts with its filter type, and in the image. */
  function LineAt(w: nat, j: nat): nat {
    if j == 0 then 0 else LineAt(w, j - 1) + w + 1
  }

  function RowAt(w: nat, j: nat): nat {
    if j == 0 then 0 else RowAt(w, j - 1) + w
  }

  function Line(raw: seq<byte>, w: nat, j: nat): (r: seq<byte>)
    requires LineAt(w, j) + w + 1 <= |raw|
    ensures |r| == w
  {
    raw[LineAt(w, j) + 1..LineAt(w, j) + 1 + w]
  }

  function Zeros(w: nat): (r: seq<byte>)
    ensures |r| == w && Zero(r)
  {
    seq(w, _ => 0)
  }

  lemma {:induction false} LineMono(w: nat, i: nat, j: nat)
    requires i <= j
    ensures LineAt(w, i) <= LineAt(w, j) && RowAt(w, i) <= RowAt(w, j)
    ensures i < j ==> LineAt(w, i) + w + 1 <= LineAt(w, j) && RowAt(w, i) + w <= RowAt(w, j)
  {
    if i < j {
      LineMono(w, i, j - 1);
    }
  }

  /** Row `j` of the image: rebuilt from its line and the row above, which is zero for the first. */
  function Row(raw: seq<byte>, w: nat, bpp: nat, j: nat): (r: seq<byte>)
    requires LineAt(w, j) + w + 1 <= |raw| && bpp > 0
    ensures |r| == w
    decreases j
  {
    Rebuilt(raw[LineAt(w, j)], bpp, Line(raw, w, j), if j == 0 then Zeros(w) else Row(raw, w, bpp, j - 1), w)
  }

  function Image(raw: seq<byte>, w: nat, bpp: nat, y: nat): (r: seq<byte>)
    requires LineAt(w, y) <= |raw| && bpp > 0
    ensures |r| == RowAt(w, y)
  {
    if y == 0 then [] else Image(raw, w, bpp, y - 1) + Row(raw, w, bpp, y - 1)
  }

  /** `raw` holds the rows, each filtered with its own filter. */
  ghost predicate Holds(raw: seq<byte>, w: nat, bpp: nat, rows: seq<seq<byte>>) {
    && (forall j :: 0 <= j < |rows| ==> |rows[j]| == w) && LineAt(w, |rows|) <= |raw|
    && forall j :: 0 <= j < |rows| ==> HoldsRow(raw, w, bpp, rows, j)
  }

  ghost predicate HoldsRow(raw: seq<byte>, w: nat, bpp: nat, rows: seq<seq<byte>>, j: nat)
    requires j < |rows|
  {
    && LineAt(w, j) + w + 1 <= |raw| && raw[LineAt(w, j)] <= 4
    && Line(raw, w, j) == Filtered(raw[LineAt(w, j)], bpp, rows[j], if j == 0 then Zeros(w) else rows[j - 1])
  }

  /** Rebuilding finds every row again, for every image and every choice of filters. */
  lemma {:induction false} RowsFound(raw: seq<byte>, w: nat, bpp: nat, rows: seq<seq<byte>>, j: nat)
    requires Holds(raw, w, bpp, rows) && j < |rows| && bpp > 0
    ensures LineAt(w, j) + w + 1 <= |raw| && Row(raw, w, bpp, j) == rows[j]
  {
    hide Rebuilt, Filtered;
    assert HoldsRow(raw, w, bpp, rows, j);
    if j > 0 {
      RowsFound(raw, w, bpp, rows, j - 1);
    }
    RebuiltInverts(raw[LineAt(w, j)], bpp, rows[j], if j == 0 then Zeros(w) else rows[j - 1], w);
  }

  /** One turn of the row loop of stbi__create_png_image_raw, once the filter type is known to be valid. */
  method ReconstructRow(buf: array<byte>, raw: seq<byte>, w: nat, bpp: nat, j: nat, pos: nat)
    requires buf.Length == 2 * w && 0 < bpp <= w && pos == LineAt(w, j) && pos + w + 1 <= |raw| && raw[pos] <= 4
    requires j > 0 ==> LineAt(w, j - 1) + w + 1 <= |raw| && Slot(buf[..], w, j - 1) == Row(raw, w, bpp, j - 1)
    modifies buf
    ensures Slot(buf[..], w, j) == Row(raw, w, bpp, j)
  {
    hide Rebuilt, FirstRowFilter, LineAt, Half, Progress, Line;
    Halves(w, j);
    var cur := Half(w, j);
    var prior := Half(w, j + 1);
    var filter: nat := raw[pos];
    if j == 0 {
      filter := FirstRowFilter(filter);
    }
    SubstituteInRange(raw[pos]);
    ghost var t := Task(filter, bpp, Line(raw, w, j), buf[prior..prior + w]);
    NoneYet(buf[..], cur, prior, w, t);
    LineIs(raw, w, j);
    UnfilterRow(buf, cur, prior, w, filter, bpp, raw, pos + 1, t);
    AllDone(buf[..], cur, prior, w, t);
    if j == 0 {
      FirstRow(raw[pos], bpp, t.line, Zeros(w), t.above, w);
    }
  }

  lemma SubstituteInRange(f: nat)
    requires f <= 4
    ensures FirstRowFilter(f) <= AVG_FIRST
  {
  }

  lemma LineIs(raw: seq<byte>, w: nat, j: nat)
    requires LineAt(w, j) + w + 1 <= |raw|
    ensures Line(raw, w, j) == raw[LineAt(w, j) + 1..LineAt(w, j) + 1 + w]
  {
  }

  lemma AllDone(buf: seq<byte>, cur: nat, prior: nat, w: nat, t: Task)
    requires Progress(buf, cur, prior, w, t, w)
    ensures |buf| == 2 * w && cur + w <= |buf| && |t.line| == w && t.bpp > 0
    ensures buf[cur..cur + w] == Rebuilt(t.f, t.bpp, t.line, t.above, w)
  {
  }

  lemma NoneYet(buf: seq<byte>, cur: nat, prior: nat, w: nat, t: Task)
    requires t.Valid(w) && TwoRows(cur, prior, w) && |buf| == 2 * w && buf[prior..prior + w] == t.above
    ensures Progress(buf, cur, prior, w, t, 0)
  {
  }

  /** The half of the buffer that row `j` is rebuilt in. */
  function Half(w: nat, j: nat): nat {
    j % 2 * w
  }

  function Slot(buf: seq<byte>, w: nat, j: nat): seq<byte>
    requires |buf| == 2 * w
  {
    Halves(w, j);
    buf[Half(w, j)..Half(w, j) + w]
  }

  /** The two halves take turns. */
  lemma Halves(w: nat, j: nat)
    ensures TwoRows(Half(w, j), Half(w, j + 1), w)
    ensures j > 0 ==> Half(w, j - 1) == Half(w, j + 1)
  {
    if j % 2 == 0 {
      assert (j + 1) % 2 == 1;
      assert j > 0 ==> (j - 1) % 2 == 1;
    } else {
      assert (j + 1) % 2 == 0 && (j - 1) % 2 == 0;
    }
  }

  /** All filter types of the first `j` lines are valid. */
  ghost predicate FiltersOk(raw: seq<byte>, w: nat, j: nat) {
    forall i :: 0 <= i < j ==> LineAt(w, i) < |raw| && raw[LineAt(w, i)] <= 4
  }

  /** What one more row adds. */
  lemma NextRow(raw: seq<byte>, w: nat, bpp: nat, j: nat, y: nat)
    requires j < y && LineAt(w, y) <= |raw| && bpp > 0
    ensures LineAt(w, j + 1) == LineAt(w, j) + w + 1 <= |raw| && RowAt(w, j + 1) == RowAt(w, j) + w <= RowAt(w, y)
    ensures Image(raw, w, bpp, j + 1) == Image(raw, w, bpp, j) + Row(raw, w, bpp, j)
  {
    hide Row;
    LineMono(w, j + 1, y);
  }

  /** The row loop of stbi__create_png_image_raw for one byte per sample: `false` exactly if data is missing or a filter type is invalid. */
  method CreateImage(raw: seq<byte>, w: nat, bpp: nat, y: nat) returns (ok: bool, out: array<byte>)
    requires 0 < bpp <= w
    ensures ok <==> LineAt(w, y) <= |raw| && FiltersOk(raw, w, y)
    ensures ok ==> out[..] == Image(raw, w, bpp, y)
  {
    hide Row, LineAt, RowAt, Image, Half;
    out := new byte[RowAt(w, y)](_ => 0);
    ok := false;
    if |raw| < LineAt(w, y) {
      return;
    }
    var buf := new byte[2 * w](_ => 0);
    var pos, at := 0, 0;
    StartAt(raw, w, bpp);
    for j := 0 to y
      invariant pos == LineAt(w, j) <= |raw| && at == RowAt(w, j) <= out.Length && FiltersOk(raw, w, j)
      invariant j > 0 ==> LineAt(w, j - 1) + w + 1 <= |raw| && Slot(buf[..], w, j - 1) == Row(raw, w, bpp, j - 1)
      invariant out[..at] == Image(raw, w, bpp, j)
    {
      NextRow(raw, w, bpp, j, y);
      Halves(w, j);
      if raw[pos] > 4 {
        return;
      }
      ReconstructRow(buf, raw, w, bpp, j, pos);
      CopyRow(out, at, buf, Half(w, j), w);
      pos := pos + w + 1;
      at := at + w;
    }
    ok := true;
  }

  lemma StartAt(raw: seq<byte>, w: nat, bpp: nat)
    requires bpp > 0
    ensures LineAt(w, 0) == 0 && RowAt(w, 0) == 0 && Image(raw, w, bpp, 0) == []
  {
  }

  /** memcpy of a row to the image. */
  method CopyRow(out: array<byte>, at: nat, buf: array<byte>, from: nat, w: nat)
    requires out != buf && at + w <= out.Length && from + w <= buf.Length
    modifies out
    ensures out[..at + w] == old(out[..at]) + buf[from..from + w]
  {
    CopyBytes(out, at, buf, from, w);
  }

  /** Decoding a filtered image gives the image back. */
  lemma {:induction false} ImageFound(raw: seq<byte>, w: nat, bpp: nat, rows: seq<seq<byte>>, y: nat)
    requires Holds(raw, w, bpp, rows) && bpp > 0 && y <= |rows| && LineAt(w, y) <= |raw|
    ensures Image(raw, w, bpp, y) == Joined(rows[..y])
  {
    hide Row;
    if y > 0 {
      LineMono(w, y - 1, y);
      ImageFound(raw, w, bpp, rows, y - 1);
      RowsFound(raw, w, bpp, rows, y - 1);
      assert rows[..y][..y - 1] == rows[..y - 1];
    }
  }

  function Joined(rows: seq<seq<byte>>): seq<byte> {
    if rows == [] then [] else Joined(rows[..|rows| - 1]) + rows[|rows| - 1]
  }
}
