/** The DEFLATE format of RFC 1951: what a stream of bits encodes, independently of any decoder. */
module Deflate {
  import opened Bytes
  import opened BitStrings
  import opened HuffmanCodes

  /* ---- bits of a byte string ---- */

  /** Bit `i` of the stream, lowest bit of each byte first; zero past the end. */
  predicate StreamBit(data: seq<byte>, i: nat) {
    i / 8 < |data| && BitAt(data[i / 8], i % 8)
  }

  /** A byte boundary of the stream. */
  predicate Aligned(p: nat) {
    p % 8 == 0
  }

  function Window(data: seq<byte>, p: nat, n: nat): (r: seq<bool>)
    ensures |r| == n
  {
    seq(n, j requires 0 <= j < n => StreamBit(data, p + j))
  }

  /** The bits `x` stand in the stream at position `p`. */
  ghost predicate Found(data: seq<byte>, p: nat, x: seq<bool>) {
    p + |x| <= 8 * |data| && Window(data, p, |x|) == x
  }

  lemma WindowSplit(data: seq<byte>, p: nat, n: nat, m: nat)
    ensures Window(data, p, n + m) == Window(data, p, n) + Window(data, p + n, m)
  {
  }

  lemma FoundSplit(data: seq<byte>, p: nat, x: seq<bool>, y: seq<bool>)
    ensures Found(data, p, x + y) <==> Found(data, p, x) && Found(data, p + |x|, y)
  {
    WindowSplit(data, p, |x|, |y|);
    if Window(data, p, |x| + |y|) == x + y {
      SameTail(Window(data, p, |x|), x, Window(data, p + |x|, |y|), y);
    }
  }

  /** The bits `x` are what reading at `p` gives; past the end it gives zeros. */
  ghost predicate Reads(data: seq<byte>, p: nat, x: seq<bool>) {
    Window(data, p, |x|) == x
  }

  lemma ReadsJoin(data: seq<byte>, p: nat, x: seq<bool>, y: seq<bool>)
    requires Reads(data, p, x) && Reads(data, p + |x|, y)
    ensures Reads(data, p, x + y)
  {
    WindowSplit(data, p, |x|, |y|);
  }

  /** The data followed by `k` zero bytes. */
  function Extended(data: seq<byte>, k: nat): seq<byte> {
    data + seq(k, _ => 0)
  }

  /** What is read of the data, zeros past its end included, stands in the extended data. */
  lemma ReadsExtended(data: seq<byte>, k: nat, p: nat, x: seq<bool>)
    requires Reads(data, p, x) && p + |x| <= 8 * (|data| + k)
    ensures Found(Extended(data, k), p, x)
  {
    forall j | 0 <= j < |x| ensures Window(Extended(data, k), p, |x|)[j] == Window(data, p, |x|)[j] {
      BitExtended(data, k, p + j);
    }
  }

  lemma BitExtended(data: seq<byte>, k: nat, i: nat)
    ensures StreamBit(Extended(data, k), i) == StreamBit(data, i)
  {
    if |data| <= i / 8 < |data| + k {
      assert Extended(data, k)[i / 8] == 0;
      ZeroBit(i % 8);
    }
  }

  /** The bits at a byte boundary are those of the byte, or zeros past the end. */
  lemma WindowByte(data: seq<byte>, p: nat)
    ensures Window(data, 8 * p, 8) == Bits(if p < |data| then data[p] else 0, 8)
  {
    var b := if p < |data| then data[p] else 0;
    forall j | 0 <= j < 8 ensures Window(data, 8 * p, 8)[j] == Bits(b, 8)[j] {
      DivModUnique(8 * p + j, 8, p, j);
      BitsAt(b, 8, j);
      if p >= |data| {
        ZeroBit(j);
        assert !StreamBit(data, 8 * p + j);
      } else {
        assert StreamBit(data, 8 * p + j) == BitAt(b, j);
      }
    }
  }

  lemma {:induction false} ZeroBit(j: nat)
    ensures !BitAt(0, j)
  {
    if j > 0 {
      ZeroBit(j - 1);
    }
  }

  /* ---- literals and matches ---- */

  const LENGTH_BASE: seq<nat> := [3, 4, 5, 6, 7, 8, 9, 10, 11, 13, 15, 17, 19, 23, 27, 31, 35, 43, 51, 59, 67, 83, 99, 115, 131, 163, 195, 227, 258]
  const LENGTH_EXTRA: seq<nat> := [0, 0, 0, 0, 0, 0, 0, 0, 1, 1, 1, 1, 2, 2, 2, 2, 3, 3, 3, 3, 4, 4, 4, 4, 5, 5, 5, 5, 0]
  const DIST_BASE: seq<nat> := [1, 2, 3, 4, 5, 7, 9, 13, 17, 25, 33, 49, 65, 97, 129, 193, 257, 385, 513, 769, 1025, 1537, 2049, 3073, 4097, 6145, 8193, 12289, 16385, 24577]
  const DIST_EXTRA: seq<nat> := [0, 0, 0, 0, 1, 1, 2, 2, 3, 3, 4, 4, 5, 5, 6, 6, 7, 7, 8, 8, 9, 9, 10, 10, 11, 11, 12, 12, 13, 13]

  /** Table lookups by symbol. */
  function LengthBase(i: nat): (r: nat)
    requires i < 29
    ensures 0 < r <= 258
  {
    LENGTH_BASE[i]
  }

  function LengthExtra(i: nat): (r: nat)
    requires i < 29
    ensures r <= 5
  {
    LENGTH_EXTRA[i]
  }

  function DistBase(i: nat): (r: nat)
    requires i < 30
    ensures 0 < r
  {
    DIST_BASE[i]
  }

  function DistExtra(i: nat): (r: nat)
    requires i < 30
    ensures r <= 13
  {
    DIST_EXTRA[i]
  }

  /** The extra bits of a length symbol, by number. */
  lemma LengthExtras(i: nat)
    requires i < 29
    ensures LengthExtra(i) == if i < 8 || i == 28 then 0 else i / 4 - 1
  {
  }

  /** The extra bits of a distance symbol, by number. */
  lemma DistExtras(i: nat)
    requires i < 30
    ensures DistExtra(i) == if i < 4 then 0 else i / 2 - 1
  {
  }

  /** Each length symbol starts where the one before it ends; the last one stands for the longest match alone. */
  lemma LengthsTile(i: nat)
    requires i < 27
    ensures LengthBase(0) == 3 && LengthBase(28) == 258 && LengthBase(27) + Pow2(LengthExtra(27)) == 259
    ensures LengthBase(i + 1) == LengthBase(i) + Pow2(LengthExtra(i))
  {
    hide Pow2;
    SmallPowers();
  }

  /** Each distance symbol starts where the one before it ends. */
  lemma DistancesTile(i: nat)
    requires i < 29
    ensures DistBase(0) == 1 && DistBase(29) + Pow2(DistExtra(29)) == 32769
    ensures DistBase(i + 1) == DistBase(i) + Pow2(DistExtra(i))
  {
    hide Pow2;
    SmallPowers();
  }

  lemma SmallPowers()
    ensures Pow2(0) == 1 && Pow2(1) == 2 && Pow2(2) == 4 && Pow2(3) == 8 && Pow2(4) == 16 && Pow2(5) == 32 && Pow2(6) == 64
    ensures Pow2(7) == 128 && Pow2(8) == 256 && Pow2(9) == 512 && Pow2(10) == 1024 && Pow2(11) == 2048 && Pow2(12) == 4096 && Pow2(13) == 8192
  {
    assert Pow2(4) == 2 * Pow2(3) && Pow2(7) == 2 * Pow2(6) && Pow2(10) == 2 * Pow2(9);
  }

  lemma {:induction false} LengthsApart(i: nat, j: nat)
    requires i < j < 28
    ensures LengthBase(i) + Pow2(LengthExtra(i)) <= LengthBase(j)
  {
    hide LengthBase, LengthExtra;
    LengthsTile(j - 1);
    if i < j - 1 {
      LengthsApart(i, j - 1);
    }
  }

  lemma {:induction false} DistancesApart(i: nat, j: nat)
    requires i < j < 30
    ensures DistBase(i) + Pow2(DistExtra(i)) <= DistBase(j)
  {
    hide DistBase, DistExtra;
    DistancesTile(j - 1);
    if i < j - 1 {
      DistancesApart(i, j - 1);
    }
  }

  /** Every length from 3 to 258 has a symbol with extra bits. */
  lemma EveryLength(n: nat) returns (s: nat, x: nat)
    requires 3 <= n <= 258
    ensures s < 29 && x < Pow2(LengthExtra(s)) && LengthBase(s) + x == n
  {
    hide LengthBase, LengthExtra;
    LengthsTile(0);
    s := 0;
    while LengthBase(s) + Pow2(LengthExtra(s)) <= n
      invariant s <= 27 && LengthBase(s) <= n
    {
      LengthsTile(if s < 27 then s else 0);
      s := s + 1;
    }
    x := n - LengthBase(s);
  }

  /** A length has one symbol only, except that the longest has two. */
  lemma OneLengthSymbol(s: nat, x: nat, t: nat, y: nat)
    requires s < t < 29 && x < Pow2(LengthExtra(s)) && y < Pow2(LengthExtra(t))
    ensures LengthBase(s) + x == LengthBase(t) + y <==> s == 27 && x == 31 && t == 28
  {
    hide LengthBase, LengthExtra;
    LengthExtras(27);
    LengthExtras(28);
    SmallPowers();
    LengthsTile(0);
    if t < 28 {
      LengthsApart(s, t);
    } else if s < 27 {
      LengthsApart(s, 27);
    }
  }

  /** Every distance from 1 to 32768 has a symbol with extra bits. */
  lemma EveryDistance(n: nat) returns (s: nat, x: nat)
    requires 1 <= n <= 32768
    ensures s < 30 && x < Pow2(DistExtra(s)) && DistBase(s) + x == n
  {
    hide DistBase, DistExtra;
    DistancesTile(0);
    s := 0;
    while DistBase(s) + Pow2(DistExtra(s)) <= n
      invariant s <= 29 && DistBase(s) <= n
    {
      DistancesTile(if s < 29 then s else 0);
      s := s + 1;
    }
    x := n - DistBase(s);
  }

  /** A distance has one symbol only. */
  lemma OneDistanceSymbol(s: nat, x: nat, t: nat, y: nat)
    requires s < t < 30 && x < Pow2(DistExtra(s))
    ensures DistBase(s) + x < DistBase(t) + y
  {
    hide DistBase, DistExtra;
    DistancesApart(s, t);
  }

  /** The symbols stand for lengths from 3 to 258 and distances from 1 to 32768 only. */
  lemma MatchRange(it: Item)
    requires it.Match? && it.Valid()
    ensures 3 <= it.Length() <= 258 && 1 <= it.Distance() <= 32768
  {
    hide LengthBase, LengthExtra, DistBase, DistExtra;
    LengthsTile(0);
    DistancesTile(0);
    LengthExtras(28);
    SmallPowers();
    if 0 < it.lsym < 28 {
      LengthsApart(0, it.lsym);
    }
    if it.lsym < 27 {
      LengthsApart(it.lsym, 27);
    }
    if it.dsym < 29 {
      DistancesApart(it.dsym, 29);
    }
  }

  /** The symbol that ends a block. */
  const END_OF_BLOCK: nat := 256

  /** An element of a compressed block: a literal byte, or a match given by its symbols and extra bits. */
  datatype Item = Literal(b: byte) | Match(lsym: nat, lext: nat, dsym: nat, dext: nat) {

    predicate Valid() {
      this.Match? ==>
        && lsym < 29 && lext < Pow2(LengthExtra(lsym))
        && dsym < 30 && dext < Pow2(DistExtra(dsym))
    }

    function Length(): (r: nat)
      requires Match? && Valid()
      ensures r > 0
    {
      LengthBase(lsym) + lext
    }

    function Distance(): (r: nat)
      requires Match? && Valid()
      ensures r > 0
    {
      DistBase(dsym) + dext
    }

    /** The number of bytes the item stands for. */
    function Size(): (r: nat)
      requires Valid()
      ensures r > 0
    {
      if Match? then Length() else 1
    }
  }

  /** Symbol `i` has a code. */
  predicate Coded(lens: seq<nat>, i: nat) {
    i < |lens| && lens[i] > 0
  }

  predicate Encodable(ll: seq<nat>, dl: seq<nat>, it: Item) {
    && it.Valid()
    && (if it.Literal? then Coded(ll, it.b) else Coded(ll, 257 + it.lsym) && Coded(dl, it.dsym))
  }

  function ItemBits(ll: seq<nat>, dl: seq<nat>, it: Item): seq<bool>
    requires Encodable(ll, dl, it)
  {
    if it.Literal? then Codeword(ll, it.b)
    else Codeword(ll, 257 + it.lsym) + (Bits(it.lext, LengthExtra(it.lsym))
         + (Codeword(dl, it.dsym) + Bits(it.dext, DistExtra(it.dsym))))
  }

  predicate AllEncodable(ll: seq<nat>, dl: seq<nat>, items: seq<Item>) {
    forall i :: 0 <= i < |items| ==> Encodable(ll, dl, items[i])
  }

  /** The items and the end of the block. */
  function ItemsBits(ll: seq<nat>, dl: seq<nat>, items: seq<Item>): seq<bool>
    requires AllEncodable(ll, dl, items) && Coded(ll, END_OF_BLOCK)
  {
    if items == [] then Codeword(ll, END_OF_BLOCK)
    else ItemBits(ll, dl, items[0]) + ItemsBits(ll, dl, items[1..])
  }

  /** `len` bytes, each the one `dist` places before it; the source may overlap what is being written. */
  function Copied(out: seq<byte>, dist: nat, len: nat): (r: seq<byte>)
    requires 0 < dist <= |out|
    ensures |r| == |out| + len && out <= r
    decreases len
  {
    if len == 0 then out else Copied(out + [out[|out| - dist]], dist, len - 1)
  }

  /** Every byte of the copy is the one `dist` places before it, copied bytes included. */
  lemma {:induction false} CopiedByte(out: seq<byte>, dist: nat, len: nat, i: nat)
    requires 0 < dist <= |out| && |out| <= i < |out| + len
    ensures Copied(out, dist, len)[i] == Copied(out, dist, len)[i - dist]
    decreases len
  {
    var next := out + [out[|out| - dist]];
    if i > |out| {
      CopiedByte(next, dist, len - 1, i);
    } else {
      var r := Copied(next, dist, len - 1);
      assert r[i] == next[i] && r[i - dist] == next[i - dist];
    }
  }

  /** A match does not reach back further than the `n` bytes that are there. */
  predicate Reaches(n: nat, it: Item) {
    it.Valid() && (it.Match? ==> it.Distance() <= n)
  }

  /** No match of the items reaches back before the start, `n` bytes being there already. */
  predicate Playable(n: nat, items: seq<Item>)
    decreases |items|
  {
    items == [] || (Reaches(n, items[0]) && Playable(n + items[0].Size(), items[1..]))
  }

  /** The output after one item; a match that reaches too far back adds nothing. */
  function Played(out: seq<byte>, it: Item): (r: seq<byte>)
    ensures |r| >= |out|
  {
    if it.Literal? then out + [it.b]
    else if Reaches(|out|, it) then Copied(out, it.Distance(), it.Length())
    else out
  }

  /** The expansion of the items. */
  function PlayedAll(out: seq<byte>, items: seq<Item>): (r: seq<byte>)
    ensures |r| >= |out|
    decreases |items|
  {
    if items == [] then out else PlayedAll(Played(out, items[0]), items[1..])
  }

  /* ---- code lengths of dynamic blocks ---- */

  /** The order in which the lengths of the code length code are stored. */
  const LENGTH_ORDER: seq<nat> := [16, 17, 18, 0, 8, 7, 9, 6, 10, 5, 11, 4, 12, 3, 13, 2, 14, 1, 15]

  function LengthOrder(i: nat): (r: nat)
    requires i < 19
    ensures r < 19
  {
    LENGTH_ORDER[i]
  }

  /** The order starts with 16, 17, 18, 0 and 8, and swings around 8 from there on: neighbours sum to 15 and 16 in turn. */
  lemma OrderSwings(i: nat)
    requires 4 <= i < 18
    ensures LengthOrder(0) == 16 && LengthOrder(1) == 17 && LengthOrder(2) == 18 && LengthOrder(3) == 0 && LengthOrder(4) == 8
    ensures LengthOrder(i) + LengthOrder(i + 1) == if i % 2 == 0 then 15 else 16
  {
  }

  /** Every symbol of the code length code has its place in the order. */
  lemma OrderCovers(s: nat)
    requires s < 19
    ensures exists i: nat :: i < 19 && LengthOrder(i) == s
  {
    assert LengthOrder(if s > 15 then s - 16 else if s == 0 then 3 else if s < 8 then 19 - 2 * s else 2 * s - 12) == s;
  }

  datatype Run = One(len: nat) | Repeat(n: nat) | Zeros(n: nat) | ManyZeros(n: nat) {
    predicate Valid() {
      match this
      case One(l) => l < 16
      case Repeat(k) => 3 <= k <= 6
      case Zeros(k) => 3 <= k <= 10
      case ManyZeros(k) => 11 <= k <= 138
    }

    function Symbol(): nat {
      match this
      case One(l) => l
      case Repeat(_) => 16
      case Zeros(_) => 17
      case ManyZeros(_) => 18
    }

    function Extra(): seq<bool>
      requires Valid()
    {
      match this
      case One(_) => []
      case Repeat(k) => Bits(k - 3, 2)
      case Zeros(k) => Bits(k - 3, 3)
      case ManyZeros(k) => Bits(k - 11, 7)
    }
  }

  function Times(x: nat, n: nat): (r: seq<nat>)
    ensures |r| == n && forall i :: 0 <= i < n ==> r[i] == x
  {
    seq(n, _ => x)
  }

  /** The lengths after one more run; a repetition repeats the length before it. */
  function Lengthened(lens: seq<nat>, r: Run): (t: seq<nat>)
    requires r.Valid() && (r.Repeat? ==> lens != [])
    ensures |t| > |lens| && t[..|lens|] == lens
  {
    match r
    case One(l) => lens + [l]
    case Repeat(k) => lens + Times(lens[|lens| - 1], k)
    case Zeros(k) => lens + Times(0, k)
    case ManyZeros(k) => lens + Times(0, k)
  }

  /** What a run adds: itself, three to six times the length before it, or three to 138 zeros. */
  lemma RunAdds(lens: seq<nat>, r: Run, i: nat)
    requires r.Valid() && (r.Repeat? ==> lens != []) && |lens| <= i < |Lengthened(lens, r)|
    ensures var n := |Lengthened(lens, r)| - |lens|;
            match r
            case One(l) => n == 1 && l <= 15 && Lengthened(lens, r)[i] == l
            case Repeat(k) => n == k && 3 <= k <= 6 && Lengthened(lens, r)[i] == lens[|lens| - 1]
            case Zeros(k) => n == k && 3 <= k <= 10 && Lengthened(lens, r)[i] == 0
            case ManyZeros(k) => n == k && 11 <= k <= 138 && Lengthened(lens, r)[i] == 0
  {
  }

  predicate RunsValid(cl: seq<nat>, lens: seq<nat>, runs: seq<Run>)
    decreases |runs|
  {
    runs == [] ||
    (&& runs[0].Valid() && Coded(cl, runs[0].Symbol()) && (runs[0].Repeat? ==> lens != [])
     && RunsValid(cl, Lengthened(lens, runs[0]), runs[1..]))
  }

  function RunsOut(cl: seq<nat>, lens: seq<nat>, runs: seq<Run>): (r: seq<nat>)
    requires RunsValid(cl, lens, runs)
    ensures |r| >= |lens| && (runs != [] ==> |r| > |lens|)
    decreases |runs|
  {
    if runs == [] then lens else RunsOut(cl, Lengthened(lens, runs[0]), runs[1..])
  }

  function RunsBits(cl: seq<nat>, lens: seq<nat>, runs: seq<Run>): seq<bool>
    requires RunsValid(cl, lens, runs)
    decreases |runs|
  {
    if runs == [] then []
    else (Codeword(cl, runs[0].Symbol()) + runs[0].Extra()) + RunsBits(cl, Lengthened(lens, runs[0]), runs[1..])
  }

  /** Lengths of the code length code, given by the first `n` stored ones. */
  ghost predicate ClValid(cl: seq<nat>, n: nat) {
    && |cl| == 19 && (forall i :: 0 <= i < 19 ==> cl[i] < 8)
    && forall i :: n <= i < 19 ==> cl[LengthOrder(i)] == 0
  }

  /** The header of a dynamic block: the lengths of the code length code, and the runs of code lengths. */
  datatype Header = Header(hlit: nat, hdist: nat, hclen: nat, cl: seq<nat>, runs: seq<Run>) {
    ghost predicate Valid() {
      && 257 <= hlit <= 288 && 1 <= hdist <= 32 && 4 <= hclen <= 19
      && ClValid(cl, hclen) && Kraft(cl) <= Pow2(15)
      && RunsValid(cl, [], runs) && |Lens()| == hlit + hdist
      && Kraft(LitLens()) <= Pow2(15) && Kraft(DistLens()) <= Pow2(15)
    }

    function Lens(): seq<nat>
      requires RunsValid(cl, [], runs)
    {
      RunsOut(cl, [], runs)
    }

    function LitLens(): seq<nat>
      requires RunsValid(cl, [], runs) && |Lens()| == hlit + hdist
    {
      Lens()[..hlit]
    }

    function DistLens(): seq<nat>
      requires RunsValid(cl, [], runs) && |Lens()| == hlit + hdist
    {
      Lens()[hlit..]
    }
  }

  /** The first `n` lengths of the code length code, three bits each, in storage order. */
  function ClBits(cl: seq<nat>, n: nat): seq<bool>
    requires |cl| == 19 && n <= 19
  {
    if n == 0 then [] else ClBits(cl, n - 1) + Bits(cl[LengthOrder(n - 1)], 3)
  }

  ghost function HeaderBits(h: Header): seq<bool>
    requires h.Valid()
  {
    Bits(h.hlit - 257, 5) + (Bits(h.hdist - 1, 5) + (Bits(h.hclen - 4, 4) + (ClBits(h.cl, h.hclen) + RunsBits(h.cl, [], h.runs))))
  }

  /* ---- blocks ---- */

  /** The code lengths of fixed blocks. */
  const FIXED_LITERAL: seq<nat> := Times(8, 144) + Times(9, 112) + Times(7, 24) + Times(8, 8)
  const FIXED_DISTANCE: seq<nat> := Times(5, 32)

  /** The lengths of fixed blocks by symbol, as section 3.2.6 of RFC 1951 gives them. */
  lemma FixedLengths(i: nat)
    ensures |FIXED_LITERAL| == 288 && |FIXED_DISTANCE| == 32
    ensures i < 288 ==> FIXED_LITERAL[i] == if i <= 143 then 8 else if i <= 255 then 9 else if i <= 279 then 7 else 8
    ensures i < 32 ==> FIXED_DISTANCE[i] == 5
  {
  }

  datatype Block =
    | Stored(pad: seq<bool>, bytes: seq<byte>)
    | Fixed(items: seq<Item>)
    | Dynamic(header: Header, items: seq<Item>)

  /** The block can stand at bit position `p` after `n` bytes of output. */
  ghost predicate BlockValid(b: Block, p: nat, n: nat) {
    match b
    case Stored(pad, bytes) => |pad| < 8 && Aligned(p + 3 + |pad|) && |bytes| < 0x1_0000
    case Fixed(items) => AllEncodable(FIXED_LITERAL, FIXED_DISTANCE, items) && Playable(n, items)
    case Dynamic(h, items) =>
      && h.Valid() && Coded(h.LitLens(), END_OF_BLOCK)
      && AllEncodable(h.LitLens(), h.DistLens(), items) && Playable(n, items)
  }

  function BytesBits(bytes: seq<byte>): (r: seq<bool>)
    ensures |r| == 8 * |bytes|
  {
    if bytes == [] then [] else BytesBits(bytes[..|bytes| - 1]) + Bits(bytes[|bytes| - 1], 8)
  }

  ghost function BodyBits(b: Block, p: nat, n: nat): seq<bool>
    requires BlockValid(b, p, n)
  {
    match b
    case Stored(pad, bytes) => pad + (Bits(|bytes|, 16) + (Bits(0xFFFF - |bytes|, 16) + BytesBits(bytes)))
    case Fixed(items) =>
      FixedEndCoded();
      ItemsBits(FIXED_LITERAL, FIXED_DISTANCE, items)
    case Dynamic(h, items) => HeaderBits(h) + ItemsBits(h.LitLens(), h.DistLens(), items)
  }

  lemma FixedEndCoded()
    ensures |FIXED_LITERAL| == 288 && Coded(FIXED_LITERAL, END_OF_BLOCK)
  {
  }

  function BlockType(b: Block): nat {
    match b
    case Stored(_, _) => 0
    case Fixed(_) => 1
    case Dynamic(_, _) => 2
  }

  ghost function BlockBits(b: Block, final: bool, p: nat, n: nat): seq<bool>
    requires BlockValid(b, p, n)
  {
    [final] + (Bits(BlockType(b), 2) + BodyBits(b, p, n))
  }

  ghost function BlockOut(b: Block, p: nat, out: seq<byte>): (r: seq<byte>)
    requires BlockValid(b, p, |out|)
    ensures |r| >= |out|
  {
    if b.Stored? then out + b.bytes else PlayedAll(out, b.items)
  }

  /** From bit `p` on, `data` holds the blocks `bs`, the last one marked as final; they end at bit `q` and expand `out` to `res`. */
  ghost predicate Holds(data: seq<byte>, p: nat, out: seq<byte>, bs: seq<Block>, q: nat, res: seq<byte>)
    decreases |bs|
  {
    && bs != [] && BlockValid(bs[0], p, |out|)
    && var bits := BlockBits(bs[0], |bs| == 1, p, |out|);
       var next := BlockOut(bs[0], p, out);
       && Found(data, p, bits)
       && if |bs| == 1 then q == p + |bits| && res == next else Holds(data, p + |bits|, next, bs[1..], q, res)
  }
}
