/** A whole zlib stream: header check and the sequence of blocks. */
module Zlib {
  import opened Bytes
  import opened BitStrings
  import opened HuffmanCodes
  import opened Huffman
  import opened Deflate
  import opened Inflate
  import opened DynamicHeader
  import opened Workspace

  /* ---- the codes of fixed blocks ---- */

  lemma {:induction false} KraftTimes(lens: seq<nat>, l: nat, n: nat, unit: nat)
    requires 0 < l <= 15 && unit == Pow2(15 - l)
    ensures Kraft(lens + Times(l, n)) == Kraft(lens) + unit * n
  {
    hide Pow2;
    if n == 0 {
      assert lens + Times(l, 0) == lens;
    } else {
      KraftTimes(lens, l, n - 1, unit);
      var s := lens + Times(l, n);
      assert s[..|s| - 1] == lens + Times(l, n - 1) && s[|s| - 1] == l;
      assert unit * n == unit * (n - 1) + unit;
    }
  }

  /** The fixed codes are complete: their Kraft sum is exactly one. */
  lemma FixedKraft()
    ensures Kraft(FIXED_LITERAL) == Pow2(15) && Kraft(FIXED_DISTANCE) == Pow2(15)
    ensures Short(FIXED_LITERAL) && Short(FIXED_DISTANCE)
  {
    hide Times, Pow2, Kraft, Short;
    Powers();
    NoKraft();
    var a, b, c := Times(8, 144), Times(8, 144) + Times(9, 112), Times(8, 144) + Times(9, 112) + Times(7, 24);
    assert [] + a == a && [] + FIXED_DISTANCE == FIXED_DISTANCE;
    KraftTimes([], 8, 144, 128);
    KraftTimes(a, 9, 112, 64);
    KraftTimes(b, 7, 24, 256);
    KraftTimes(c, 8, 8, 128);
    KraftTimes([], 5, 32, 1024);
    FixedShort();
  }

  lemma NoKraft()
    ensures Kraft([]) == 0
  {
  }

  lemma FixedShort()
    ensures Short(FIXED_LITERAL) && Short(FIXED_DISTANCE)
  {
    hide Times;
  }

  lemma Powers()
    ensures Pow2(6) == 64 && Pow2(7) == 128 && Pow2(8) == 256 && Pow2(10) == 1024 && Pow2(15) == 32768
  {
    Pow2Of8();
    Pow2Of3();
    assert Pow2(7) == 2 * Pow2(6);
    assert Pow2(10) == 4 * Pow2(8);
    assert Pow2(16) == 2 * Pow2(15);
  }

  /** The tables of a fixed block. */
  method FixedTables(a: ZBuf) returns (ok: bool)
    requires a.Output()
    modifies a.zLength.Tables(), a.zDistance.Tables()
    ensures ok && a.Output() && a.TablesReady() && a.zLength.lens == FIXED_LITERAL && a.zDistance.lens == FIXED_DISTANCE
  {
    hide Huffman.Ready, Kraft, Pow2, Times;
    FixedKraft();
    ok := a.zLength.Build(FIXED_LITERAL);
    if ok {
      ok := a.zDistance.Build(FIXED_DISTANCE);
    }
  }

  /* ---- blocks ---- */

  /** The body of block `b`, which starts at bit `p`, comes next. */
  ghost predicate BodyAhead(a: ZBuf, b: Block, p: nat)
    reads a`used, a`n
  {
    a.used == p + 3 && BlockValid(b, p, a.n) && Found(a.data, a.used, BodyBits(b, p, a.n))
  }

  /** The output is as the block demands, or there was not enough memory for it. */
  twostate predicate BlockDone(a: ZBuf, b: Block, p: nat, st: Status)
    requires old(a.n) <= old(a.out).Length && a.n <= a.out.Length && old(BlockValid(b, p, a.n))
    reads a`out, a`n, a`arena, a`used, a.out
  {
    && (st == Done || st == NoMemory) && BlockAfter(old(a.Space()), b) == (if st == Done then a.Space() else NoRoom)
    && (st == Done ==> a.Contents() == BlockOut(b, p, old(a.Contents())) && a.used == old(a.used) + |BodyBits(b, p, old(a.n))|)
  }

  /** The parts of the body of a compressed block. */
  lemma BodyParts(data: seq<byte>, q: nat, b: Block, p: nat, n: nat)
    requires BlockValid(b, p, n) && !b.Stored? && Found(data, q, BodyBits(b, p, n))
    ensures b.Fixed? ==> |BodyBits(b, p, n)| == |ItemsBits(FIXED_LITERAL, FIXED_DISTANCE, b.items)|
                         && ItemsAt(data, FIXED_LITERAL, FIXED_DISTANCE, q, n, b.items)
    ensures b.Dynamic? ==>
      var h, ll, dl := b.header, b.header.LitLens(), b.header.DistLens();
      && Found(data, q, HeaderBits(h)) && |BodyBits(b, p, n)| == |HeaderBits(h)| + |ItemsBits(ll, dl, b.items)|
      && ItemsAt(data, ll, dl, q + |HeaderBits(h)|, n, b.items)
  {
    hide Bits, Window, HeaderBits, ItemsBits, AllEncodable, Playable, Kraft, RunsValid, RunsOut, ClValid, Pow2;
    if b.Dynamic? {
      FoundSplit(data, q, HeaderBits(b.header), ItemsBits(b.header.LitLens(), b.header.DistLens(), b.items));
    } else {
      FixedEndCoded();
    }
  }

  /** The body of block `b`, which starts at bit `p`, was read up to bit `q`; it takes the output from `out` to `res`. */
  ghost predicate BodyGot(data: seq<byte>, b: Block, p: nat, out: seq<byte>, q: nat, res: seq<byte>) {
    && BlockValid(b, p, |out|) && Reads(data, p + 3, BodyBits(b, p, |out|))
    && q == p + 3 + |BodyBits(b, p, |out|)| && res == BlockOut(b, p, out)
  }

  lemma GotStoredBlock(data: seq<byte>, p: nat, out: seq<byte>, pad: seq<bool>, bytes: seq<byte>)
    requires StoredGot(data, p + 3, pad, bytes)
    ensures BodyGot(data, Stored(pad, bytes), p, out, p + 3 + |pad| + 32 + 8 * |bytes|, out + bytes)
  {
    hide Bits, BytesBits, Aligned, Reads;
    assert Aligned(p + 3 + |pad|);
    assert |Bits(|bytes|, 16)| == 16 && |Bits(0xFFFF - |bytes|, 16)| == 16;
  }

  lemma GotFixedBlock(data: seq<byte>, p: nat, out: seq<byte>, items: seq<Item>)
    requires ItemsGot(data, FIXED_LITERAL, FIXED_DISTANCE, p + 3, |out|, items)
    ensures BodyGot(data, Fixed(items), p, out, p + 3 + |ItemsBits(FIXED_LITERAL, FIXED_DISTANCE, items)|, PlayedAll(out, items))
  {
    hide Reads, ItemsBits, AllEncodable, Playable, PlayedAll, Times;
  }

  lemma GotDynamicBlock(data: seq<byte>, p: nat, out: seq<byte>, h: Header, items: seq<Item>, q: nat)
    requires h.Valid() && Reads(data, p + 3, HeaderBits(h)) && q == p + 3 + |HeaderBits(h)|
    requires ItemsGot(data, h.LitLens(), h.DistLens(), q, |out|, items)
    ensures BodyGot(data, Dynamic(h, items), p, out, q + |ItemsBits(h.LitLens(), h.DistLens(), items)|, PlayedAll(out, items))
  {
    hide Reads, HeaderBits, ItemsBits, AllEncodable, Playable, PlayedAll, Kraft, RunsValid, RunsOut, ClValid, Pow2;
    ReadsJoin(data, p + 3, HeaderBits(h), ItemsBits(h.LitLens(), h.DistLens(), items));
  }

  /** The tables of a block with Huffman codes; those of a dynamic one come from its header `h`. */
  method CodedTables(a: ZBuf, ty: nat, ghost b: Block, ghost p: nat) returns (ok: bool, ghost h: Header)
    requires a.Input() && a.Output() && 1 <= ty <= 2 && a.used == p + 3
    modifies a`pos, a`codeBuffer, a`numBits, a`hitEof, a`used, a.zLength.Tables(), a.zDistance.Tables()
    ensures a.Input() && a.Output() && a.used >= old(a.used) && (ok ==> a.TablesReady())
    ensures ok && ty == 1 ==> a.used == old(a.used) && a.zLength.lens == FIXED_LITERAL && a.zDistance.lens == FIXED_DISTANCE
    ensures ok && ty == 2 ==>
      && h.Valid() && Reads(a.data, p + 3, HeaderBits(h)) && a.used == p + 3 + |HeaderBits(h)|
      && a.zLength.lens == h.LitLens() && a.zDistance.lens == h.DistLens()
    ensures ty == BlockType(b) && old(BodyAhead(a, b, p)) ==>
      && ok && ItemsAt(a.data, a.zLength.lens, a.zDistance.lens, a.used, a.n, b.items)
      && old(a.used) + |BodyBits(b, p, a.n)| == a.used + |ItemsBits(a.zLength.lens, a.zDistance.lens, b.items)|
  {
    hide Found, Bits, Window, ZBuf.Input, Huffman.Ready, BodyBits, ItemsBits, HeaderBits, Playable, Header.Valid, BytesBits, Reads, RunsValid, RunsOut,
         Kraft, Pow2, ClValid, Times, Encodable;
    if ty == BlockType(b) && BodyAhead(a, b, p) {
      BodyParts(a.data, a.used, b, p, a.n);
    }
    if ty == 1 {
      ok := FixedTables(a);
      h := Header(0, 0, 0, [], []);
    } else {
      ok, h := ComputeCodes(a, if b.Dynamic? then b.header else Header(0, 0, 0, [], []));
    }
  }

  /** A block with Huffman codes, fixed or dynamic. */
  method ParseCoded(a: ZBuf, ty: nat, ghost b: Block, ghost p: nat) returns (st: Status, ghost got: Block)
    requires a.Input() && a.Output() && 1 <= ty <= 2 && a.used == p + 3
    modifies a`pos, a`codeBuffer, a`numBits, a`hitEof, a`used, a`out, a`n, a`arena, a.out, a.zLength.Tables(), a.zDistance.Tables()
    ensures a.Input() && a.Output() && (a.out == old(a.out) || fresh(a.out))
    ensures st != More && a.used >= old(a.used)
    ensures st == Done ==> BlockType(got) == ty && BodyGot(a.data, got, p, old(a.Contents()), a.used, a.Contents())
    ensures ty == BlockType(b) && old(BodyAhead(a, b, p)) ==> BlockDone(a, b, p, st)
  {
    hide Found, Bits, Window, ZBuf.Input, Huffman.Ready, BodyBits, ItemsAt, ItemsBits, HeaderBits, AllEncodable, Playable, Header.Valid, BytesBits;
    hide BodyGot, ItemsGot, Reads, PlayedAll, Put, ItemsAfter, RunsValid, RunsOut, Kraft, Pow2, ClValid, Times, Coded;
    ghost var c := a.Contents();
    got := Fixed([]);
    ghost var items := if b.Stored? then [] else b.items;
    var ok;
    ghost var h;
    ok, h := CodedTables(a, ty, b, p);
    if !ok {
      return Corrupt, got;
    }
    ghost var q, gotItems := a.used, [];
    st, gotItems := a.ParseHuffmanBlock(items);
    if st == Done {
      if ty == 1 {
        got := Fixed(gotItems);
        GotFixedBlock(a.data, p, c, gotItems);
      } else {
        got := Dynamic(h, gotItems);
        GotDynamicBlock(a.data, p, c, h, gotItems, q);
      }
    }
  }

  /** One block, after its three header bits. */
  method ParseBlock(a: ZBuf, ty: nat, ghost b: Block, ghost p: nat) returns (st: Status, ghost got: Block)
    requires a.Input() && a.Output() && ty < 4 && a.used == p + 3
    modifies a`pos, a`codeBuffer, a`numBits, a`hitEof, a`used, a`out, a`n, a`arena, a.out, a.zLength.Tables(), a.zDistance.Tables()
    ensures a.Input() && a.Output() && (a.out == old(a.out) || fresh(a.out))
    ensures st != More && a.used >= old(a.used) && (ty == 0 && old(a.used) >= 8 * |a.data| ==> st == Corrupt)
    ensures st == Done ==> BlockType(got) == ty && BodyGot(a.data, got, p, old(a.Contents()), a.used, a.Contents())
    ensures ty == BlockType(b) && old(BodyAhead(a, b, p)) ==> BlockDone(a, b, p, st)
  {
    hide Found, Bits, Window, ZBuf.Input, Huffman.Ready, BodyBits, ItemsAt, ItemsBits, HeaderBits, AllEncodable, Playable, Header.Valid, BytesBits;
    hide BodyGot, ItemsGot, StoredGot, Reads, PlayedAll, Put, ItemsAfter;
    ghost var c := a.Contents();
    got := Fixed([]);
    ghost var good := ty == BlockType(b) && BodyAhead(a, b, p);
    if ty == 0 {
      ghost var pad, bytes := if b.Stored? then b.pad else [], if b.Stored? then b.bytes else [];
      if good {
        StoredBody(a.data, a.used, b, p, a.n);
      }
      ghost var gotPad, gotBytes;
      st, gotPad, gotBytes := a.ParseUncompressedBlock(pad, bytes);
      if st == Done {
        got := Stored(gotPad, gotBytes);
        GotStoredBlock(a.data, p, c, gotPad, gotBytes);
      }
    } else if ty == 3 {
      st := Corrupt;
    } else {
      st, got := ParseCoded(a, ty, b, p);
    }
  }

  lemma StoredBody(data: seq<byte>, q: nat, b: Block, p: nat, n: nat)
    requires BlockValid(b, p, n) && b.Stored? && q == p + 3
    ensures BodyBits(b, p, n) == b.pad + (Bits(|b.bytes|, 16) + (Bits(0xFFFF - |b.bytes|, 16) + BytesBits(b.bytes)))
    ensures |BodyBits(b, p, n)| == |b.pad| + 32 + 8 * |b.bytes| && Aligned(q + |b.pad|)
  {
    hide Bits, BytesBits, Aligned;
  }

  /* ---- the stream ---- */

  /** What stbi__parse_zlib_header accepts: a check value, the DEFLATE method, no preset dictionary, and something after it. */
  predicate HeaderOk(data: seq<byte>) {
    && |data| > 2 && (data[0] as int * 256 + data[1]) % 31 == 0
    && data[1] / 32 % 2 == 0 && data[0] % 16 == 8
  }

  /** stbi__parse_zlib_header */
  method ParseHeader(a: ZBuf) returns (ok: bool)
    requires a.pos == 0
    modifies a`pos
    ensures ok <==> HeaderOk(a.data)
    ensures ok ==> a.pos == 2 < |a.data|
  {
    var cmf := a.Get8();
    var cm := cmf % 16;
    var flg := a.Get8();
    var word: int := cmf;
    ok := a.pos < |a.data| && (word * 256 + flg) % 31 == 0 && flg / 32 % 2 == 0 && cm == 8;
  }

  /** The three header bits of a block, and that its body comes next if the blocks `bs` do. */
  lemma BlockHeader(data: seq<byte>, p: nat, out: seq<byte>, bs: seq<Block>, q: nat, res: seq<byte>, f: nat, ty: nat)
    requires Holds(data, p, out, bs, q, res) && f < 2 && ty < 4
    requires Bits(f, 1) == Window(data, p, 1) && Bits(ty, 2) == Window(data, p + 1, 2)
    ensures bs != [] && BlockValid(bs[0], p, |out|) && (f == 1 <==> |bs| == 1) && ty == BlockType(bs[0])
    ensures Found(data, p + 3, BodyBits(bs[0], p, |out|))
    ensures |res| >= |BlockOut(bs[0], p, out)|
    ensures var r := p + 3 + |BodyBits(bs[0], p, |out|)|;
            if |bs| == 1 then q == r && res == BlockOut(bs[0], p, out)
            else Holds(data, r, BlockOut(bs[0], p, out), bs[1..], q, res)
  {
    hide BlockValid, BodyBits, BlockOut;
    var b, x := bs[0], BodyBits(bs[0], p, |out|);
    HoldsGrows(data, p, out, bs, q, res);
    FoundSplit(data, p, [|bs| == 1], Bits(BlockType(b), 2) + x);
    FoundSplit(data, p + 1, Bits(BlockType(b), 2), x);
    OneBit(f, |bs| == 1);
    Pow2Of3();
    BitsEqual(ty, BlockType(b), 2);
  }

  lemma OneBit(f: nat, b: bool)
    requires f < 2 && Bits(f, 1) == [b]
    ensures f == 1 <==> b
  {
    assert Bits(f, 1)[0] == (f % 2 == 1);
  }

  lemma {:induction false} HoldsGrows(data: seq<byte>, p: nat, out: seq<byte>, bs: seq<Block>, q: nat, res: seq<byte>)
    requires Holds(data, p, out, bs, q, res)
    ensures bs != [] && BlockValid(bs[0], p, |out|) && |res| >= |BlockOut(bs[0], p, out)|
    decreases |bs|
  {
    hide BlockValid, BlockBits, BlockOut, Found;
    if |bs| > 1 {
      HoldsGrows(data, p + |BlockBits(bs[0], false, p, |out|)|, BlockOut(bs[0], p, out), bs[1..], q, res);
    }
  }

  /** The blocks `bs` come next. */
  /** The header test in bits: compression method 8, no preset dictionary, and a multiple of 31 in all. */
  lemma HeaderByBits(data: seq<byte>, cmf: bv8, flg: bv8)
    requires |data| >= 2 && data[0] == cmf as int && data[1] == flg as int
    ensures HeaderOk(data) <==> |data| >= 3 && cmf & 15 == 8 && flg & 32 == 0 && (256 * cmf as int + flg as int) % 31 == 0
  {
    var x: int, y: int := data[0], data[1];
    assert x % 16 == 8 <==> cmf & 15 == 8 by {
      MethodBits(cmf);
    }
    assert y / 32 % 2 == 0 <==> flg & 32 == 0 by {
      DictionaryBit(flg);
    }
    assert HeaderOk(data) <==> |data| > 2 && (256 * x + y) % 31 == 0 && y / 32 % 2 == 0 && x % 16 == 8;
  }

  lemma MethodBits(cmf: bv8)
    ensures cmf as int % 16 == 8 <==> cmf & 15 == 8
  {
  }

  lemma DictionaryBit(flg: bv8)
    ensures flg as int / 32 % 2 == 0 <==> flg & 32 == 0
  {
  }

  ghost predicate BlocksAhead(a: ZBuf, bs: seq<Block>, q: nat, res: seq<byte>)
    requires a.n <= a.out.Length
    reads a`used, a`out, a`n, a.out
  {
    Holds(a.data, a.used, a.Contents(), bs, q, res)
  }

  /** Block `b`, final or not, was read from `p` to `q`; it takes the output from `out` to `res`. */
  ghost predicate BlockGot(data: seq<byte>, b: Block, final: bool, p: nat, out: seq<byte>, q: nat, res: seq<byte>) {
    && BlockValid(b, p, |out|) && Reads(data, p, BlockBits(b, final, p, |out|))
    && q == p + |BlockBits(b, final, p, |out|)| && res == BlockOut(b, p, out)
  }

  lemma GotBlock(data: seq<byte>, b: Block, f: nat, p: nat, out: seq<byte>, q: nat, res: seq<byte>)
    requires BodyGot(data, b, p, out, q, res) && f < 2
    requires Bits(f, 1) == Window(data, p, 1) && Bits(BlockType(b), 2) == Window(data, p + 1, 2)
    ensures BlockGot(data, b, f == 1, p, out, q, res)
  {
    hide BlockValid, BodyBits, BlockOut, Window;
    var x := BodyBits(b, p, |out|);
    assert Bits(f, 1) == [f == 1];
    ReadsJoin(data, p + 1, Bits(BlockType(b), 2), x);
    ReadsJoin(data, p, [f == 1], Bits(BlockType(b), 2) + x);
  }

  /** The blocks read from `p` to `q`, of which only the last may be the final one; they take the output from `out` to `res`. */
  ghost predicate BlocksGot(data: seq<byte>, p: nat, out: seq<byte>, bs: seq<Block>, ended: bool, q: nat, res: seq<byte>)
    decreases |bs|
  {
    if bs == [] then !ended && p == q && out == res
    else
      var last := |bs| == 1 && ended;
      && BlockValid(bs[0], p, |out|)
      && var r, next := p + |BlockBits(bs[0], last, p, |out|)|, BlockOut(bs[0], p, out);
         && BlockGot(data, bs[0], last, p, out, r, next)
         && if last then r == q && next == res else BlocksGot(data, r, next, bs[1..], ended, q, res)
  }

  lemma {:induction false} BlocksOneMore(data: seq<byte>, p: nat, out: seq<byte>, bs: seq<Block>, b: Block, final: bool, q: nat, res: seq<byte>, r: nat, next: seq<byte>)
    requires BlocksGot(data, p, out, bs, false, q, res) && BlockGot(data, b, final, q, res, r, next)
    ensures BlocksGot(data, p, out, bs + [b], final, r, next)
    decreases |bs|
  {
    hide BlockBits, BlockOut, BlockValid, Reads;
    var more := bs + [b];
    if bs == [] {
      assert more[1..] == [];
    } else {
      assert more[1..] == bs[1..] + [b];
      BlocksOneMore(data, p + |BlockBits(bs[0], false, p, |out|)|, BlockOut(bs[0], p, out), bs[1..], b, final, q, res, r, next);
    }
  }

  /** Blocks read to the final one are blocks that the extended input holds. */
  lemma {:induction false} GotHolds(data: seq<byte>, p: nat, out: seq<byte>, bs: seq<Block>, q: nat, res: seq<byte>, k: nat)
    requires BlocksGot(data, p, out, bs, true, q, res) && q <= 8 * (|data| + k)
    ensures bs != [] && p <= q && Holds(Extended(data, k), p, out, bs, q, res)
    decreases |bs|
  {
    hide BlockBits, BlockOut, BlockValid, Reads, Found, Extended;
    var last := |bs| == 1;
    var bits := BlockBits(bs[0], last, p, |out|);
    if !last {
      GotHolds(data, p + |bits|, BlockOut(bs[0], p, out), bs[1..], q, res, k);
    }
    ReadsExtended(data, k, p, bits);
  }

  /** How many zero bytes past the end of the input were read. */
  function Overrun(data: seq<byte>, used: nat): (k: nat)
    ensures used <= 8 * (|data| + k) && (used <= 8 * |data| ==> k == 0)
  {
    if used <= 8 * |data| then 0 else (used - 8 * |data| + 7) / 8
  }

  /** The header bits and the body of one block. */
  method BlockStep(a: ZBuf, ghost bs: seq<Block>, ghost q: nat, ghost res: seq<byte>) returns (st: Status, ghost got: Block)
    requires a.Input() && a.Output()
    modifies a`pos, a`codeBuffer, a`numBits, a`hitEof, a`used, a`out, a`n, a`arena, a.out, a.zLength.Tables(), a.zDistance.Tables()
    ensures a.Input() && a.Output() && (a.out == old(a.out) || fresh(a.out))
    ensures st == More ==> a.used > old(a.used) && old(a.used) < 8 * |a.data|
    ensures st == More || st == Done ==> BlockGot(a.data, got, st == Done, old(a.used), old(a.Contents()), a.used, a.Contents())
    ensures old(BlocksAhead(a, bs, q, res)) ==>
      && bs != [] && BlockAfter(old(a.Space()), bs[0]) == (if st == NoMemory then NoRoom else a.Space())
      && (|| (st == More && |bs| > 1 && BlocksAhead(a, bs[1..], q, res))
          || (st == Done && |bs| == 1 && a.used == q && a.Contents() == res)
          || st == NoMemory)
  {
    hide ZBuf.Input, Holds, BlockValid, BodyBits, BlockOut, Bits, Window, Found, Pow2, BodyGot, BlockGot;
    ghost var good, p, c := BlocksAhead(a, bs, q, res), a.used, a.Contents();
    Pow2Of3();
    Pow2Of1();
    var final := a.Receive(1);
    var ty := a.Receive(2);
    ghost var b := if bs == [] then Fixed([]) else bs[0];
    if good {
      BlockHeader(a.data, p, c, bs, q, res, final, ty);
    }
    ZeroType(a.data, p, ty);
    st, got := ParseBlock(a, ty, b, p);
    if st == Done {
      GotBlock(a.data, got, final, p, c, a.used, a.Contents());
    }
    if st == Done && final == 0 {
      st := More;
    }
  }

  lemma Pow2Of1()
    ensures Pow2(1) == 2
  {
  }

  /** Past the end of the input every block is a stored one. */
  lemma ZeroType(data: seq<byte>, p: nat, ty: nat)
    requires ty < 4 && Bits(ty, 2) == Window(data, p + 1, 2)
    ensures p >= 8 * |data| ==> ty == 0
  {
    if p >= 8 * |data| {
      PastEnd(data, p + 1, 2);
      Pow2Of3();
      BitsEqual(ty, 0, 2);
    }
  }

  /** The loop of stbi__parse_zlib over the blocks. */
  method ParseBlocks(a: ZBuf, ghost bs: seq<Block>, ghost q: nat, ghost res: seq<byte>) returns (st: Status, ghost got: seq<Block>)
    requires a.Input() && a.Output() && a.n == 0
    modifies a`pos, a`codeBuffer, a`numBits, a`hitEof, a`used, a`out, a`n, a`arena, a.out, a.zLength.Tables(), a.zDistance.Tables()
    ensures a.Output() && st != More
    ensures st == Done ==> BlocksGot(a.data, old(a.used), [], got, true, a.used, a.Contents())
    ensures old(BlocksAhead(a, bs, q, res)) ==>
      && BlocksAfter(old(a.Space()), bs) == (if st == Done then a.Space() else NoRoom)
      && (if st == Done then a.Contents() == res && a.used == q else st == NoMemory)
  {
    hide ZBuf.Input, Holds, BlockGot, BlockAfter;
    got := [];
    ghost var todo, good, s1 := bs, BlocksAhead(a, bs, q, res), BlocksAfter(a.Space(), bs);
    while true
      invariant a.Input() && a.Output() && (a.out == old(a.out) || fresh(a.out))
      invariant good ==> BlocksAhead(a, todo, q, res) && BlocksAfter(a.Space(), todo) == s1
      invariant BlocksGot(a.data, old(a.used), [], got, false, a.used, a.Contents())
      decreases if a.used < 8 * |a.data| then 8 * |a.data| - a.used else 0
    {
      ghost var p, c, s := a.used, a.Contents(), a.Space();
      ghost var b;
      st, b := BlockStep(a, todo, q, res);
      if good {
        BlocksEnd(s, todo);
      }
      if st == More || st == Done {
        BlocksOneMore(a.data, old(a.used), [], got, b, st == Done, p, c, a.used, a.Contents());
        got := got + [b];
      }
      if st != More {
        return;
      }
      if good {
        todo := todo[1..];
      }
    }
  }

  /**
   * stbi__parse_zlib: whatever blocks the input holds, the output is their expansion, exactly if the workspace has room for them;
   * and whenever it ends well, the output is the expansion of blocks that the input, followed by the zeros that were read past its
   * end, holds.
   */
  method ParseZlib(a: ZBuf, parseHeader: bool, ghost bs: seq<Block>, ghost q: nat, ghost res: seq<byte>) returns (st: Status, ghost got: seq<Block>)
    requires a.Input() && a.Output() && a.pos == 0 && a.used == 0 && a.n == 0
    modifies a`pos, a`codeBuffer, a`numBits, a`hitEof, a`used, a`out, a`n, a`arena, a.out, a.zLength.Tables(), a.zDistance.Tables()
    ensures a.Output() && st != More
    ensures parseHeader && !HeaderOk(a.data) ==> st == Corrupt
    ensures st == Done ==>
      && (parseHeader ==> HeaderOk(a.data))
      && Holds(Extended(a.data, Overrun(a.data, a.used)), if parseHeader then 16 else 0, [], got, a.used, a.Contents())
    ensures (!parseHeader || HeaderOk(a.data)) && Holds(a.data, if parseHeader then 16 else 0, [], bs, q, res) ==>
      && BlocksAfter(old(a.Space()), bs) == (if st == Done then a.Space() else NoRoom)
      && (if st == Done then a.Contents() == res && a.used == q else st == NoMemory && Exceeds(old(a.Space()), |res|))
  {
    hide Holds, HeaderOk, Bits, Window, Pow2, Aligned, BlocksGot, Extended, Overrun, BlocksAfter, Exceeds;
    var start := 0;
    got := [];
    if parseHeader {
      var ok := ParseHeader(a);
      if !ok {
        return Corrupt, got;
      }
      start := 2;
    }
    Restart(a.data, start);
    a.numBits, a.codeBuffer, a.hitEof, a.used := 0, 0, false, 8 * start;
    NoRoomBound(a.Space(), a.data, 8 * start, bs, q, res);
    assert a.Contents() == [];
    st, got := ParseBlocks(a, bs, q, res);
    if st == Done {
      GotHolds(a.data, 8 * start, [], got, a.used, a.Contents(), Overrun(a.data, a.used));
    }
  }

  /** Blocks that find no room exceed the simple bound. */
  lemma NoRoomBound(s: Space, data: seq<byte>, p: nat, bs: seq<Block>, q: nat, res: seq<byte>)
    requires s.Valid() && s.n == 0
    ensures Holds(data, p, [], bs, q, res) && BlocksAfter(s, bs).NoRoom? ==> Exceeds(s, |res|)
  {
    hide Holds, BlocksAfter, BlocksSize;
    if Holds(data, p, [], bs, q, res) {
      BlocksGrew(s, bs);
      HoldsSize(data, p, [], bs, q, res);
    }
  }

  /** The last block decides, and so does one that finds no room. */
  lemma BlocksEnd(s: Space, bs: seq<Block>)
    requires bs != []
    ensures |bs| == 1 || BlockAfter(s, bs[0]) == NoRoom ==> BlocksAfter(s, bs) == BlockAfter(s, bs[0])
  {
    hide BlockAfter;
    if |bs| > 1 {
      BlocksNoRoom(bs[1..]);
    }
  }

  lemma Restart(data: seq<byte>, start: nat)
    ensures Bits(0, 0) == Window(data, 8 * start, 0) && Pow2(0) == 1 && Aligned(8 * start)
  {
  }
}
