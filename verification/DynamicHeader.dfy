/** The header of a dynamic block: code length codes and runs of code lengths. */
module DynamicHeader {
  import opened Bytes
  import opened BitStrings
  import opened HuffmanCodes
  import opened Huffman
  import opened Deflate
  import opened Inflate

  /* ---- the code length code ---- */

  /** Where the length of symbol `k` is stored. */
  function LengthPlace(k: nat): (j: nat)
    requires k < 19
    ensures j < 19 && LengthOrder(j) == k
  {
    [3, 17, 15, 13, 11, 9, 7, 5, 4, 6, 8, 10, 12, 14, 16, 18, 0, 1, 2][k]
  }

  lemma PlaceOfOrder(j: nat)
    requires j < 19
    ensures LengthPlace(LengthOrder(j)) == j
  {
  }

  lemma {:induction false} ClPrefix(data: seq<byte>, p: nat, cl: seq<nat>, i: nat, n: nat)
    requires |cl| == 19 && i < n <= 19 && Found(data, p, ClBits(cl, n))
    ensures |ClBits(cl, i)| == 3 * i && Found(data, p + 3 * i, Bits(cl[LengthOrder(i)], 3))
  {
    hide Bits, Window, LengthOrder;
    ClSize(cl, n - 1);
    ClSize(cl, i);
    FoundSplit(data, p, ClBits(cl, n - 1), Bits(cl[LengthOrder(n - 1)], 3));
    if i < n - 1 {
      ClPrefix(data, p, cl, i, n - 1);
    }
  }

  lemma {:induction false} ClSize(cl: seq<nat>, n: nat)
    requires |cl| == 19 && n <= 19
    ensures |ClBits(cl, n)| == 3 * n
  {
    hide LengthOrder;
    if n > 0 {
      ClSize(cl, n - 1);
    }
  }

  /** What has been read of the code length code: the lengths stored so far, zero for the others. */
  ghost predicate ClRead(sizes: seq<nat>, cl: seq<nat>, i: nat) {
    && |sizes| == 19 && |cl| == 19
    && forall k :: 0 <= k < 19 ==> sizes[k] == if LengthPlace(k) < i then cl[k] else 0
  }

  lemma ClReadStep(sizes: seq<nat>, cl: seq<nat>, i: nat, s: nat)
    requires ClRead(sizes, cl, i) && i < 19 && s == cl[LengthOrder(i)]
    ensures ClRead(sizes[LengthOrder(i) := s], cl, i + 1)
  {
    hide LengthOrder, LengthPlace;
    PlaceOfOrder(i);
  }

  lemma ClReadAll(sizes: seq<nat>, cl: seq<nat>, n: nat)
    requires ClRead(sizes, cl, n) && n <= 19 && ClValid(cl, n)
    ensures sizes == cl
  {
    hide LengthOrder, LengthPlace;
    forall k | 0 <= k < 19 ensures sizes[k] == cl[k] {
      var j := LengthPlace(k);
      assert n <= j ==> cl[LengthOrder(j)] == 0;
    }
  }

  /** The first `i` stored lengths were read at `p`; the others are still zero. */
  ghost predicate ClGot(data: seq<byte>, p: nat, sizes: seq<nat>, i: nat) {
    && |sizes| == 19 && i <= 19 && Reads(data, p, ClBits(sizes, i))
    && (forall k :: 0 <= k < 19 ==> sizes[k] < 8) && forall j :: i <= j < 19 ==> sizes[LengthOrder(j)] == 0
  }

  lemma {:induction false} ClUnchanged(sizes: seq<nat>, i: nat, n: nat, s: nat)
    requires |sizes| == 19 && n <= i < 19
    ensures ClBits(sizes[LengthOrder(i) := s], n) == ClBits(sizes, n)
  {
    hide LengthOrder, LengthPlace, Bits;
    if n > 0 {
      ClUnchanged(sizes, i, n - 1, s);
      PlaceOfOrder(n - 1);
      PlaceOfOrder(i);
    }
  }

  lemma ClGotStep(data: seq<byte>, p: nat, sizes: seq<nat>, i: nat, s: nat)
    requires ClGot(data, p, sizes, i) && i < 19 && s < 8 && Bits(s, 3) == Window(data, p + 3 * i, 3)
    ensures ClGot(data, p, sizes[LengthOrder(i) := s], i + 1)
  {
    hide LengthOrder, LengthPlace, Bits, Window;
    ClSize(sizes, i);
    ClUnchanged(sizes, i, i, s);
    ReadsJoin(data, p, ClBits(sizes, i), Bits(s, 3));
    forall j | i + 1 <= j < 19 ensures sizes[LengthOrder(i) := s][LengthOrder(j)] == 0 {
      PlaceOfOrder(i);
      PlaceOfOrder(j);
    }
  }

  lemma NothingGot(data: seq<byte>, p: nat, sizes: seq<nat>)
    requires |sizes| == 19 && forall k :: 0 <= k < 19 ==> sizes[k] == 0
    ensures ClGot(data, p, sizes, 0)
  {
    hide LengthOrder;
  }

  /** The loop over the stored lengths. */
  method ReadClSizes(a: ZBuf, hclen: nat, ghost cl: seq<nat>) returns (sizes: array<nat>)
    requires a.Input() && hclen <= 19
    modifies a`pos, a`codeBuffer, a`numBits, a`used
    ensures a.Input() && a.used == old(a.used) + 3 * hclen
    ensures fresh(sizes) && sizes.Length == 19 && forall k :: 0 <= k < 19 ==> sizes[k] < 8
    ensures ClGot(a.data, old(a.used), sizes[..], hclen)
    ensures ClValid(cl, hclen) && Found(a.data, old(a.used), ClBits(cl, hclen)) ==> sizes[..] == cl
  {
    hide Bits, Window, Pow2, Found, LengthOrder, LengthPlace, ClBits, ClRead, Aligned, ClGot;
    sizes := new nat[19](_ => 0);
    ghost var p := a.used;
    NothingGot(a.data, p, sizes[..]);
    ghost var good := ClValid(cl, hclen) && Found(a.data, p, ClBits(cl, hclen));
    if good {
      NothingRead(sizes[..], cl);
    }
    for i := 0 to hclen
      invariant a.Input() && a.used == p + 3 * i
      invariant forall k :: 0 <= k < 19 ==> sizes[k] < 8
      invariant ClGot(a.data, p, sizes[..], i)
      invariant good ==> ClRead(sizes[..], cl, i)
    {
      var s := a.Receive(3);
      Pow2Of3();
      if good {
        ClPrefix(a.data, p, cl, i, hclen);
        SameBits(a.data, p + 3 * i, s, cl[LengthOrder(i)], 3);
        ClReadStep(sizes[..], cl, i, s);
      }
      ClGotStep(a.data, p, sizes[..], i, s);
      sizes[LengthOrder(i)] := s;
    }
    if good {
      ClReadAll(sizes[..], cl, hclen);
    }
  }

  lemma NothingRead(sizes: seq<nat>, cl: seq<nat>)
    requires |sizes| == 19 && |cl| == 19 && forall k :: 0 <= k < 19 ==> sizes[k] == 0
    ensures ClRead(sizes, cl, 0)
  {
    hide LengthOrder, LengthPlace;
  }

  lemma Pow2Of3()
    ensures Pow2(2) == 4 && Pow2(3) == 8 && Pow2(4) == 16 && Pow2(5) == 32 && Pow2(7) == 128
  {
    assert Pow2(1) == 2;
    assert Pow2(2) == 4;
    assert Pow2(3) == 2 * Pow2(2);
    assert Pow2(5) == 4 * Pow2(3);
    assert Pow2(7) == 4 * Pow2(5);
  }

  /* ---- runs of code lengths ---- */

  /** The runs `runs`, after the lengths `lens`, stand at `p`. */
  ghost predicate RunsAt(data: seq<byte>, p: nat, cl: seq<nat>, lens: seq<nat>, runs: seq<Run>) {
    RunsValid(cl, lens, runs) && Found(data, p, RunsBits(cl, lens, runs))
  }

  lemma RunsUnfold(cl: seq<nat>, lens: seq<nat>, runs: seq<Run>)
    requires RunsValid(cl, lens, runs) && runs != []
    ensures var r := runs[0];
            && r.Valid() && Coded(cl, r.Symbol()) && (r.Repeat? ==> lens != []) && RunsValid(cl, Lengthened(lens, r), runs[1..])
            && RunsOut(cl, lens, runs) == RunsOut(cl, Lengthened(lens, r), runs[1..])
            && RunsBits(cl, lens, runs) == (Codeword(cl, r.Symbol()) + r.Extra()) + RunsBits(cl, Lengthened(lens, r), runs[1..])
  {
    hide Bits, Codeword, Lengthened, Run.Extra, Run.Symbol, Run.Valid;
  }

  /** The first run, its place and the rest. */
  lemma RunThenRest(data: seq<byte>, p: nat, cl: seq<nat>, lens: seq<nat>, runs: seq<Run>)
    requires RunsAt(data, p, cl, lens, runs) && runs != []
    ensures var r := runs[0];
            && r.Valid() && Coded(cl, r.Symbol()) && (r.Repeat? ==> lens != [])
            && Found(data, p, Codeword(cl, r.Symbol())) && p <= 8 * |data|
            && var q := p + cl[r.Symbol()];
               && Found(data, q, r.Extra())
               && RunsAt(data, q + |r.Extra()|, cl, Lengthened(lens, r), runs[1..])
               && RunsOut(cl, lens, runs) == RunsOut(cl, Lengthened(lens, r), runs[1..])
               && |RunsBits(cl, lens, runs)| == cl[r.Symbol()] + |r.Extra()| + |RunsBits(cl, Lengthened(lens, r), runs[1..])|
  {
    hide Bits, Window, Codeword, Lengthened, Run.Extra, Run.Symbol, Run.Valid, RunsValid, RunsOut, RunsBits;
    RunsUnfold(cl, lens, runs);
    var r := runs[0];
    var x, y := Codeword(cl, r.Symbol()), r.Extra();
    FoundSplit(data, p, x + y, RunsBits(cl, Lengthened(lens, r), runs[1..]));
    FoundSplit(data, p, x, y);
  }

  /** What the extra bits of a run tell, given its symbol. */
  lemma ExtraTells(data: seq<byte>, q: nat, r: Run, k: nat, e: nat)
    requires r.Valid() && Found(data, q, r.Extra()) && k < Pow2(e) && Bits(k, e) == Window(data, q, e)
    requires match r case One(_) => e == 0 case Repeat(_) => e == 2 case Zeros(_) => e == 3 case ManyZeros(_) => e == 7
    ensures |r.Extra()| == e
    ensures match r case One(_) => true case Repeat(n) => n == k + 3 case Zeros(n) => n == k + 3 case ManyZeros(n) => n == k + 11
  {
    hide Bits, Window, Pow2;
    Pow2Of3();
    match r
    case One(_) =>
    case Repeat(n) => SameBits(data, q, k, n - 3, 2);
    case Zeros(n) => SameBits(data, q, k, n - 3, 3);
    case ManyZeros(n) => SameBits(data, q, k, n - 11, 7);
  }

  /** A run symbol has been read: the run it starts, or no run if a repetition has nothing to repeat. */
  method ReadRun(a: ZBuf, c: nat, lens: seq<nat>, ghost run: Run) returns (ok: bool, fill: nat, k: nat, ghost got: Run)
    requires a.Input() && c < 19
    modifies a`pos, a`codeBuffer, a`numBits, a`used
    ensures a.Input() && a.used >= old(a.used)
    ensures ok ==> 0 < k <= 138 && (c < 16 ==> fill == c) && (c == 16 ==> lens != [] && fill == lens[|lens| - 1]) && (c > 16 ==> fill == 0)
    ensures ok ==>
      && got.Valid() && got.Symbol() == c && (got.Repeat? ==> lens != []) && Reads(a.data, old(a.used), got.Extra())
      && a.used == old(a.used) + |got.Extra()| && lens + Times(fill, k) == Lengthened(lens, got)
    ensures run.Valid() && run.Symbol() == c && (run.Repeat? ==> lens != []) && Found(a.data, old(a.used), run.Extra()) ==>
      ok && a.used == old(a.used) + |run.Extra()| && lens + Times(fill, k) == Lengthened(lens, run)
  {
    hide Bits, Window, Pow2, Found, Aligned;
    ghost var good := run.Valid() && run.Symbol() == c && (run.Repeat? ==> lens != []) && Found(a.data, a.used, run.Extra());
    ghost var p := a.used;
    ghost var e := if c < 16 then 0 else if c == 16 then 2 else if c == 17 then 3 else 7;
    ok, fill, k, got := true, 0, 0, One(0);
    var x := 0;
    Pow2Of3();
    EmptyBits(a.data, p);
    if c < 16 {
      fill, k := c, 1;
    } else if c == 16 {
      x := a.Receive(2);
      k := x + 3;
      if lens == [] {
        return false, 0, 0, got;
      }
      fill := lens[|lens| - 1];
    } else if c == 17 {
      x := a.Receive(3);
      k := x + 3;
    } else {
      x := a.Receive(7);
      k := x + 11;
    }
    got := if c < 16 then One(c) else if c == 16 then Repeat(k) else if c == 17 then Zeros(k) else ManyZeros(k);
    assert c < 16 ==> Times(c, 1) == [c];
    if good {
      ExtraTells(a.data, p, run, x, e);
    }
  }

  lemma EmptyBits(data: seq<byte>, p: nat)
    ensures Bits(0, 0) == Window(data, p, 0) && 0 < Pow2(0)
  {
  }

  function RunBits(cl: seq<nat>, r: Run): seq<bool>
    requires r.Valid() && Coded(cl, r.Symbol())
  {
    Codeword(cl, r.Symbol()) + r.Extra()
  }

  /** The run `r` was read at `p`, after the lengths `lens`. */
  ghost predicate RunGot(data: seq<byte>, p: nat, cl: seq<nat>, lens: seq<nat>, r: Run) {
    r.Valid() && Coded(cl, r.Symbol()) && (r.Repeat? ==> lens != []) && Reads(data, p, RunBits(cl, r))
  }

  /** The runs read from `p` to `q`; they tell the lengths `lens`. */
  ghost predicate RunsGot(data: seq<byte>, p: nat, cl: seq<nat>, runs: seq<Run>, q: nat, lens: seq<nat>) {
    && RunsValid(cl, [], runs) && RunsOut(cl, [], runs) == lens
    && Reads(data, p, RunsBits(cl, [], runs)) && q == p + |RunsBits(cl, [], runs)|
  }

  lemma {:induction false} RunsOneMore(cl: seq<nat>, lens: seq<nat>, runs: seq<Run>, r: Run)
    requires RunsValid(cl, lens, runs) && r.Valid() && Coded(cl, r.Symbol()) && (r.Repeat? ==> RunsOut(cl, lens, runs) != [])
    ensures RunsValid(cl, lens, runs + [r]) && RunsOut(cl, lens, runs + [r]) == Lengthened(RunsOut(cl, lens, runs), r)
    ensures RunsBits(cl, lens, runs + [r]) == RunsBits(cl, lens, runs) + RunBits(cl, r)
    decreases |runs|
  {
    hide Codeword, Lengthened, Run.Extra, Run.Symbol, Run.Valid, Coded;
    var more := runs + [r];
    if runs == [] {
      assert more[1..] == [];
    } else {
      assert more[1..] == runs[1..] + [r];
      RunsOneMore(cl, Lengthened(lens, runs[0]), runs[1..], r);
    }
  }

  lemma RunsGotMore(data: seq<byte>, p: nat, cl: seq<nat>, runs: seq<Run>, q: nat, lens: seq<nat>, r: Run)
    requires RunsGot(data, p, cl, runs, q, lens) && RunGot(data, q, cl, lens, r)
    ensures RunsGot(data, p, cl, runs + [r], q + |RunBits(cl, r)|, Lengthened(lens, r))
  {
    hide RunBits, Lengthened, RunsOut, RunsValid, RunsBits, Reads, Run.Valid, Run.Symbol, Coded;
    RunsOneMore(cl, [], runs, r);
    ReadsJoin(data, p, RunsBits(cl, [], runs), RunBits(cl, r));
  }

  /** One turn of the loop that reads the code lengths. */
  method RunStep(a: ZBuf, zc: Huffman, ntot: nat, lens: seq<nat>, ghost todo: seq<Run>) returns (ok: bool, more: seq<nat>, ghost got: Run)
    requires a.Input() && zc.Ready() && |zc.lens| == 19 && Short(lens) && |lens| < ntot
    modifies a`pos, a`codeBuffer, a`numBits, a`hitEof, a`used
    ensures a.Input() && zc.Ready() && a.used >= old(a.used)
    ensures ok ==> |lens| < |more| <= ntot && Short(more)
    ensures ok ==> RunGot(a.data, old(a.used), zc.lens, lens, got) && more == Lengthened(lens, got) && a.used == old(a.used) + |RunBits(zc.lens, got)|
    ensures todo != [] && RunsAt(a.data, old(a.used), zc.lens, lens, todo) && |RunsOut(zc.lens, lens, todo)| <= ntot ==>
      && ok && more == Lengthened(lens, todo[0]) && RunsAt(a.data, a.used, zc.lens, more, todo[1..])
      && a.used + |RunsBits(zc.lens, more, todo[1..])| == old(a.used) + |RunsBits(zc.lens, lens, todo)|
      && RunsOut(zc.lens, more, todo[1..]) == RunsOut(zc.lens, lens, todo)
  {
    hide Bits, Window, Pow2, Found, Aligned, Starts, Codeword, Huffman.Ready, RunsAt, RunsValid, RunsOut, RunsBits, Lengthened, Times;
    hide Run.Valid, Run.Symbol, Run.Extra;
    ghost var p, cl := a.used, zc.lens;
    ghost var good := todo != [] && RunsAt(a.data, p, cl, lens, todo) && RunsEnd(cl, lens, todo) <= ntot;
    ghost var run := if todo == [] then One(0) else todo[0];
    if good {
      RunThenRest(a.data, p, cl, lens, todo);
    }
    ok, more, got := false, lens, One(0);
    var c := a.Decode(zc);
    if good {
      NextReady(zc, a.data, p, run.Symbol(), c);
    }
    if c < 0 || c >= 19 {
      return;
    }
    GotCode(a.data, cl, p, c);
    var fill, k;
    ok, fill, k, got := ReadRun(a, c, lens, run);
    if !ok {
      return;
    }
    if ntot - |lens| < k {
      ok := false;
      return;
    }
    more := lens + Times(fill, k);
    ShortTimes(lens, fill, k);
    ReadsJoin(a.data, p, Codeword(cl, c), got.Extra());
  }

  ghost function RunsEnd(cl: seq<nat>, lens: seq<nat>, runs: seq<Run>): nat {
    if RunsValid(cl, lens, runs) then |RunsOut(cl, lens, runs)| else 0
  }

  lemma ShortTimes(lens: seq<nat>, fill: nat, k: nat)
    requires Short(lens) && (fill < 16 || k == 0)
    ensures Short(lens + Times(fill, k))
  {
  }

  /** The loop that reads all code lengths. */
  method ReadRuns(a: ZBuf, zc: Huffman, ntot: nat, ghost runs: seq<Run>) returns (ok: bool, lens: seq<nat>, ghost got: seq<Run>)
    requires a.Input() && zc.Ready() && |zc.lens| == 19
    modifies a`pos, a`codeBuffer, a`numBits, a`hitEof, a`used
    ensures a.Input() && zc.Ready() && a.used >= old(a.used)
    ensures ok ==> |lens| == ntot && Short(lens)
    ensures ok ==> RunsGot(a.data, old(a.used), zc.lens, got, a.used, lens)
    ensures RunsAt(a.data, old(a.used), zc.lens, [], runs) && |RunsOut(zc.lens, [], runs)| == ntot ==>
      ok && lens == RunsOut(zc.lens, [], runs) && a.used == old(a.used) + |RunsBits(zc.lens, [], runs)|
  {
    hide Found, Huffman.Ready, ZBuf.Input, Lengthened, RunGot, RunsGot;
    ghost var p, cl := a.used, zc.lens;
    ghost var good := RunsAt(a.data, p, cl, [], runs) && |RunsOut(cl, [], runs)| == ntot;
    ghost var todo := runs;
    lens, ok, got := [], true, [];
    NoRuns(a.data, p, cl);
    while |lens| < ntot
      invariant a.Input() && zc.Ready() && a.used >= p && Short(lens) && |lens| <= ntot
      invariant good ==> RunsAt(a.data, a.used, cl, lens, todo) && RunsOut(cl, lens, todo) == RunsOut(cl, [], runs)
      invariant good ==> a.used + |RunsBits(cl, lens, todo)| == p + |RunsBits(cl, [], runs)|
      invariant RunsGot(a.data, p, cl, got, a.used, lens)
      decreases ntot - |lens|
    {
      ghost var q, run, prior := a.used, One(0), lens;
      ok, lens, run := RunStep(a, zc, ntot, lens, todo);
      if !ok {
        return;
      }
      RunsGotMore(a.data, p, cl, got, q, prior, run);
      got := got + [run];
      if good {
        todo := todo[1..];
      }
    }
  }

  lemma NoRuns(data: seq<byte>, p: nat, cl: seq<nat>)
    ensures RunsGot(data, p, cl, [], p, [])
  {
  }

  /** A dynamic header comes next. */
  ghost predicate HeaderAhead(a: ZBuf, h: Header)
    reads a`used
  {
    h.Valid() && Found(a.data, a.used, HeaderBits(h))
  }

  /** The parts of a header, each at its place. */
  lemma HeaderParts(data: seq<byte>, p: nat, h: Header)
    requires h.Valid() && Found(data, p, HeaderBits(h))
    ensures Found(data, p, Bits(h.hlit - 257, 5)) && Found(data, p + 5, Bits(h.hdist - 1, 5))
    ensures Found(data, p + 10, Bits(h.hclen - 4, 4)) && Found(data, p + 14, ClBits(h.cl, h.hclen))
    ensures RunsAt(data, p + 14 + 3 * h.hclen, h.cl, [], h.runs)
    ensures |HeaderBits(h)| == 14 + 3 * h.hclen + |RunsBits(h.cl, [], h.runs)|
  {
    hide Bits, Window, ClBits, RunsBits, RunsValid, RunsOut, Kraft, Pow2;
    var x1, x2, x3 := Bits(h.hlit - 257, 5), Bits(h.hdist - 1, 5), Bits(h.hclen - 4, 4);
    var x4, x5 := ClBits(h.cl, h.hclen), RunsBits(h.cl, [], h.runs);
    FoundSplit(data, p, x1, x2 + (x3 + (x4 + x5)));
    FoundSplit(data, p + 5, x2, x3 + (x4 + x5));
    FoundSplit(data, p + 10, x3, x4 + x5);
    FoundSplit(data, p + 14, x4, x5);
    ClSize(h.cl, h.hclen);
  }

  /** The three counts were read at `p`. */
  ghost predicate CountsGot(data: seq<byte>, p: nat, hlit: nat, hdist: nat, hclen: nat) {
    && 257 <= hlit <= 288 && 1 <= hdist <= 32 && 4 <= hclen <= 19
    && Reads(data, p, Bits(hlit - 257, 5)) && Reads(data, p + 5, Bits(hdist - 1, 5)) && Reads(data, p + 10, Bits(hclen - 4, 4))
  }

  /** The header `h` was read from `p` to `q`, whatever codes its lengths give. */
  ghost predicate HeaderGot(data: seq<byte>, p: nat, h: Header, q: nat) {
    && CountsGot(data, p, h.hlit, h.hdist, h.hclen) && ClGot(data, p + 14, h.cl, h.hclen) && Kraft(h.cl) <= Pow2(15)
    && RunsValid(h.cl, [], h.runs) && |h.Lens()| == h.hlit + h.hdist
    && RunsGot(data, p + 14 + 3 * h.hclen, h.cl, h.runs, q, h.Lens())
  }

  /** If its lengths give codes, the header that was read is a header of the format. */
  lemma HeaderIs(data: seq<byte>, p: nat, h: Header, q: nat)
    requires HeaderGot(data, p, h, q) && Kraft(h.LitLens()) <= Pow2(15) && Kraft(h.DistLens()) <= Pow2(15)
    ensures h.Valid() && Reads(data, p, HeaderBits(h)) && q == p + |HeaderBits(h)|
  {
    hide Bits, Window, ClBits, RunsBits, RunsValid, RunsOut, Kraft, Pow2, Reads, LengthOrder;
    var x1, x2, x3 := Bits(h.hlit - 257, 5), Bits(h.hdist - 1, 5), Bits(h.hclen - 4, 4);
    var x4, x5 := ClBits(h.cl, h.hclen), RunsBits(h.cl, [], h.runs);
    ClSize(h.cl, h.hclen);
    ReadsJoin(data, p + 14, x4, x5);
    ReadsJoin(data, p + 10, x3, x4 + x5);
    ReadsJoin(data, p + 5, x2, x3 + (x4 + x5));
    ReadsJoin(data, p, x1, x2 + (x3 + (x4 + x5)));
  }

  /** The three counts at the start of a header. */
  method ReadCounts(a: ZBuf, ghost h: Header) returns (hlit: nat, hdist: nat, hclen: nat)
    requires a.Input()
    modifies a`pos, a`codeBuffer, a`numBits, a`used
    ensures a.Input() && a.used == old(a.used) + 14
    ensures 257 <= hlit <= 288 && 1 <= hdist <= 32 && 4 <= hclen <= 19
    ensures CountsGot(a.data, old(a.used), hlit, hdist, hclen)
    ensures old(HeaderAhead(a, h)) ==> hlit == h.hlit && hdist == h.hdist && hclen == h.hclen
  {
    hide Bits, Window, Pow2, Found, ZBuf.Input, HeaderBits, Header.Valid;
    ghost var p, good := a.used, HeaderAhead(a, h);
    Pow2Of3();
    var x := a.Receive(5);
    var y := a.Receive(5);
    var z := a.Receive(4);
    hlit, hdist, hclen := x + 257, y + 1, z + 4;
    if good {
      CountsAre(a.data, p, h, x, y, z);
    }
  }

  lemma CountsAre(data: seq<byte>, p: nat, h: Header, x: nat, y: nat, z: nat)
    requires h.Valid() && Found(data, p, HeaderBits(h)) && x < Pow2(5) && y < Pow2(5) && z < Pow2(4)
    requires Bits(x, 5) == Window(data, p, 5) && Bits(y, 5) == Window(data, p + 5, 5) && Bits(z, 4) == Window(data, p + 10, 4)
    ensures x == h.hlit - 257 && y == h.hdist - 1 && z == h.hclen - 4
  {
    hide Bits, Window, Pow2, Found, HeaderBits, RunsValid, RunsOut, RunsBits, RunsAt, Kraft, ClValid, ClBits;
    HeaderParts(data, p, h);
    Pow2Of3();
    SameBits(data, p, x, h.hlit - 257, 5);
    SameBits(data, p + 5, y, h.hdist - 1, 5);
    SameBits(data, p + 10, z, h.hclen - 4, 4);
  }

  /** The code lengths a dynamic header tells. */
  method ReadCodeLengths(a: ZBuf, ghost h: Header) returns (ok: bool, hlit: nat, lens: seq<nat>, ghost got: Header)
    requires a.Input()
    modifies a`pos, a`codeBuffer, a`numBits, a`hitEof, a`used
    ensures a.Input() && a.used >= old(a.used)
    ensures ok ==> 257 <= hlit <= 288 && hlit < |lens| <= hlit + 32 && Short(lens)
    ensures ok ==> HeaderGot(a.data, old(a.used), got, a.used) && got.hlit == hlit && got.Lens() == lens
    ensures old(HeaderAhead(a, h)) ==> ok && hlit == h.hlit && lens == h.Lens() && a.used == old(a.used) + |HeaderBits(h)|
  {
    hide Bits, Window, Found, ZBuf.Input, HeaderBits, ClValid, Kraft, Pow2, RunsAt, RunsValid, RunsOut, RunsBits, ClBits, Huffman.Ready;
    hide ClGot, CountsGot, Reads;
    ghost var p, good := a.used, HeaderAhead(a, h);
    if good {
      HeaderParts(a.data, p, h);
    }
    var hdist, hclen;
    hlit, hdist, hclen := ReadCounts(a, h);
    var sizes := ReadClSizes(a, hclen, h.cl);
    var zc := new Huffman();
    ok := zc.Build(sizes[..]);
    lens, got := [], Header(hlit, hdist, hclen, sizes[..], []);
    if ok {
      ghost var runs;
      ok, lens, runs := ReadRuns(a, zc, hlit + hdist, h.runs);
      got := got.(runs := runs);
    }
  }

  lemma LensOf(data: seq<byte>, p: nat, h: Header, q: nat)
    requires HeaderGot(data, p, h, q)
    ensures RunsValid(h.cl, [], h.runs) && |h.Lens()| == h.hlit + h.hdist
  {
  }

  /** stbi__compute_huffman_codes */
  method ComputeCodes(a: ZBuf, ghost h: Header) returns (ok: bool, ghost got: Header)
    requires a.Input() && a.Output()
    modifies a`pos, a`codeBuffer, a`numBits, a`hitEof, a`used, a.zLength.Tables(), a.zDistance.Tables()
    ensures a.Input() && a.Output() && a.used >= old(a.used) && (ok ==> a.TablesReady())
    ensures ok ==>
      && got.Valid() && Reads(a.data, old(a.used), HeaderBits(got)) && a.used == old(a.used) + |HeaderBits(got)|
      && a.zLength.lens == got.LitLens() && a.zDistance.lens == got.DistLens()
    ensures old(HeaderAhead(a, h)) ==>
      ok && a.zLength.lens == h.LitLens() && a.zDistance.lens == h.DistLens() && a.used == old(a.used) + |HeaderBits(h)|
  {
    hide Found, ZBuf.Input, HeaderBits, ClValid, Kraft, Pow2, RunsValid, RunsOut, Huffman.Ready;
    hide Reads, HeaderGot;
    var hlit, lens;
    ghost var p := a.used;
    ok, hlit, lens, got := ReadCodeLengths(a, h);
    if ok {
      LensOf(a.data, p, got, a.used);
      ok := a.zLength.Build(lens[..hlit]);
      if ok {
        ok := a.zDistance.Build(lens[hlit..]);
      }
      if ok {
        HeaderIs(a.data, p, got, a.used);
      }
    }
  }
}
