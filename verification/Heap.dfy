/** The kernel heap: first-fit allocation with splitting and coalescing over an address-ordered list of blocks. */
module Heap {

  /** The managed space and the size of a block header. */
  const HEAP: nat := 4 * 1024 * 1024
  const HDR: nat := 12

  /* ---- the list of blocks ---- */

  /** A block: the offset of its header, the size of its payload, and whether it is free. */
  datatype Blk = Blk(at: nat, size: nat, free: bool) {
    function End(): nat {
      at + HDR + size
    }

    /** The offset of the payload. */
    function Payload(): nat {
      at + HDR
    }
  }

  /** The blocks follow each other without gap or overlap and fill the heap. */
  ghost predicate Tiles(bs: seq<Blk>) {
    && bs != [] && bs[0].at == 0 && bs[|bs| - 1].End() == HEAP
    && forall i :: 0 <= i < |bs| - 1 ==> bs[i].End() == bs[i + 1].at
  }

  /** No two neighbours are both free. */
  ghost predicate Merged(bs: seq<Blk>) {
    forall i :: 0 <= i < |bs| - 1 ==> !(bs[i].free && bs[i + 1].free)
  }

  ghost predicate Sound(bs: seq<Blk>) {
    Tiles(bs) && Merged(bs)
  }

  /** The blocks in use. */
  ghost function Live(bs: seq<Blk>): set<Blk> {
    set b | b in bs && !b.free
  }

  const INITIAL: seq<Blk> := [Blk(0, HEAP - HDR, true)]

  /** A later block starts after an earlier one ends. */
  lemma {:induction false} Ordered(bs: seq<Blk>, i: nat, j: nat)
    requires Tiles(bs) && i < j < |bs|
    ensures bs[i].End() <= bs[j].at
  {
    if i + 1 < j {
      Ordered(bs, i, j - 1);
      assert bs[j - 1].End() == bs[j].at;
    }
  }

  /** The payloads of different blocks are disjoint and inside the heap. */
  lemma PayloadsApart(bs: seq<Blk>, i: nat, j: nat)
    requires Tiles(bs) && i < |bs| && j < |bs| && i != j
    ensures bs[i].End() <= bs[j].at || bs[j].End() <= bs[i].at
    ensures bs[i].End() <= HEAP && bs[j].End() <= HEAP
  {
    Inside(bs, i);
    Inside(bs, j);
    if i < j {
      Ordered(bs, i, j);
    } else {
      Ordered(bs, j, i);
    }
  }

  lemma Inside(bs: seq<Blk>, i: nat)
    requires Tiles(bs) && i < |bs|
    ensures bs[i].End() <= HEAP
  {
    if i < |bs| - 1 {
      Ordered(bs, i, |bs| - 1);
    }
  }

  lemma SomeInUse(bs: seq<Blk>)
    requires Merged(bs) && |bs| > 1
    ensures Live(bs) != {}
  {
    var b := if bs[0].free then bs[1] else bs[0];
    assert b in Live(bs);
  }

  /** With nothing in use, the list is the initial block. */
  lemma AllFreed(bs: seq<Blk>)
    requires Sound(bs) && Live(bs) == {}
    ensures bs == INITIAL
  {
    assert forall i :: 0 <= i < |bs| && !bs[i].free ==> bs[i] in Live(bs);
    if |bs| > 1 {
      SomeInUse(bs);
    }
  }

  /* ---- allocation ---- */

  const TWO32: nat := 0x1_0000_0000

  /** `(size + 7) & ~7` in 32 bits */
  function Align(size: nat): (r: nat)
    ensures r % 8 == 0 && (size <= 0xFFFF_FFF8 ==> size <= r < size + 8) && (0xFFFF_FFF8 < size < TWO32 ==> r == 0)
  {
    (size + 7) % TWO32 / 8 * 8
  }

  /** The rounding covers the size exactly for sizes that it does not wrap to 0. */
  lemma AlignCovers(size: nat)
    requires size < TWO32
    ensures Align(size) >= size <==> size <= 0xFFFF_FFF8
  {
  }

  predicate Suits(b: Blk, need: nat) {
    b.free && b.size >= need
  }

  /** The first suitable block from `i` on, or the end of the list. */
  function FirstFit(bs: seq<Blk>, need: nat, i: nat): (k: nat)
    requires i <= |bs|
    ensures i <= k <= |bs|
    ensures forall j :: i <= j < k ==> !Suits(bs[j], need)
    ensures k < |bs| ==> Suits(bs[k], need)
    decreases |bs| - i
  {
    if i == |bs| || Suits(bs[i], need) then i else FirstFit(bs, need, i + 1)
  }

  /** The empty heap has room for exactly the sizes up to four megabytes less one header. */
  lemma EmptyHeapFits(need: nat)
    ensures FirstFit(INITIAL, need, 0) < |INITIAL| <==> need <= 4_194_292
  {
  }

  /** The pieces block `b` becomes when `need` bytes of it are taken. */
  function Pieces(b: Blk, need: nat): (r: seq<Blk>)
    requires b.size >= need
    ensures 1 <= |r| <= 2 && r[0].at == b.at && r[0].size >= need && !r[0].free && r[|r| - 1].End() == b.End()
    ensures |r| == 2 <==> b.size - need >= 20
    ensures |r| == 2 ==> r[0].size == need && r[1].at == r[0].End() && r[1].free && r[1].size >= 8
  {
    if b.size >= need + HDR + 8 then
      [Blk(b.at, need, false), Blk(b.at + HDR + need, b.size - need - HDR, true)]
    else [b.(free := false)]
  }

  function Taken(bs: seq<Blk>, i: nat, need: nat): seq<Blk>
    requires i < |bs| && bs[i].size >= need
  {
    bs[..i] + Pieces(bs[i], need) + bs[i + 1..]
  }

  /** Taking a free block keeps the list sound and adds just the new block to those in use. */
  lemma TakenKeeps(bs: seq<Blk>, i: nat, need: nat)
    requires Sound(bs) && i < |bs| && Suits(bs[i], need)
    ensures Sound(Taken(bs, i, need))
    ensures Pieces(bs[i], need)[0] !in Live(bs)
    ensures Live(Taken(bs, i, need)) == Live(bs) + {Pieces(bs[i], need)[0]}
  {
    var p := Pieces(bs[i], need);
    var t := Taken(bs, i, need);
    forall k | 0 <= k < |t| - 1 ensures t[k].End() == t[k + 1].at && !(t[k].free && t[k + 1].free) {
      if k >= i + |p| {
        assert t[k] == bs[k - |p| + 1] && t[k + 1] == bs[k - |p| + 2];
      } else if k >= i {
        assert k == i || k == i + 1;
      }
    }
    assert Tiles(t);
    TakenLive(bs, i, need);
    if p[0] in Live(bs) {
      var j :| 0 <= j < |bs| && bs[j] == p[0];
      PayloadsApart(bs, i, j);
    }
  }

  lemma TakenLive(bs: seq<Blk>, i: nat, need: nat)
    requires i < |bs| && Suits(bs[i], need)
    ensures Live(Taken(bs, i, need)) == Live(bs) + {Pieces(bs[i], need)[0]}
  {
    var p, t := Pieces(bs[i], need), Taken(bs, i, need);
    assert bs == bs[..i] + [bs[i]] + bs[i + 1..];
    forall b ensures b in Live(t) <==> b in Live(bs) || b == p[0] {
      assert b in t <==> b in bs[..i] || b in p || b in bs[i + 1..];
      assert b in bs <==> b in bs[..i] || b == bs[i] || b in bs[i + 1..];
    }
  }

  /* ---- freeing ---- */

  /** Two neighbours made one. */
  function Joined(a: Blk, b: Blk): Blk {
    Blk(a.at, a.size + HDR + b.size, true)
  }

  function Merge(bs: seq<Blk>, i: nat): seq<Blk>
    requires i + 1 < |bs|
  {
    bs[..i] + [Joined(bs[i], bs[i + 1])] + bs[i + 2..]
  }

  /** The coalescing loop from block `i` on. */
  function Coalesced(bs: seq<Blk>, i: nat): seq<Blk>
    decreases |bs|, |bs| - i
  {
    if i + 1 < |bs| && bs[i].free && bs[i + 1].free then Coalesced(Merge(bs, i), i)
    else if i < |bs| then Coalesced(bs, i + 1)
    else bs
  }

  lemma MergeKeeps(bs: seq<Blk>, i: nat)
    requires Tiles(bs) && i + 1 < |bs| && bs[i].free && bs[i + 1].free
    ensures Tiles(Merge(bs, i)) && Live(Merge(bs, i)) == Live(bs)
  {
    var t := Merge(bs, i);
    forall k | 0 <= k < |t| - 1 ensures t[k].End() == t[k + 1].at {
      assert bs[i].End() == bs[i + 1].at;
      if k > i {
        assert t[k] == bs[k + 1] && t[k + 1] == bs[k + 2];
      } else if k == i {
        assert t[k + 1] == bs[i + 2];
      }
    }
    assert bs == bs[..i] + [bs[i], bs[i + 1]] + bs[i + 2..];
    forall b ensures b in Live(t) <==> b in Live(bs) {
      assert b in t <==> b in bs[..i] || b == Joined(bs[i], bs[i + 1]) || b in bs[i + 2..];
      assert b in bs <==> b in bs[..i] || b == bs[i] || b == bs[i + 1] || b in bs[i + 2..];
    }
  }

  ghost predicate MergedBelow(bs: seq<Blk>, i: nat) {
    forall k :: 0 <= k < i && k < |bs| - 1 ==> !(bs[k].free && bs[k + 1].free)
  }

  /** Coalescing leaves no free neighbours, still fills the heap, and does not touch blocks in use. */
  lemma {:induction false} CoalescedKeeps(bs: seq<Blk>, i: nat)
    requires Tiles(bs) && MergedBelow(bs, i)
    ensures Sound(Coalesced(bs, i)) && Live(Coalesced(bs, i)) == Live(bs)
    decreases |bs|, |bs| - i
  {
    hide Live;
    if i + 1 < |bs| && bs[i].free && bs[i + 1].free {
      MergeKeeps(bs, i);
      CoalescedKeeps(Merge(bs, i), i);
    } else if i < |bs| {
      CoalescedKeeps(bs, i + 1);
    }
  }

  function Released(bs: seq<Blk>, i: nat): seq<Blk>
    requires i < |bs|
  {
    Coalesced(bs[i := bs[i].(free := true)], 0)
  }

  /** Freeing a block in use takes just that block out of those in use. */
  lemma ReleasedKeeps(bs: seq<Blk>, i: nat)
    requires Sound(bs) && i < |bs| && !bs[i].free
    ensures Sound(Released(bs, i)) && Live(Released(bs, i)) == Live(bs) - {bs[i]}
  {
    var t := bs[i := bs[i].(free := true)];
    CoalescedKeeps(t, 0);
    forall b ensures b in Live(t) <==> b in Live(bs) && b != bs[i] {
      if b in Live(bs) && b != bs[i] {
        var j :| 0 <= j < |bs| && bs[j] == b;
        assert t[j] == b;
      }
      if b in Live(t) {
        var j :| 0 <= j < |t| && t[j] == b;
        PayloadsApart(bs, i, j);
      }
    }
  }

  /* ---- accounting ---- */

  /** Headers and payloads in use of the first `n` blocks. */
  function Used(bs: seq<Blk>, n: nat): nat
    requires n <= |bs|
  {
    if n == 0 then 0 else Used(bs, n - 1) + HDR + if bs[n - 1].free then 0 else bs[n - 1].size
  }

  function FreeBytes(bs: seq<Blk>, n: nat): nat
    requires n <= |bs|
  {
    if n == 0 then 0 else FreeBytes(bs, n - 1) + if bs[n - 1].free then bs[n - 1].size else 0
  }

  lemma {:induction false} UsedPlusFree(bs: seq<Blk>, n: nat)
    requires Tiles(bs) && n <= |bs|
    ensures Used(bs, n) + FreeBytes(bs, n) == if n == 0 then 0 else bs[n - 1].End()
  {
    if n > 0 {
      UsedPlusFree(bs, n - 1);
      assert n >= 2 ==> bs[n - 2].End() == bs[n - 1].at;
    }
  }

  /** Used bytes and free payload always make up the whole heap. */
  lemma Conservation(bs: seq<Blk>)
    requires Tiles(bs)
    ensures Used(bs, |bs|) + FreeBytes(bs, |bs|) == HEAP
  {
    UsedPlusFree(bs, |bs|);
  }

  /* ---- every run ---- */

  /** An operation of a client: ask for memory, or give back the `i`-th block, if that is in use. */
  datatype Op = MallocOp(size: nat) | FreeOp(i: nat)

  function Apply(bs: seq<Blk>, op: Op): seq<Blk> {
    match op
    case MallocOp(n) =>
      var k := FirstFit(bs, Align(n), 0);
      if k < |bs| then Taken(bs, k, Align(n)) else bs
    case FreeOp(i) => if i < |bs| && !bs[i].free then Released(bs, i) else bs
  }

  function ApplyAll(bs: seq<Blk>, ops: seq<Op>): seq<Blk> {
    if ops == [] then bs else Apply(ApplyAll(bs, ops[..|ops| - 1]), ops[|ops| - 1])
  }

  /** After any run from the start the blocks tile the heap and no two free blocks are neighbours. */
  lemma {:induction false} RunKeeps(ops: seq<Op>)
    ensures Sound(ApplyAll(INITIAL, ops))
    ensures var bs := ApplyAll(INITIAL, ops);
            && Used(bs, |bs|) + FreeBytes(bs, |bs|) == HEAP
            && (Live(bs) == {} ==> bs == INITIAL)
  {
    hide Apply;
    if ops != [] {
      RunKeeps(ops[..|ops| - 1]);
      ApplyKeeps(ApplyAll(INITIAL, ops[..|ops| - 1]), ops[|ops| - 1]);
    }
    var bs := ApplyAll(INITIAL, ops);
    Conservation(bs);
    if Live(bs) == {} {
      AllFreed(bs);
    }
  }

  /** A request for 0xFFFFFFF9 bytes is met with an empty block. */
  lemma EmptyBlock()
    ensures Apply(INITIAL, MallocOp(0xFFFF_FFF9)) == [Blk(0, 0, false), Blk(HDR, HEAP - 2 * HDR, true)]
  {
    assert FirstFit(INITIAL, 0, 0) == 0;
    assert INITIAL[..0] == [] && INITIAL[1..] == [];
  }

  lemma ApplyKeeps(bs: seq<Blk>, op: Op)
    requires Sound(bs)
    ensures Sound(Apply(bs, op))
  {
    hide Sound, Taken, Released;
    match op
    case MallocOp(n) =>
      var k := FirstFit(bs, Align(n), 0);
      if k < |bs| {
        TakenKeeps(bs, k, Align(n));
      }
    case FreeOp(i) =>
      if i < |bs| && !bs[i].free {
        ReleasedKeeps(bs, i);
      }
  }

  /* ---- the linked list ---- */

  const NULL: int := -1

  datatype Header = Header(size: nat, isFree: bool, next: int)

  /** Header `i` of the list is where and what it should be. */
  ghost predicate LinkedAt(headers: map<nat, Header>, bs: seq<Blk>, i: int)
    requires 0 <= i < |bs|
  {
    && bs[i].at in headers
    && headers[bs[i].at] == Header(bs[i].size, bs[i].free, if i + 1 < |bs| then bs[i + 1].at else NULL)
  }

  /** The headers spell out the list. */
  ghost predicate Linked(headers: map<nat, Header>, bs: seq<Blk>) {
    forall i :: 0 <= i < |bs| ==> LinkedAt(headers, bs, i)
  }

  /** The heap as it lies in memory: headers at offsets, linked by offsets. */
  class KernelHeap {
    var headers: map<nat, Header>
    var initialized: bool
    /** The list the headers spell out. */
    ghost var bs: seq<Blk>

    constructor ()
      ensures Valid() && bs == INITIAL && !initialized
    {
      headers, initialized, bs := map[], false, INITIAL;
    }

    ghost predicate Valid()
      reads this
    {
      Sound(bs) && if initialized then Linked(headers, bs) else bs == INITIAL
    }

    /** init_mm */
    method Init()
      requires Valid() && !initialized
      modifies this
      ensures Valid() && initialized && bs == old(bs)
    {
      headers := headers[0 := Header(HEAP - HDR, true, NULL)];
      initialized := true;
    }

    /** The part of kmalloc that splits block `i` if that pays, and marks it. */
    method Take(current: nat, need: nat, ghost i: nat)
      requires Sound(bs) && Linked(headers, bs) && i < |bs| && bs[i].at == current && Suits(bs[i], need)
      modifies this`headers, this`bs
      ensures Sound(bs) && Linked(headers, bs) && bs == Taken(old(bs), i, need)
    {
      ghost var h0 := headers;
      TakenKeeps(bs, i, need);
      assert LinkedAt(headers, bs, i);
      var h := headers[current];
      if h.size >= need + HDR + 8 {
        var next := current + HDR + need;
        headers := headers[next := Header(h.size - need - HDR, true, h.next)];
        h := h.(size := need, next := next);
      }
      headers := headers[current := h.(isFree := false)];
      TakenLinked(h0, bs, i, need, headers);
      bs := Taken(bs, i, need);
    }

    /** kmalloc: the payload of the first suitable block; NULL where the kernel panics. */
    method Malloc(size: nat) returns (ptr: int)
      requires Valid() && size < TWO32
      modifies this
      ensures Valid() && initialized
      ensures bs == Apply(old(bs), MallocOp(size))
      ensures ptr == NULL <==> forall b :: b in old(bs) ==> !Suits(b, Align(size))
      ensures ptr != NULL ==>
        exists b: Blk :: b.Payload() == ptr && (b.size >= size <==> size <= 0xFFFF_FFF8) && b !in Live(old(bs)) && Live(bs) == Live(old(bs)) + {b}
    {
      if !initialized {
        Init();
      }
      var need := Align(size);
      var current := 0;
      ghost var i := 0;
      ghost var k := FirstFit(bs, need, 0);
      while current != NULL
        invariant Valid() && initialized && bs == old(bs) && i <= k <= |bs| && FirstFit(bs, need, i) == k
        invariant current == if i < |bs| then bs[i].at else NULL
        decreases |bs| - i
      {
        assert LinkedAt(headers, bs, i);
        var h := headers[current];
        if h.isFree && h.size >= need {
          TakenKeeps(bs, i, need);
          Take(current, need, i);
          assert Pieces(old(bs)[i], need)[0].Payload() == current + HDR;
          return current + HDR;
        }
        current := h.next;
        i := i + 1;
      }
      ptr := NULL;
    }

    /** The coalescing loop of kfree. */
    method Coalesce()
      requires Tiles(bs) && Linked(headers, bs)
      modifies this`headers, this`bs
      ensures Sound(bs) && Linked(headers, bs) && bs == Coalesced(old(bs), 0)
    {
      CoalescedKeeps(bs, 0);
      var current := 0;
      ghost var i := 0;
      while current != NULL
        invariant Tiles(bs) && Linked(headers, bs) && Coalesced(bs, i) == Coalesced(old(bs), 0) && i <= |bs|
        invariant current == if i < |bs| then bs[i].at else NULL
        decreases |bs|, |bs| - i
      {
        assert LinkedAt(headers, bs, i);
        var h := headers[current];
        if h.next != NULL {
          assert LinkedAt(headers, bs, i + 1);
        }
        if h.next != NULL && h.isFree && headers[h.next].isFree {
          JoinHeaders(current, i);
        } else {
          current := h.next;
          i := i + 1;
        }
      }
    }

    /** One merge of the coalescing loop. */
    method JoinHeaders(current: nat, ghost i: nat)
      requires Tiles(bs) && Linked(headers, bs) && i + 1 < |bs| && bs[i].free && bs[i + 1].free && current == bs[i].at
      modifies this`headers, this`bs
      ensures Tiles(bs) && Linked(headers, bs) && bs == Merge(old(bs), i)
    {
      ghost var b0, h0 := bs, headers;
      MergeKeeps(bs, i);
      assert LinkedAt(headers, bs, i) && LinkedAt(headers, bs, i + 1);
      var h := headers[current];
      var n := headers[h.next];
      headers := headers[current := Header(h.size + HDR + n.size, h.isFree, n.next)];
      bs := Merge(bs, i);
      forall k | 0 <= k < |bs| ensures LinkedAt(headers, bs, k) {
        if k < i {
          Ordered(b0, k, i);
          assert LinkedAt(h0, b0, k) && bs[k] == b0[k] && bs[k + 1].at == b0[k + 1].at;
        } else if k > i {
          Ordered(b0, i, k + 1);
          assert LinkedAt(h0, b0, k + 1) && bs[k] == b0[k + 1];
          assert k + 1 < |bs| ==> bs[k + 1] == b0[k + 2];
        } else {
          assert i + 1 < |bs| ==> bs[i + 1] == b0[i + 2];
        }
      }
    }

    /** kfree of the `i`-th block, which must be in use; NULL is ignored. */
    method Free(ptr: int, ghost i: nat)
      requires Valid() && (ptr != NULL ==> initialized && i < |bs| && !bs[i].free && ptr == bs[i].Payload())
      modifies this
      ensures Valid() && initialized == old(initialized)
      ensures bs == if ptr == NULL then old(bs) else Apply(old(bs), FreeOp(i))
      ensures ptr != NULL ==> Live(bs) == Live(old(bs)) - {old(bs)[i]}
    {
      if ptr == NULL {
        return;
      }
      ghost var b0, h0 := bs, headers;
      ReleasedKeeps(bs, i);
      assert LinkedAt(headers, bs, i);
      var header := ptr - HDR;
      headers := headers[header := headers[header].(isFree := true)];
      bs := bs[i := bs[i].(free := true)];
      forall k | 0 <= k < |bs| ensures LinkedAt(headers, bs, k) {
        assert LinkedAt(h0, b0, k);
        if k != i {
          PayloadsApart(b0, i, k);
        }
      }
      Coalesce();
    }

    /** get_used_memory: with the free payload it makes up the whole heap. */
    method UsedMemory() returns (used: nat)
      requires Valid()
      ensures !initialized ==> used == 0
      ensures initialized ==> used == Used(bs, |bs|) == HEAP - FreeBytes(bs, |bs|)
    {
      used := 0;
      if !initialized {
        return;
      }
      Conservation(bs);
      var current := 0;
      ghost var i := 0;
      while current != NULL
        invariant i <= |bs| && used == Used(bs, i)
        invariant current == if i < |bs| then bs[i].at else NULL
        decreases |bs| - i
      {
        assert LinkedAt(headers, bs, i);
        var h := headers[current];
        used := used + HDR;
        if !h.isFree {
          used := used + h.size;
        }
        current := h.next;
        i := i + 1;
      }
    }
  }

  /** The header of a split-off block is not the header of another block. */
  lemma NextApart(bs: seq<Blk>, i: nat, need: nat)
    requires Tiles(bs) && i < |bs|
    ensures bs[i].size >= need + HDR ==> forall k :: 0 <= k < |bs| ==> bs[k].at != bs[i].at + HDR + need
    ensures forall k :: 0 <= k < |bs| && k != i ==> bs[k].at != bs[i].at
  {
    forall k | 0 <= k < |bs| && k != i
      ensures bs[k].at != bs[i].at && (bs[i].size >= need + HDR ==> bs[k].at != bs[i].at + HDR + need)
    {
      PayloadsApart(bs, i, k);
    }
  }

  /** The headers kmalloc writes spell out the list with the block taken. */
  lemma TakenLinked(h0: map<nat, Header>, bs: seq<Blk>, i: nat, need: nat, h1: map<nat, Header>)
    requires Tiles(bs) && Linked(h0, bs) && i < |bs| && LinkedAt(h0, bs, i) && Suits(bs[i], need)
    requires var a, h := bs[i].at, h0[bs[i].at];
             h1 == if h.size >= need + HDR + 8
                   then h0[a + HDR + need := Header(h.size - need - HDR, true, h.next)][a := Header(need, false, a + HDR + need)]
                   else h0[a := h.(isFree := false)]
    ensures Linked(h1, Taken(bs, i, need))
  {
    hide Live;
    var p, t := Pieces(bs[i], need), Taken(bs, i, need);
    NextApart(bs, i, need);
    assert LinkedAt(h0, bs, i);
    forall k | 0 <= k < |t| ensures LinkedAt(h1, t, k) {
      if k < i {
        assert LinkedAt(h0, bs, k) && t[k] == bs[k] && t[k + 1].at == bs[k + 1].at;
      } else if k >= i + |p| {
        assert LinkedAt(h0, bs, k - |p| + 1) && t[k] == bs[k - |p| + 1];
        assert k + 1 < |t| ==> t[k + 1] == bs[k - |p| + 2];
      } else {
        assert i + 1 < |bs| ==> t[i + |p|] == bs[i + 1];
      }
    }
  }
}
