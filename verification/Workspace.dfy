/** The workspace of the image decoder, and what becomes of it while the output buffer grows. */
module Workspace {
  import opened Bytes
  import opened Deflate
  import BitStrings

  /** The size of the workspace. */
  const ARENA: nat := 4 * 1024 * 1024

  /** `(size + 3) & ~3` */
  function RoundUp4(size: nat): (r: nat)
    ensures r % 4 == 0 && size <= r < size + 4
  {
    (size + 3) / 4 * 4
  }

  /** The length of the output buffer, what the workspace has given out, the bytes in the buffer, and whether the buffer may grow. */
  datatype Space = NoRoom | Room(len: nat, arena: nat, n: nat, grows: bool) {
    ghost predicate Valid() {
      Room? && n <= len && 0 < len && arena <= ARENA
    }
  }

  /** The length doubled until it is at least `want`. */
  function Doubled(len: nat, want: nat): (r: nat)
    requires len > 0
    ensures r >= want && r >= len && (want > len ==> 2 * len <= r < 2 * want)
    decreases want - len
  {
    if len >= want then len else Doubled(2 * len, want)
  }

  /** It is the first of the lengths `len`, `2 * len`, `4 * len` and so on that is enough. */
  lemma {:induction false} DoubledIs(len: nat, want: nat) returns (k: nat)
    requires len > 0
    ensures Doubled(len, want) == BitStrings.Shl(len, k) && (k > 0 ==> BitStrings.Shl(len, k - 1) < want)
    decreases want - len
  {
    k := 0;
    if len < want {
      var j := DoubledIs(2 * len, want);
      k := j + 1;
      BitStrings.ShlDouble(len, j);
      if j > 0 {
        BitStrings.ShlDouble(len, j - 1);
      }
    }
  }

  /** `k` more bytes: they fit, or the buffer moves to a new place twice as long, or more, if the workspace has that. */
  function Put(s: Space, k: nat): Space {
    if s.NoRoom? then s
    else if s.n + k <= s.len then s.(n := s.n + k)
    else if !s.grows || s.len == 0 then NoRoom
    else
      var len := Doubled(s.len, s.n + k);
      if s.arena + RoundUp4(len) <= ARENA then Room(len, s.arena + RoundUp4(len), s.n + k, true) else NoRoom
  }

  /** A buffer that has to grow finds room exactly if the workspace of four megabytes has the doubled length, rounded to four, left. */
  lemma GrowsExactly(s: Space, k: nat)
    requires s.Valid() && s.n + k > s.len && s.grows
    ensures Put(s, k).Room? <==> s.arena + RoundUp4(Doubled(s.len, s.n + k)) <= 4_194_304
  {
  }

  function SizeOf(it: Item): nat {
    if it.Valid() then it.Size() else 0
  }

  function ItemsAfter(s: Space, items: seq<Item>): Space
    decreases |items|
  {
    if items == [] then s else ItemsAfter(Put(s, SizeOf(items[0])), items[1..])
  }

  function BlockAfter(s: Space, b: Block): Space {
    if b.Stored? then Put(s, |b.bytes|) else ItemsAfter(s, b.items)
  }

  function BlocksAfter(s: Space, bs: seq<Block>): Space
    decreases |bs|
  {
    if bs == [] then s else BlocksAfter(BlockAfter(s, bs[0]), bs[1..])
  }

  lemma {:induction false} ItemsNoRoom(items: seq<Item>)
    ensures ItemsAfter(NoRoom, items) == NoRoom
    decreases |items|
  {
    if items != [] {
      ItemsNoRoom(items[1..]);
    }
  }

  lemma {:induction false} BlocksNoRoom(bs: seq<Block>)
    ensures BlocksAfter(NoRoom, bs) == NoRoom
    decreases |bs|
  {
    if bs != [] {
      if !bs[0].Stored? {
        ItemsNoRoom(bs[0].items);
      }
      BlocksNoRoom(bs[1..]);
    }
  }

  /* ---- a simple bound ---- */

  /** What the workspace has given out beyond four times the buffer; growing never increases it. */
  function Debt(s: Space): int
    requires s.Room?
  {
    s.arena - 4 * s.len
  }

  /** `size` bytes exceed the buffer, and it cannot grow or eight times the size exceeds the workspace left. */
  predicate Exceeds(s: Space, size: nat)
    requires s.Room?
  {
    size > s.len && (!s.grows || Debt(s) + 8 * size > ARENA)
  }

  /** From `s` to `t` with `size` more bytes; if that has no room, the simple bound is exceeded. */
  ghost predicate Grew(s: Space, t: Space, size: nat)
    requires s.Room?
  {
    if t.Room? then t.Valid() && t.len >= s.len && Debt(t) <= Debt(s) && t.n == s.n + size && t.grows == s.grows
    else Exceeds(s, s.n + size)
  }

  lemma PutGrew(s: Space, k: nat)
    requires s.Valid()
    ensures Grew(s, Put(s, k), k)
  {
    if s.n + k > s.len {
      var len := Doubled(s.len, s.n + k);
      assert len <= RoundUp4(len) <= 2 * len;
    }
  }

  lemma GrewMore(s: Space, t: Space, u: Space, a: nat, b: nat)
    requires s.Valid() && t.Room? && Grew(s, t, a) && Grew(t, u, b)
    ensures Grew(s, u, a + b)
  {
  }

  lemma GrewNot(s: Space, a: nat, b: nat)
    requires s.Room? && Grew(s, NoRoom, a)
    ensures Grew(s, NoRoom, a + b)
  {
  }

  function ItemsSize(items: seq<Item>): nat
    decreases |items|
  {
    if items == [] then 0 else SizeOf(items[0]) + ItemsSize(items[1..])
  }

  function BlockSize(b: Block): nat {
    if b.Stored? then |b.bytes| else ItemsSize(b.items)
  }

  function BlocksSize(bs: seq<Block>): nat
    decreases |bs|
  {
    if bs == [] then 0 else BlockSize(bs[0]) + BlocksSize(bs[1..])
  }

  lemma {:induction false} ItemsGrew(s: Space, items: seq<Item>)
    requires s.Valid()
    ensures Grew(s, ItemsAfter(s, items), ItemsSize(items))
    decreases |items|
  {
    hide Put, SizeOf, Grew;
    if items == [] {
      NotGrown(s);
    } else {
      var k, rest := SizeOf(items[0]), items[1..];
      PutGrew(s, k);
      if Put(s, k).NoRoom? {
        ItemsNoRoom(rest);
        GrewNot(s, k, ItemsSize(rest));
      } else {
        StillValid(s, Put(s, k), k);
        ItemsGrew(Put(s, k), rest);
        GrewMore(s, Put(s, k), ItemsAfter(s, items), k, ItemsSize(rest));
      }
    }
  }

  lemma NotGrown(s: Space)
    requires s.Valid()
    ensures Grew(s, s, 0)
  {
  }

  lemma StillValid(s: Space, t: Space, k: nat)
    requires s.Room? && t.Room? && Grew(s, t, k)
    ensures t.Valid()
  {
  }

  lemma BlockGrew(s: Space, b: Block)
    requires s.Valid()
    ensures Grew(s, BlockAfter(s, b), BlockSize(b))
  {
    hide Put, Grew, ItemsAfter, ItemsSize;
    if b.Stored? {
      PutGrew(s, |b.bytes|);
    } else {
      ItemsGrew(s, b.items);
    }
  }

  /** Blocks find no room only if their size exceeds the simple bound. */
  lemma {:induction false} BlocksGrew(s: Space, bs: seq<Block>)
    requires s.Valid()
    ensures Grew(s, BlocksAfter(s, bs), BlocksSize(bs))
    decreases |bs|
  {
    hide Grew, BlockAfter, BlockSize;
    if bs == [] {
      NotGrown(s);
    } else {
      var t, k, rest := BlockAfter(s, bs[0]), BlockSize(bs[0]), bs[1..];
      BlockGrew(s, bs[0]);
      if t.NoRoom? {
        BlocksNoRoom(rest);
        GrewNot(s, k, BlocksSize(rest));
      } else {
        StillValid(s, t, k);
        BlocksGrew(t, rest);
        GrewMore(s, t, BlocksAfter(s, bs), k, BlocksSize(rest));
      }
    }
  }

  lemma {:induction false} PlayedSize(out: seq<byte>, items: seq<Item>)
    requires Playable(|out|, items)
    ensures |PlayedAll(out, items)| == |out| + ItemsSize(items)
    decreases |items|
  {
    hide Copied, LengthBase, LengthExtra, DistBase, DistExtra;
    if items != [] {
      PlayedSize(Played(out, items[0]), items[1..]);
    }
  }

  lemma BlockOutSize(b: Block, p: nat, out: seq<byte>)
    requires BlockValid(b, p, |out|)
    ensures |BlockOut(b, p, out)| == |out| + BlockSize(b)
  {
    hide ItemsSize, PlayedAll, AllEncodable, Header.Valid;
    if !b.Stored? {
      PlayedSize(out, b.items);
    }
  }

  /** Blocks that the data holds expand by their size. */
  lemma {:induction false} HoldsSize(data: seq<byte>, p: nat, out: seq<byte>, bs: seq<Block>, q: nat, res: seq<byte>)
    requires Holds(data, p, out, bs, q, res)
    ensures |res| == |out| + BlocksSize(bs)
    decreases |bs|
  {
    hide BlockValid, BlockBits, BlockOut, Found, BlockSize;
    BlockOutSize(bs[0], p, out);
    if |bs| > 1 {
      HoldsSize(data, p + |BlockBits(bs[0], false, p, |out|)|, BlockOut(bs[0], p, out), bs[1..], q, res);
    }
  }
}
