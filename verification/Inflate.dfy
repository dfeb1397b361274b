/** The zlib decoder of stb_image.h: bit buffer, Huffman decoding and LZ77 output. */
module Inflate {
  import opened Bytes
  import opened BitStrings
  import opened HuffmanCodes
  import opened Huffman
  import opened Deflate
  import opened Workspace

  lemma AlignedStep(p: nat)
    requires Aligned(p)
    ensures Aligned(p + 8) && Aligned(p + 16)
  {
  }

  /** How a decoding step ends. */
  datatype Status = More | Done | Corrupt | NoMemory

  class ZBuf {
    const data: seq<byte>
    const zLength: Huffman
    const zDistance: Huffman
    const expandable: bool
    var out: array<byte>
    var n: nat
    var arena: nat
    var pos: nat
    var codeBuffer: nat
    var numBits: nat
    var hitEof: bool
    /** The number of bits consumed. */
    ghost var used: nat

    /** The start of stbi_zlib_decode_malloc_guesssize, once the output buffer of `size` bytes is allocated. */
    constructor (data: seq<byte>, size: nat, expandable: bool)
      requires 0 < size && RoundUp4(size) <= ARENA
      ensures Input() && Output() && Contents() == [] && used == 0 && out.Length == size && this.data == data
      ensures fresh(zLength.Tables()) && fresh(zDistance.Tables()) && fresh(out)
    {
      this.data, this.expandable := data, expandable;
      zLength := new Huffman();
      zDistance := new Huffman();
      out := new byte[size](_ => 0);
      n, arena, pos, codeBuffer, numBits, hitEof, used := 0, RoundUp4(size), 0, 0, 0, false, 0;
    }

    /** The output buffer is apart from the tables and no larger than the workspace. */
    ghost predicate Output()
      reads `out, `n, `arena
    {
      && n <= out.Length && 0 < out.Length <= ARENA && arena <= ARENA
      && zLength.Shape() && zDistance.Shape() && zLength.Tables() !! zDistance.Tables()
      && out !in zLength.Tables() && out !in zDistance.Tables()
    }

    /** The buffer and the workspace. */
    ghost function Space(): Space
      reads `out, `n, `arena
    {
      Room(out.Length, arena, n, expandable)
    }

    /** The bytes produced so far. */
    ghost function Contents(): (r: seq<byte>)
      requires n <= out.Length
      reads `out, `n, out
      ensures |r| == n
    {
      out[..n]
    }

    /** The bit buffer holds the next bits of the stream, zeros past its end. */
    ghost predicate Input()
      reads `pos, `codeBuffer, `numBits, `hitEof, `used
    {
      && pos <= |data| && numBits <= 32 && codeBuffer < Pow2(numBits)
      && Bits(codeBuffer, numBits) == Window(data, used, numBits)
      && (if pos < |data| then used + numBits == 8 * pos && !hitEof else used + numBits >= 8 * |data|)
      && Aligned(used + numBits)
      && (hitEof ==> used + numBits >= 8 * |data| + 16)
    }

    /** stbi__zget8 */
    method Get8() returns (b: byte)
      requires pos <= |data|
      modifies `pos
      ensures if old(pos) < |data| then b == data[old(pos)] && pos == old(pos) + 1 else b == 0 && pos == old(pos)
    {
      b := 0;
      if pos < |data| {
        b := data[pos];
        pos := pos + 1;
      }
    }

    /** stbi__fill_bits */
    method FillBits()
      requires Input() && numBits <= 24
      modifies `pos, `codeBuffer, `numBits
      ensures Input() && numBits > 24
    {
      hide Bits, Window, Pow2, Shl, Aligned;
      while true
        invariant Input() && numBits <= 24
        decreases 24 - numBits
      {
        if codeBuffer >= Pow2(numBits) {
          assert false;
        }
        NextByte(data, pos, used + numBits);
        AlignedStep(used + numBits);
        var b := Get8();
        Appended(data, used, codeBuffer, numBits, b);
        codeBuffer := codeBuffer + Shl(b, numBits);
        numBits := numBits + 8;
        if numBits > 24 {
          return;
        }
      }
    }

    /** `code_buffer >>= n; num_bits -= n;` */
    method Drop(n: nat)
      requires Input() && n <= numBits
      modifies `codeBuffer, `numBits, `used
      ensures Input() && used == old(used) + n && numBits == old(numBits) - n
    {
      hide Bits, Window, Pow2, Shr, Aligned;
      Dropped(data, used, codeBuffer, numBits, n);
      codeBuffer := Shr(codeBuffer, n);
      numBits := numBits - n;
      used := used + n;
    }

    /** stbi__zreceive: the next `n` bits as a number. */
    method Receive(n: nat) returns (k: nat)
      requires Input() && n <= 16
      modifies `pos, `codeBuffer, `numBits, `used
      ensures Input() && used == old(used) + n && k < Pow2(n) && Bits(k, n) == Window(data, old(used), n)
      ensures old(numBits) >= n ==> numBits == old(numBits) - n
    {
      hide Bits, Window, Pow2, Low, Aligned;
      if numBits < n {
        FillBits();
      }
      k := Low(codeBuffer, n);
      FirstBits(data, used, codeBuffer, numBits, n);
      Drop(n);
    }

    /** stbi__zhuffman_decode: the symbol whose code comes next; -1 if none does, or on a second attempt to read past the end. */
    method Decode(h: Huffman) returns (z: int)
      requires Input() && h.Ready()
      modifies `pos, `codeBuffer, `numBits, `hitEof, `used
      ensures Input()
      ensures z >= 0 ==> Starts(h.lens, z, Window(data, old(used), 16)) && z < |h.lens| && used == old(used) + h.lens[z]
      ensures z < 0 ==> z == -1 && used == old(used) && (used > 8 * |data| || forall i: nat :: !Starts(h.lens, i, Window(data, old(used), 16)))
    {
      hide Bits, Window, Pow2, Starts, Huffman.Ready, Aligned;
      AlignedStep(used + numBits);
      z := -1;
      if numBits < 16 {
        if pos >= |data| {
          if !hitEof {
            Padded(data, used, codeBuffer, numBits, 16);
            hitEof := true;
            numBits := numBits + 16;
          } else {
            return;
          }
        } else {
          FillBits();
        }
      }
      FirstBits(data, used, codeBuffer, numBits, 16);
      CodeLengths(h);
      var len;
      z, len := h.Lookup(codeBuffer);
      if z >= 0 {
        Drop(len);
      }
    }

    /** The loop of stbi__zexpand: the length is doubled until it is enough, or would not fit into 32 bits. */
    static method NewLimit(len: nat, want: nat) returns (ok: bool, limit: nat)
      requires 0 < len && want <= 0x7FFF_FFFF
      ensures ok && limit == Doubled(len, want)
    {
      limit := len;
      while want > limit
        invariant limit > 0 && Doubled(limit, want) == Doubled(len, want)
        decreases 2 * want - limit
      {
        if limit > 0xFFFF_FFFF / 2 {
          return false, limit;
        }
        limit := 2 * limit;
      }
      ok := true;
    }

    /** The bytes of `a` at the start of a new buffer of `limit` bytes. */
    static method Moved(a: array<byte>, limit: nat) returns (q: array<byte>)
      requires a.Length <= limit
      ensures fresh(q) && q.Length == limit && q[..a.Length] == a[..]
    {
      q := new byte[limit](_ => 0);
      CopyBytes(q, 0, a, 0, a.Length);
    }

    /** stbi__zexpand: make room for `k` more bytes. */
    method Expand(k: nat) returns (ok: bool)
      requires Output() && 0 < k <= 0xFFFF && n + k > out.Length
      modifies `out, `arena
      ensures Output() && Contents() == old(Contents())
      ensures out == old(out) || fresh(out)
      ensures ok <==> expandable && old(arena) + RoundUp4(Doubled(old(out.Length), n + k)) <= ARENA
      ensures ok ==> out.Length == Doubled(old(out.Length), n + k) && arena == old(arena) + RoundUp4(out.Length)
      ensures !ok ==> out == old(out) && arena == old(arena)
    {
      hide Doubled, ArenaHas, RoundUp4, Huffman.Shape;
      ok := false;
      if !expandable {
        return;
      }
      if 0xFFFF_FFFF - n < k {
        return;
      }
      var more, limit := NewLimit(out.Length, n + k);
      if !more {
        return;
      }
      ArenaIs(arena, limit);
      if !ArenaHas(arena, limit) {
        return;
      }
      arena := arena + RoundUp4(limit);
      out := Moved(out, limit);
      ok := true;
    }

    /** Room for `len` more bytes: the buffer grows if they do not fit. */
    method MakeRoom(len: nat) returns (ok: bool)
      requires Output() && len <= 0xFFFF
      modifies `out, `arena
      ensures Output() && Contents() == old(Contents()) && (out == old(out) || fresh(out))
      ensures ok ==> n + len <= out.Length && Put(old(Space()), len) == Room(out.Length, arena, n + len, expandable)
      ensures !ok ==> Put(old(Space()), len) == NoRoom
    {
      ok := true;
      if n + len > out.Length {
        ok := Expand(len);
      }
    }

    /** A literal byte goes to the output. */
    method PutByte(b: byte) returns (ok: bool)
      requires Output()
      modifies `out, `n, `arena, out
      ensures Output() && (out == old(out) || fresh(out))
      ensures Contents() == if ok then old(Contents()) + [b] else old(Contents())
      ensures Put(old(Space()), 1) == if ok then Space() else NoRoom
    {
      ok := true;
      if n >= out.Length {
        ok := Expand(1);
      }
      if ok {
        out[n] := b;
        n := n + 1;
      }
    }

    /** The copying loop for a run of one byte. */
    method CopyRun(len: nat)
      requires 0 < n && n + len <= out.Length
      modifies `n, out
      ensures n == old(n) + len && Contents() == Copied(old(Contents()), 1, len)
    {
      hide Copied;
      var v := out[n - 1];
      var k: nat := len;
      while k > 0
        invariant k <= len && n == old(n) + len - k && Contents()[n - 1] == v
        invariant Copied(Contents(), 1, k) == Copied(old(Contents()), 1, len)
      {
        ghost var c := Contents();
        CopiedStep(c, 1, k);
        out[n] := v;
        n := n + 1;
        k := k - 1;
        assert Contents() == c + [v];
      }
      CopiedStep(Contents(), 1, 0);
    }

    /** The copying loop of any other match. */
    method CopyLoop(dist: nat, len: nat)
      requires 0 < dist <= n && n + len <= out.Length
      modifies `n, out
      ensures n == old(n) + len && Contents() == Copied(old(Contents()), dist, len)
    {
      hide Copied;
      var k: nat := len;
      var p := n - dist;
      while k > 0
        invariant k <= len && n == old(n) + len - k && p == n - dist
        invariant Copied(Contents(), dist, k) == Copied(old(Contents()), dist, len)
      {
        ghost var c := Contents();
        CopiedStep(c, dist, k);
        out[n] := out[p];
        n := n + 1;
        p := p + 1;
        k := k - 1;
        assert Contents() == c + [c[|c| - dist]];
      }
      CopiedStep(Contents(), dist, 0);
    }

    /** A match goes to the output. */
    method PutMatch(dist: nat, len: nat) returns (ok: bool)
      requires Output() && 0 < dist <= n && 0 < len <= 0xFFFF
      modifies `out, `n, `arena, out
      ensures Output() && (out == old(out) || fresh(out))
      ensures ok ==> Contents() == Copied(old(Contents()), dist, len)
      ensures !ok ==> Contents() == old(Contents())
      ensures Put(old(Space()), len) == if ok then Space() else NoRoom
    {
      hide Copied, Put;
      ok := MakeRoom(len);
      if ok {
        if dist == 1 {
          CopyRun(len);
        } else {
          CopyLoop(dist, len);
        }
      }
    }

    /** Extra bits, none if `e` is 0. */
    method ReadExtra(e: nat) returns (k: nat)
      requires Input() && e <= 16
      modifies `pos, `codeBuffer, `numBits, `used
      ensures Input() && used == old(used) + e && k < Pow2(e) && Bits(k, e) == Window(data, old(used), e)
    {
      k := 0;
      if e != 0 {
        k := Receive(e);
      }
    }

    /** The match `it`, whose length symbol has been read, comes next. */
    ghost predicate MatchAhead(z: nat, it: Item)
      reads `used, zDistance
    {
      && it.Match? && it.Valid() && it.lsym == z && Coded(zDistance.lens, it.dsym)
      && Found(data, used, MatchRest(zDistance.lens, it))
    }

    /** The rest of a match after its length symbol `z`. */
    method ReadMatch(z: nat, ghost it: Item) returns (ok: bool, len: nat, dist: nat, ghost got: Item)
      requires Input() && zDistance.Ready() && z < 29
      modifies `pos, `codeBuffer, `numBits, `hitEof, `used
      ensures Input() && (ok ==> 0 < len <= 0xFFFF && 0 < dist)
      ensures ok ==> MatchGot(data, zDistance.lens, old(used), z, got) && len == got.Length() && dist == got.Distance()
      ensures ok ==> used == old(used) + |MatchRest(zDistance.lens, got)|
      ensures old(MatchAhead(z, it)) ==>
        ok && len == it.Length() && dist == it.Distance() && used == old(used) + |MatchRest(zDistance.lens, it)|
      ensures used >= old(used)
    {
      hide Bits, Window, Pow2, Huffman.Ready, Found, LengthBase, LengthExtra, DistBase, DistExtra, Starts, MatchRest, Codeword;
      ghost var good := MatchAhead(z, it);
      ghost var dl := zDistance.lens;
      ghost var p := used;
      if good {
        MatchParts(data, used, dl, it);
      }
      ok, dist, got := false, 0, Literal(0);
      ghost var p0 := used;
      var k := ReadExtra(LengthExtra(z));
      ghost var k0 := k;
      Small(LengthExtra(z), k);
      len := LengthBase(z) + k;
      if good {
        SameBits(data, p, k, it.lext, LengthExtra(z));
      }
      p := used;
      var d := Decode(zDistance);
      if good {
        NextReady(zDistance, data, p, it.dsym, d);
      }
      if d < 0 || d >= 30 {
        return;
      }
      p := used;
      k := ReadExtra(DistExtra(d));
      if good {
        SameBits(data, p, k, it.dext, DistExtra(d));
      }
      dist := DistBase(d) + k;
      got := Match(z, k0, d, k);
      GotMatch(data, dl, p0, z, k0, d, k);
      ok := true;
    }

    /** The items `items` and the end of their block come next. */
    ghost predicate ItemsAhead(items: seq<Item>)
      reads `used, `n, zLength, zDistance
    {
      ItemsAt(data, zLength.lens, zDistance.lens, used, n, items)
    }

    ghost predicate TablesReady()
      reads zLength.Tables(), zDistance.Tables()
    {
      zLength.Ready() && zDistance.Ready()
    }

    /** A match symbol has been read: read the rest of the match and copy. */
    method MatchStep(z: nat, ghost it: Item) returns (st: Status, ghost got: Item)
      requires Input() && Output() && TablesReady() && z < 29
      modifies `pos, `codeBuffer, `numBits, `hitEof, `used, `out, `n, `arena, out
      ensures Input() && Output() && TablesReady() && (out == old(out) || fresh(out))
      ensures st != Done && (st == More ==> n > old(n))
      ensures st == More ==> MatchGot(data, zDistance.lens, old(used), z, got) && Reaches(old(n), got) && Contents() == Played(old(Contents()), got)
      ensures st == More ==> used == old(used) + |MatchRest(zDistance.lens, got)|
      ensures old(MatchAhead(z, it) && Reaches(n, it)) ==>
        && (st == More || st == NoMemory) && Put(old(Space()), SizeOf(it)) == (if st == More then Space() else NoRoom)
        && (st == More ==> Contents() == Played(old(Contents()), it) && used == old(used) + |MatchRest(zDistance.lens, it)|)
      ensures used >= old(used)
    {
      hide Huffman.Ready, Found, Copied, MatchRest;
      var ok, len, dist;
      ok, len, dist, got := ReadMatch(z, it);
      if !ok {
        return Corrupt, got;
      }
      if n < dist {
        return Corrupt, got;
      }
      ok := PutMatch(dist, len);
      st := if ok then More else NoMemory;
    }

    /** The symbol of a match has been read at `p`. */
    method MatchTurn(z: nat, ghost p: nat, ghost it: Item) returns (st: Status, ghost got: Item)
      requires Input() && Output() && TablesReady() && 257 <= z < 286 && z < |zLength.lens| && Starts(zLength.lens, z, Window(data, p, 16))
      requires used == p + zLength.lens[z]
      modifies `pos, `codeBuffer, `numBits, `hitEof, `used, `out, `n, `arena, out
      ensures Input() && Output() && TablesReady() && (out == old(out) || fresh(out))
      ensures st != Done && (st == More ==> n > old(n))
      ensures st == More ==>
        && ItemGot(data, zLength.lens, zDistance.lens, p, old(n), got) && Contents() == Played(old(Contents()), got)
        && used == p + |ItemBits(zLength.lens, zDistance.lens, got)|
      ensures old(MatchAhead(z - 257, it) && Reaches(n, it)) ==>
        && (st == More || st == NoMemory) && Put(old(Space()), SizeOf(it)) == (if st == More then Space() else NoRoom)
        && (st == More ==> Contents() == Played(old(Contents()), it) && used == old(used) + |MatchRest(zDistance.lens, it)|)
      ensures used >= old(used)
    {
      hide Huffman.Ready, Found, Played, MatchRest, Put, Window, Starts, ItemGot, MatchGot, ItemBits, ZBuf.Input, SizeOf, Reaches;
      ghost var m := n;
      st, got := MatchStep(z - 257, it);
      if st == More {
        GotItem(data, zLength.lens, zDistance.lens, p, m, z, got);
      }
    }

    /** The symbol of a literal has been read at `p`. */
    method LiteralStep(z: byte, ghost p: nat) returns (st: Status, ghost got: Item)
      requires Output() && Starts(zLength.lens, z, Window(data, p, 16))
      modifies `out, `n, `arena, out
      ensures Output() && (out == old(out) || fresh(out))
      ensures st == More || st == NoMemory
      ensures got == Literal(z) && ItemGot(data, zLength.lens, zDistance.lens, p, old(n), got) && |ItemBits(zLength.lens, zDistance.lens, got)| == zLength.lens[z]
      ensures st == More ==> Contents() == Played(old(Contents()), got) && n == old(n) + 1
      ensures Put(old(Space()), 1) == if st == More then Space() else NoRoom
    {
      hide Window, Starts, ItemGot, ItemBits, Played;
      got := Literal(z);
      GotLiteral(data, zLength.lens, zDistance.lens, p, n, Contents(), z);
      var ok := PutByte(z);
      st := if ok then More else NoMemory;
    }

    /** One turn of the loop of stbi__parse_huffman_block. */
    method HuffmanStep(ghost todo: seq<Item>) returns (st: Status, ghost got: Item)
      requires Input() && Output() && TablesReady()
      modifies `pos, `codeBuffer, `numBits, `hitEof, `used, `out, `n, `arena, out
      ensures Input() && Output() && TablesReady() && (out == old(out) || fresh(out))
      ensures st == More ==> n > old(n)
      ensures st == More ==>
        && ItemGot(data, zLength.lens, zDistance.lens, old(used), old(n), got) && Contents() == Played(old(Contents()), got)
        && used == old(used) + |ItemBits(zLength.lens, zDistance.lens, got)|
      ensures st == Done ==> EndGot(data, zLength.lens, old(used)) && Contents() == old(Contents()) && used == old(used) + zLength.lens[END_OF_BLOCK]
      ensures old(ItemsAhead(todo)) && todo == [] ==>
        st == Done && Contents() == old(Contents()) && Space() == old(Space()) && used == old(used) + zLength.lens[END_OF_BLOCK]
      ensures old(ItemsAhead(todo)) && todo != [] ==>
        && (st == More || st == NoMemory) && Put(old(Space()), SizeOf(todo[0])) == (if st == More then Space() else NoRoom)
        && (st == More ==> ItemsAhead(todo[1..]) && used == old(used) + |ItemBits(zLength.lens, zDistance.lens, todo[0])|)
        && (st == More ==> Contents() == Played(old(Contents()), todo[0]))
      ensures used >= old(used)
    {
      hide Bits, Pow2, Aligned, Huffman.Ready, Found, Played, ItemBits, Reaches, MatchRest, Window, Starts, Codeword, LengthBase, LengthExtra, DistBase, DistExtra;
      hide Put;
      ghost var good := ItemsAhead(todo);
      ghost var p := used;
      if good {
        FirstAt(data, zLength.lens, zDistance.lens, p, n, todo);
      }
      hide ItemsAt, Encodable, ItemGot, EndGot, MatchGot, Reads, Item.Valid, Coded, ZBuf.Input, Item.Size, FirstSymbol;
      got := Literal(0);
      var z := Decode(zLength);
      if good {
        NextReady(zLength, data, p, FirstSymbol(todo), z);
      }
      if z < 256 {
        if z < 0 {
          return Corrupt, got;
        }
        st, got := LiteralStep(z, p);
      } else if z == END_OF_BLOCK {
        GotEnd(data, zLength.lens, p);
        st := if hitEof && numBits < 16 then Corrupt else Done;
      } else if z >= 286 {
        st := Corrupt;
      } else {
        st, got := MatchTurn(z, p, if todo == [] then Literal(0) else todo[0]);
      }
    }

    /** stbi__parse_huffman_block */
    method ParseHuffmanBlock(ghost items: seq<Item>) returns (st: Status, ghost got: seq<Item>)
      requires Input() && Output() && TablesReady()
      modifies `pos, `codeBuffer, `numBits, `hitEof, `used, `out, `n, `arena, out
      ensures Input() && Output() && TablesReady() && (out == old(out) || fresh(out))
      ensures st != More
      ensures st == Done ==>
        && ItemsGot(data, zLength.lens, zDistance.lens, old(used), old(n), got) && Contents() == PlayedAll(old(Contents()), got)
        && used == old(used) + |ItemsBits(zLength.lens, zDistance.lens, got)|
      ensures old(ItemsAhead(items)) ==>
        && (st == Done || st == NoMemory) && ItemsAfter(old(Space()), items) == (if st == Done then Space() else NoRoom)
        && (st == Done ==> Contents() == PlayedAll(old(Contents()), items) && used == old(used) + |ItemsBits(zLength.lens, zDistance.lens, items)|)
      ensures used >= old(used)
    {
      hide Huffman.Ready, Found, Played, ItemBits, Playable, ItemsAt, AllEncodable, ZBuf.Input, ItemGot, EndGot, Reads;
      ghost var ll, dl := zLength.lens, zDistance.lens;
      ghost var todo, good, c0, p0 := items, ItemsAhead(items), Contents(), used;
      ghost var c1, s1 := PlayedAll(c0, items), ItemsAfter(Space(), items);
      if good {
        ItemsCoded(data, ll, dl, p0, n, items);
      }
      got := [];
      while true
        invariant Input() && Output() && TablesReady() && (out == old(out) || fresh(out))
        invariant good ==> ItemsAhead(todo) && PlayedAll(Contents(), todo) == c1 && ItemsAfter(Space(), todo) == s1
        invariant good ==> AllEncodable(ll, dl, todo) && used + |ItemsBits(ll, dl, todo)| == p0 + |ItemsBits(ll, dl, items)|
        invariant used >= p0
        invariant Taken(data, ll, dl, p0, c0, got, used, Contents())
        decreases ARENA - n
      {
        ghost var p, c := used, Contents();
        ghost var it;
        st, it := HuffmanStep(todo);
        if st != More {
          if st == Done {
            TakenAll(data, ll, dl, p0, c0, got, p, c);
          } else if good {
            ItemsNoRoom(todo[1..]);
          }
          return;
        }
        TakenOneMore(data, ll, dl, p0, c0, got, p, c, it);
        got := got + [it];
        if good {
          todo := todo[1..];
          ItemsCoded(data, ll, dl, used, n, todo);
        }
      }
    }

    /** A byte straight from the input, with an empty bit buffer. */
    method NextInput() returns (b: byte)
      requires Input() && numBits == 0
      modifies `pos, `used
      ensures Input() && used == old(used) + 8 && Bits(b, 8) == Window(data, old(used), 8)
    {
      hide Bits, Window, Aligned;
      NextByte(data, pos, used);
      AlignedStep(used);
      EmptyBuffer(data, used, codeBuffer);
      b := Get8();
      used := used + 8;
      EmptyBuffer(data, used, codeBuffer);
    }

    /** A byte out of the bit buffer. */
    method BufferedByte() returns (b: byte)
      requires Input() && numBits >= 8
      modifies `codeBuffer, `numBits, `used
      ensures Input() && used == old(used) + 8 && numBits == old(numBits) - 8 && Bits(b, 8) == Window(data, old(used), 8)
    {
      hide Bits, Window, Aligned, Low, Pow2;
      Pow2Of8();
      b := Low(codeBuffer, 8);
      FirstBits(data, used, codeBuffer, numBits, 8);
      Drop(8);
    }

    /** stbi__parse_uncompressed_block, the header: what is left in the bit buffer, then bytes of the input. */
    method ReadStoredHeader() returns (h: seq<byte>)
      requires Input() && Aligned(numBits)
      modifies `pos, `codeBuffer, `numBits, `used
      ensures Input() && numBits == 0 && used == old(used) + 32
      ensures |h| == 4 && HeaderFound(data, old(used), h)
    {
      hide Bits, Window, Aligned;
      h := [];
      ghost var p := used;
      while numBits > 0
        invariant Input() && Aligned(numBits) && 8 * |h| + numBits <= 32 && used == p + 8 * |h|
        invariant HeaderFound(data, p, h)
      {
        AlignedPositive(numBits);
        var b := BufferedByte();
        h := h + [b];
      }
      while |h| < 4
        invariant Input() && numBits == 0 && |h| <= 4 && used == p + 8 * |h|
        invariant HeaderFound(data, p, h)
      {
        var b := NextInput();
        h := h + [b];
      }
    }

    /** A stored block, padding first, comes next. */
    ghost predicate StoredAhead(pad: seq<bool>, bytes: seq<byte>)
      reads `used
    {
      && |pad| < 8 && Aligned(used + |pad|) && |bytes| < 0x1_0000
      && Found(data, used, pad + (Bits(|bytes|, 16) + (Bits(0xFFFF - |bytes|, 16) + BytesBits(bytes))))
    }

    /** The end of stbi__parse_uncompressed_block: copy `len` bytes of the input to the output. */
    method CopyInput(len: nat) returns (st: Status)
      requires Input() && Output() && numBits == 0 && len <= 0xFFFF
      modifies `pos, `used, `out, `n, `arena, out
      ensures Input() && Output() && (out == old(out) || fresh(out))
      ensures st != More && (st == Done ==> used == old(used) + 8 * len)
      ensures old(pos) + len > |data| ==> st == Corrupt
      ensures old(pos) + len <= |data| ==>
        && (st == Done || st == NoMemory) && Put(old(Space()), len) == (if st == Done then Space() else NoRoom)
        && (st == Done ==> Contents() == old(Contents()) + data[old(pos)..old(pos) + len])
      ensures used >= old(used)
    {
      hide Put, ZBuf.Input;
      if pos + len > |data| {
        return Corrupt;
      }
      var ok := MakeRoom(len);
      if !ok {
        return NoMemory;
      }
      TakeInput(len);
      st := Done;
    }

    /** The stored bytes leave the input. */
    method TakeInput(len: nat)
      requires Input() && numBits == 0 && n + len <= out.Length && pos + len <= |data|
      modifies `pos, `used, `n, out
      ensures Input() && used == old(used) + 8 * len && n == old(n) + len
      ensures Contents() == old(Contents()) + data[old(pos)..old(pos) + len]
    {
      hide Bits, Window, Aligned, Pow2;
      CopyIn(len);
      AlignedBy(used, len);
      pos := pos + len;
      used := used + 8 * len;
      EmptyBuffer(data, used, codeBuffer);
    }

    /** memcpy of the stored bytes. */
    method CopyIn(len: nat)
      requires n + len <= out.Length && pos + len <= |data|
      modifies `n, out
      ensures n == old(n) + len && Contents() == old(Contents()) + data[pos..pos + len]
    {
      ghost var c := Contents();
      for i := 0 to len
        invariant n == old(n) && out[..n + i] == c + data[pos..pos + i]
      {
        out[n + i] := data[pos + i];
      }
      n := n + len;
    }

    /** stbi__parse_uncompressed_block */
    method ParseUncompressedBlock(ghost pad: seq<bool>, ghost bytes: seq<byte>) returns (st: Status, ghost gotPad: seq<bool>, ghost gotBytes: seq<byte>)
      requires Input() && Output()
      modifies `pos, `codeBuffer, `numBits, `used, `out, `n, `arena, out
      ensures Input() && Output() && (out == old(out) || fresh(out))
      ensures st != More && used >= old(used) && (st == Done ==> used >= old(used) + 32)
      ensures old(used) >= 8 * |data| ==> st == Corrupt
      ensures st == Done ==>
        && StoredGot(data, old(used), gotPad, gotBytes) && Contents() == old(Contents()) + gotBytes
        && used == old(used) + |gotPad| + 32 + 8 * |gotBytes|
      ensures old(StoredAhead(pad, bytes)) ==>
        && (st == Done || st == NoMemory) && Put(old(Space()), |bytes|) == (if st == Done then Space() else NoRoom)
        && (st == Done ==> Contents() == old(Contents()) + bytes && used == old(used) + |pad| + 32 + 8 * |bytes|)
    {
      hide Bits, Window, Found, BytesBits, Aligned, Put, StoredGot;
      ghost var p := used;
      var len, nlen;
      len, nlen, gotPad := StoredLengths(pad, bytes);
      gotBytes := [];
      if nlen != 0xFFFF - len {
        return Corrupt, gotPad, gotBytes;
      }
      if pos + len <= |data| {
        gotBytes := data[pos..pos + len];
        GotStored(data, p, gotPad, len, pos);
      }
      st := CopyInput(len);
    }

    /** stbi__parse_uncompressed_block up to the lengths: the padding is dropped and the header read. */
    method StoredLengths(ghost pad: seq<bool>, ghost bytes: seq<byte>) returns (len: word, nlen: word, ghost gotPad: seq<bool>)
      requires Input()
      modifies `pos, `codeBuffer, `numBits, `used
      ensures Input() && numBits == 0 && used == old(used) + |gotPad| + 32
      ensures |gotPad| < 8 && Aligned(old(used) + |gotPad|) && Reads(data, old(used), gotPad)
      ensures Bits(len, 16) == Window(data, old(used) + |gotPad|, 16) && Bits(nlen, 16) == Window(data, old(used) + |gotPad| + 16, 16)
      ensures old(used) >= 8 * |data| ==> nlen != 0xFFFF - len
      ensures old(StoredAhead(pad, bytes)) ==>
        && len == |bytes| && nlen == 0xFFFF - len && used == old(used) + |pad| + 32
        && pos + len <= |data| && data[pos..pos + len] == bytes
    {
      hide Bits, Window, Found, BytesBits, Aligned, HeaderFound;
      ghost var good, p0 := StoredAhead(pad, bytes), used;
      var r := numBits % 8;
      if good {
        PadLength(used, numBits, |pad|);
      }
      AlignedRest(numBits, r);
      gotPad := Window(data, used, r);
      AlignedPart(used, numBits, r);
      if r != 0 {
        var _ := Receive(r);
      }
      len, nlen := ReadLengths(r);
      if good {
        StoredParts(data, p0, pad, bytes, len, nlen, pos);
      }
    }

    /** The two length words of a stored block. */
    method ReadLengths(ghost r: nat) returns (len: word, nlen: word)
      requires Input() && Aligned(numBits) && r <= used
      modifies `pos, `codeBuffer, `numBits, `used
      ensures Input() && numBits == 0 && used == old(used) + 32
      ensures Bits(len, 16) == Window(data, old(used), 16) && Bits(nlen, 16) == Window(data, old(used) + 16, 16)
      ensures old(used) - r >= 8 * |data| ==> nlen != 0xFFFF - len
    {
      hide Bits, Window, Aligned, HeaderFound;
      ghost var p := used;
      var h := ReadStoredHeader();
      HeaderWords(data, p, h, p - r);
      len := LdWord(h[0], h[1]);
      nlen := LdWord(h[2], h[3]);
    }
  }

  /** The symbol that comes next when the items are to be decoded. */
  function FirstSymbol(items: seq<Item>): nat {
    if items == [] then END_OF_BLOCK else if items[0].Literal? then items[0].b else 257 + items[0].lsym
  }

  /** Items and the end of their block stand at `p`, after `n` bytes of output. */
  ghost predicate ItemsAt(data: seq<byte>, ll: seq<nat>, dl: seq<nat>, p: nat, n: nat, items: seq<Item>) {
    && AllEncodable(ll, dl, items) && Coded(ll, END_OF_BLOCK) && Playable(n, items)
    && Found(data, p, ItemsBits(ll, dl, items))
  }

  lemma ItemsCoded(data: seq<byte>, ll: seq<nat>, dl: seq<nat>, p: nat, n: nat, items: seq<Item>)
    requires ItemsAt(data, ll, dl, p, n, items)
    ensures AllEncodable(ll, dl, items) && Coded(ll, END_OF_BLOCK)
    ensures items == [] ==> ItemsBits(ll, dl, items) == Codeword(ll, END_OF_BLOCK)
    ensures items != [] ==>
      && Encodable(ll, dl, items[0]) && AllEncodable(ll, dl, items[1..])
      && ItemsBits(ll, dl, items) == ItemBits(ll, dl, items[0]) + ItemsBits(ll, dl, items[1..])
  {
    hide Found, ItemBits, Encodable, Codeword;
    if items != [] {
      assert Encodable(ll, dl, items[0]);
    }
  }

  lemma ItemThenRest(data: seq<byte>, ll: seq<nat>, dl: seq<nat>, p: nat, n: nat, items: seq<Item>)
    requires ItemsAt(data, ll, dl, p, n, items) && items != []
    ensures Encodable(ll, dl, items[0]) && Reaches(n, items[0]) && Found(data, p, ItemBits(ll, dl, items[0]))
    ensures ItemsAt(data, ll, dl, p + |ItemBits(ll, dl, items[0])|, n + items[0].Size(), items[1..])
  {
    hide Found, Reaches, Encodable, ItemBits;
    assert Encodable(ll, dl, items[0]);
    FoundSplit(data, p, ItemBits(ll, dl, items[0]), ItemsBits(ll, dl, items[1..]));
  }

  /** What comes first when items stand at `p`. */
  lemma FirstAt(data: seq<byte>, ll: seq<nat>, dl: seq<nat>, p: nat, n: nat, items: seq<Item>)
    requires ItemsAt(data, ll, dl, p, n, items)
    ensures var i := FirstSymbol(items); Coded(ll, i) && Found(data, p, Codeword(ll, i)) && p + ll[i] <= 8 * |data|
    ensures items != [] ==>
      var it := items[0];
      && Encodable(ll, dl, it) && Reaches(n, it)
      && ItemsAt(data, ll, dl, p + |ItemBits(ll, dl, it)|, n + it.Size(), items[1..])
      && (it.Literal? ==> |ItemBits(ll, dl, it)| == ll[it.b] && it.Size() == 1 && forall out :: Played(out, it) == out + [it.b])
      && (it.Match? ==>
          && it.Valid() && Coded(dl, it.dsym) && it.lsym < 29 && (forall out :: |out| == n ==> |Played(out, it)| == n + it.Size())
          && |ItemBits(ll, dl, it)| == ll[257 + it.lsym] + |MatchRest(dl, it)| && Found(data, p + ll[257 + it.lsym], MatchRest(dl, it)))
  {
    hide Found, Codeword, Bits, Played, Encodable, Reaches, ItemsAt, ItemBits, MatchRest, Item.Size, Item.Valid;
    if items != [] {
      ItemThenRest(data, ll, dl, p, n, items);
      ItemAt(data, ll, dl, p, items[0]);
      PlayedSizes(n, items[0]);
    } else {
      EndAt(data, ll, dl, p, n);
    }
  }

  lemma ItemAt(data: seq<byte>, ll: seq<nat>, dl: seq<nat>, p: nat, it: Item)
    requires Encodable(ll, dl, it) && Found(data, p, ItemBits(ll, dl, it))
    ensures var i := FirstSymbol([it]); Coded(ll, i) && Found(data, p, Codeword(ll, i)) && p + ll[i] <= 8 * |data|
    ensures it.Literal? ==> |ItemBits(ll, dl, it)| == ll[it.b] && it.Size() == 1
    ensures it.Match? ==>
      && it.Valid() && Coded(dl, it.dsym) && it.lsym < 29
      && |ItemBits(ll, dl, it)| == ll[257 + it.lsym] + |MatchRest(dl, it)| && Found(data, p + ll[257 + it.lsym], MatchRest(dl, it))
  {
    hide Window, Codeword, Bits, LengthBase, LengthExtra, DistBase, DistExtra;
    if it.Match? {
      FoundSplit(data, p, Codeword(ll, 257 + it.lsym), MatchRest(dl, it));
    }
  }

  lemma EndAt(data: seq<byte>, ll: seq<nat>, dl: seq<nat>, p: nat, n: nat)
    requires ItemsAt(data, ll, dl, p, n, [])
    ensures Coded(ll, END_OF_BLOCK) && Found(data, p, Codeword(ll, END_OF_BLOCK)) && p + ll[END_OF_BLOCK] <= 8 * |data|
  {
  }

  lemma PlayedSizes(n: nat, it: Item)
    requires Reaches(n, it)
    ensures it.Literal? ==> forall out :: Played(out, it) == out + [it.b]
    ensures it.Match? ==> forall out :: |out| == n ==> |Played(out, it)| == n + it.Size()
  {
    hide LengthBase, LengthExtra, DistBase, DistExtra;
  }

  /** The bits of a match after its length symbol. */
  function MatchRest(dl: seq<nat>, it: Item): (r: seq<bool>)
    requires it.Match? && it.Valid() && Coded(dl, it.dsym)
    ensures |r| == LengthExtra(it.lsym) + dl[it.dsym] + DistExtra(it.dsym)
  {
    Bits(it.lext, LengthExtra(it.lsym)) + (Codeword(dl, it.dsym) + Bits(it.dext, DistExtra(it.dsym)))
  }

  /** The parts of a match, each at its place. */
  lemma MatchParts(data: seq<byte>, p: nat, dl: seq<nat>, it: Item)
    requires it.Match? && it.Valid() && Coded(dl, it.dsym) && Found(data, p, MatchRest(dl, it))
    ensures var q := p + LengthExtra(it.lsym);
            && Found(data, p, Bits(it.lext, LengthExtra(it.lsym))) && Found(data, q, Codeword(dl, it.dsym))
            && Found(data, q + dl[it.dsym], Bits(it.dext, DistExtra(it.dsym))) && q <= 8 * |data|
  {
    hide Window, Codeword, Bits;
    var x, y, z := Bits(it.lext, LengthExtra(it.lsym)), Codeword(dl, it.dsym), Bits(it.dext, DistExtra(it.dsym));
    FoundSplit(data, p, x, y + z);
    FoundSplit(data, p + |x|, y, z);
  }

  /** A match with length symbol `z` was read at `p`. */
  ghost predicate MatchGot(data: seq<byte>, dl: seq<nat>, p: nat, z: nat, it: Item) {
    it.Match? && it.Valid() && it.lsym == z && Coded(dl, it.dsym) && Reads(data, p, MatchRest(dl, it))
  }

  lemma GotMatch(data: seq<byte>, dl: seq<nat>, p: nat, z: nat, k: nat, d: nat, j: nat)
    requires z < 29 && d < 30 && k < Pow2(LengthExtra(z)) && j < Pow2(DistExtra(d))
    requires Bits(k, LengthExtra(z)) == Window(data, p, LengthExtra(z)) && Starts(dl, d, Window(data, p + LengthExtra(z), 16))
    requires Bits(j, DistExtra(d)) == Window(data, p + LengthExtra(z) + dl[d], DistExtra(d))
    ensures MatchGot(data, dl, p, z, Match(z, k, d, j))
  {
    hide Window, Bits, Codeword, LengthExtra, DistExtra, Pow2, Starts;
    GotCode(data, dl, p + LengthExtra(z), d);
    var x, y, w := Bits(k, LengthExtra(z)), Codeword(dl, d), Bits(j, DistExtra(d));
    ReadsJoin(data, p + |x|, y, w);
    ReadsJoin(data, p, x, y + w);
  }

  /** The item `it` was read at `p`, after `n` bytes of output. */
  ghost predicate ItemGot(data: seq<byte>, ll: seq<nat>, dl: seq<nat>, p: nat, n: nat, it: Item) {
    Encodable(ll, dl, it) && Reaches(n, it) && Reads(data, p, ItemBits(ll, dl, it))
  }

  ghost predicate EndGot(data: seq<byte>, ll: seq<nat>, p: nat) {
    Coded(ll, END_OF_BLOCK) && Reads(data, p, Codeword(ll, END_OF_BLOCK))
  }

  lemma GotEnd(data: seq<byte>, ll: seq<nat>, p: nat)
    requires Starts(ll, END_OF_BLOCK, Window(data, p, 16))
    ensures EndGot(data, ll, p)
  {
    GotCode(data, ll, p, END_OF_BLOCK);
  }

  lemma GotLiteral(data: seq<byte>, ll: seq<nat>, dl: seq<nat>, p: nat, n: nat, out: seq<byte>, z: nat)
    requires Starts(ll, z, Window(data, p, 16)) && z < 256
    ensures ItemGot(data, ll, dl, p, n, Literal(z)) && |ItemBits(ll, dl, Literal(z))| == ll[z]
    ensures Played(out, Literal(z)) == out + [z]
  {
    hide Window, Starts, Codeword;
    GotCode(data, ll, p, z);
  }

  /** A length symbol and the rest of a match are the match. */
  lemma GotItem(data: seq<byte>, ll: seq<nat>, dl: seq<nat>, p: nat, n: nat, z: nat, it: Item)
    requires 257 <= z < 286 && Starts(ll, z, Window(data, p, 16)) && z < |ll|
    requires MatchGot(data, dl, p + ll[z], z - 257, it) && Reaches(n, it)
    ensures ItemGot(data, ll, dl, p, n, it) && |ItemBits(ll, dl, it)| == ll[z] + |MatchRest(dl, it)|
  {
    hide Window, Starts, Codeword, Bits, LengthExtra, DistExtra, LengthBase, DistBase;
    GotCode(data, ll, p, z);
    ReadsJoin(data, p, Codeword(ll, z), MatchRest(dl, it));
  }

  /** The items read from `p` to `q`; they take the output from `out` to `res`. */
  ghost predicate Taken(data: seq<byte>, ll: seq<nat>, dl: seq<nat>, p: nat, out: seq<byte>, items: seq<Item>, q: nat, res: seq<byte>)
    decreases |items|
  {
    if items == [] then p == q && out == res
    else
      && ItemGot(data, ll, dl, p, |out|, items[0])
      && Taken(data, ll, dl, p + |ItemBits(ll, dl, items[0])|, Played(out, items[0]), items[1..], q, res)
  }

  lemma {:induction false} TakenOneMore(data: seq<byte>, ll: seq<nat>, dl: seq<nat>, p: nat, out: seq<byte>, items: seq<Item>, q: nat, res: seq<byte>, it: Item)
    requires Taken(data, ll, dl, p, out, items, q, res) && ItemGot(data, ll, dl, q, |res|, it)
    ensures Taken(data, ll, dl, p, out, items + [it], q + |ItemBits(ll, dl, it)|, Played(res, it))
    decreases |items|
  {
    hide ItemGot, ItemBits, Played;
    var more := items + [it];
    if items == [] {
      assert more[1..] == [];
      Ungot(data, ll, dl, q, |res|, it);
    } else {
      assert more[1..] == items[1..] + [it];
      Ungot(data, ll, dl, p, |out|, items[0]);
      TakenOneMore(data, ll, dl, p + |ItemBits(ll, dl, items[0])|, Played(out, items[0]), items[1..], q, res, it);
    }
  }

  lemma Ungot(data: seq<byte>, ll: seq<nat>, dl: seq<nat>, p: nat, n: nat, it: Item)
    requires ItemGot(data, ll, dl, p, n, it)
    ensures Encodable(ll, dl, it) && Reaches(n, it) && Reads(data, p, ItemBits(ll, dl, it))
  {
  }

  /** Items were read at `p`, and the end of their block after them. */
  ghost predicate ItemsGot(data: seq<byte>, ll: seq<nat>, dl: seq<nat>, p: nat, n: nat, items: seq<Item>) {
    && AllEncodable(ll, dl, items) && Coded(ll, END_OF_BLOCK) && Playable(n, items)
    && Reads(data, p, ItemsBits(ll, dl, items))
  }

  /** Items taken up to the end of their block are the items of the block. */
  lemma {:induction false} TakenAll(data: seq<byte>, ll: seq<nat>, dl: seq<nat>, p: nat, out: seq<byte>, items: seq<Item>, q: nat, res: seq<byte>)
    requires Taken(data, ll, dl, p, out, items, q, res) && EndGot(data, ll, q)
    ensures ItemsGot(data, ll, dl, p, |out|, items) && p + |ItemsBits(ll, dl, items)| == q + ll[END_OF_BLOCK]
    ensures PlayedAll(out, items) == res
    decreases |items|
  {
    hide ItemBits, Played, Reaches, Encodable, Reads, Codeword;
    if items != [] {
      var it, rest := items[0], items[1..];
      PlayedGrows(out, it);
      TakenAll(data, ll, dl, p + |ItemBits(ll, dl, it)|, Played(out, it), rest, q, res);
      assert items == [it] + rest;
      ReadsJoin(data, p, ItemBits(ll, dl, it), ItemsBits(ll, dl, rest));
    }
  }

  lemma PlayedGrows(out: seq<byte>, it: Item)
    requires Reaches(|out|, it)
    ensures |Played(out, it)| == |out| + it.Size()
  {
    PlayedSizes(|out|, it);
  }

  /** The code that a window starts with was read. */
  lemma GotCode(data: seq<byte>, lens: seq<nat>, p: nat, i: nat)
    requires Starts(lens, i, Window(data, p, 16))
    ensures Coded(lens, i) && Reads(data, p, Codeword(lens, i)) && |Codeword(lens, i)| == lens[i]
  {
    var c := Codeword(lens, i);
    WindowSplit(data, p, |c|, 16 - |c|);
  }

  lemma Small(e: nat, k: nat)
    requires e <= 5 && k < Pow2(e)
    ensures k < 32
  {
    Pow2Mono(e, 5);
    assert Pow2(5) == 2 * Pow2(4) && Pow2(4) == 16;
  }

  lemma SameBits(data: seq<byte>, p: nat, k: nat, v: nat, e: nat)
    requires k < Pow2(e) && v < Pow2(e) && Bits(k, e) == Window(data, p, e) && Found(data, p, Bits(v, e))
    ensures k == v
  {
    BitsEqual(k, v, e);
  }

  lemma NextReady(h: Huffman, data: seq<byte>, p: nat, i: nat, z: int)
    requires h.Ready() && Coded(h.lens, i) && Found(data, p, Codeword(h.lens, i))
    requires z >= 0 ==> Starts(h.lens, z, Window(data, p, 16))
    requires z < 0 ==> forall j: nat :: !Starts(h.lens, j, Window(data, p, 16))
    ensures z == i
  {
    hide Fits, Codeword, Found, Starts, Window;
    NextSymbol(data, p, h.lens, i, z);
  }

  ghost predicate HeaderFound(data: seq<byte>, p: nat, h: seq<byte>) {
    forall i :: 0 <= i < |h| ==> Bits(h[i], 8) == Window(data, p + 8 * i, 8)
  }

  lemma Pow2Of8()
    ensures Pow2(8) == 256 && Pow2(16) == 65536
  {
    assert Pow2(4) == 16 && Pow2(8) == 16 * Pow2(4);
    assert Pow2(12) == 16 * Pow2(8) && Pow2(16) == 16 * Pow2(12);
  }

  lemma EmptyBuffer(data: seq<byte>, p: nat, c: nat)
    ensures Bits(c, 0) == Window(data, p, 0)
  {
  }

  lemma AlignedPositive(n: nat)
    requires Aligned(n) && n > 0
    ensures n >= 8 && Aligned(n - 8)
  {
  }

  lemma AlignedBy(p: nat, k: nat)
    requires Aligned(p)
    ensures Aligned(p + 8 * k)
  {
  }

  /** The padding up to the byte boundary is what the buffer holds of the current byte. */
  lemma PadLength(used: nat, numBits: nat, pad: nat)
    requires Aligned(used + numBits) && pad < 8 && Aligned(used + pad)
    ensures numBits % 8 == pad
  {
  }

  lemma AlignedPart(used: nat, numBits: nat, r: nat)
    requires Aligned(used + numBits) && r == numBits % 8
    ensures Aligned(used + r)
  {
  }

  lemma AlignedRest(numBits: nat, r: nat)
    requires r == numBits % 8
    ensures r <= 7 && r <= numBits && Aligned(numBits - r)
  {
    DivModUnique(numBits - r, 8, numBits / 8, 0);
  }

  /** The two words of a stored header; they disagree past the end of the input. */
  lemma HeaderWords(data: seq<byte>, p: nat, h: seq<byte>, p0: nat)
    requires |h| == 4 && HeaderFound(data, p, h) && p0 <= p
    ensures var len, nlen := LdWord(h[0], h[1]), LdWord(h[2], h[3]);
            && Bits(len, 16) == Window(data, p, 16) && Bits(nlen, 16) == Window(data, p + 16, 16)
            && (p0 >= 8 * |data| ==> nlen != 0xFFFF - len)
  {
    hide Bits, Window, LdWord, Pow2;
    WordFound(data, p, h[0], h[1]) by {
      assert Bits(h[0], 8) == Window(data, p + 8 * 0, 8) && Bits(h[1], 8) == Window(data, p + 8 * 1, 8);
    }
    WordFound(data, p + 16, h[2], h[3]) by {
      assert Bits(h[2], 8) == Window(data, p + 8 * 2, 8) && Bits(h[3], 8) == Window(data, p + 8 * 3, 8);
    }
    if p0 >= 8 * |data| {
      PastEnd(data, p, 16);
      PastEnd(data, p + 16, 16);
      Pow2Of8();
      BitsEqual(LdWord(h[0], h[1]), 0, 16);
      BitsEqual(LdWord(h[2], h[3]), 0, 16);
    }
  }

  lemma WordFound(data: seq<byte>, p: nat, lo: byte, hi: byte)
    requires Bits(lo, 8) == Window(data, p, 8) && Bits(hi, 8) == Window(data, p + 8, 8)
    ensures Bits(LdWord(lo, hi), 16) == Window(data, p, 16)
  {
    hide Bits, Window, Pow2;
    Pow2Of8();
    BitsAppend(lo, 8, hi, 8);
    Shl8(hi);
    WindowSplit(data, p, 8, 8);
  }

  lemma Shl8(v: nat)
    ensures Shl(v, 8) == 256 * v
  {
    assert Shl(v, 1) == 2 * v && Shl(v, 2) == 2 * Shl(v, 1);
    assert Shl(v, 4) == 4 * Shl(v, 2);
    assert Shl(v, 6) == 4 * Shl(v, 4);
    assert Shl(v, 8) == 4 * Shl(v, 6);
  }

  /** A stored block, padding first, was read at `p`. */
  ghost predicate StoredGot(data: seq<byte>, p: nat, pad: seq<bool>, bytes: seq<byte>) {
    && |pad| < 8 && Aligned(p + |pad|) && |bytes| < 0x1_0000
    && Reads(data, p, pad + (Bits(|bytes|, 16) + (Bits(0xFFFF - |bytes|, 16) + BytesBits(bytes))))
  }

  lemma GotStored(data: seq<byte>, p: nat, pad: seq<bool>, len: word, pos: nat)
    requires |pad| < 8 && Aligned(p + |pad|) && Reads(data, p, pad) && pos + len <= |data|
    requires Bits(len, 16) == Window(data, p + |pad|, 16) && Bits(0xFFFF - len, 16) == Window(data, p + |pad| + 16, 16)
    requires if pos < |data| then p + |pad| + 32 == 8 * pos else p + |pad| + 32 >= 8 * |data|
    ensures StoredGot(data, p, pad, data[pos..pos + len])
  {
    hide Window, Bits, BytesBits, Aligned;
    var x, y, z := Bits(len, 16), Bits(0xFFFF - len, 16), BytesBits(data[pos..pos + len]);
    var q := p + |pad|;
    if len > 0 {
      BytesRead(data, pos, len);
    } else {
      NoBytes(data, q + 32);
    }
    ReadsJoin(data, q + 16, y, z);
    ReadsJoin(data, q, x, y + z);
    ReadsJoin(data, p, pad, x + (y + z));
  }

  lemma NoBytes(data: seq<byte>, p: nat)
    ensures Reads(data, p, BytesBits([]))
  {
  }

  lemma {:induction false} BytesRead(data: seq<byte>, pos: nat, len: nat)
    requires pos + len <= |data|
    ensures Reads(data, 8 * pos, BytesBits(data[pos..pos + len]))
  {
    hide Bits, Window;
    if len == 0 {
      NoBytes(data, 8 * pos);
    } else {
      var s := data[pos..pos + len];
      BytesRead(data, pos, len - 1);
      assert s[..|s| - 1] == data[pos..pos + len - 1];
      WindowByte(data, pos + len - 1);
      ReadsJoin(data, 8 * pos, BytesBits(s[..|s| - 1]), Bits(s[|s| - 1], 8));
    }
  }

  /** What a stored block that comes next tells about the header and the input. */
  lemma StoredParts(data: seq<byte>, p0: nat, pad: seq<bool>, bytes: seq<byte>, len: nat, nlen: nat, pos: nat)
    requires |bytes| < 0x1_0000 && len < 0x1_0000 && nlen < 0x1_0000
    requires Found(data, p0, pad + (Bits(|bytes|, 16) + (Bits(0xFFFF - |bytes|, 16) + BytesBits(bytes))))
    requires var p := p0 + |pad|;
             && Bits(len, 16) == Window(data, p, 16) && Bits(nlen, 16) == Window(data, p + 16, 16)
             && pos <= |data| && (if pos < |data| then p + 32 == 8 * pos else p + 32 >= 8 * |data|)
    ensures len == |bytes| && nlen == 0xFFFF - len && pos + len <= |data| && data[pos..pos + len] == bytes
  {
    hide Bits, Window, BytesBits;
    var x, y, z := Bits(|bytes|, 16), Bits(0xFFFF - |bytes|, 16), BytesBits(bytes);
    var p := p0 + |pad|;
    FoundSplit(data, p0, pad, x + (y + z));
    FoundSplit(data, p, x, y + z);
    FoundSplit(data, p + 16, y, z);
    Pow2Of8();
    BitsEqual(len, |bytes|, 16);
    BitsEqual(nlen, 0xFFFF - |bytes|, 16);
    BytesFound(data, pos, bytes);
  }

  lemma {:induction false} BytesFound(data: seq<byte>, pos: nat, bytes: seq<byte>)
    requires Found(data, 8 * pos, BytesBits(bytes))
    ensures pos + |bytes| <= |data| && data[pos..pos + |bytes|] == bytes
  {
    hide Bits, Window, Pow2;
    if bytes != [] {
      var m := |bytes| - 1;
      FoundSplit(data, 8 * pos, BytesBits(bytes[..m]), Bits(bytes[m], 8));
      BytesFound(data, pos, bytes[..m]);
      assert 8 * (pos + m) + 8 <= 8 * |data|;
      WindowByte(data, pos + m);
      Pow2Of8();
      BitsEqual(data[pos + m], bytes[m], 8);
      assert bytes == bytes[..m] + [bytes[m]];
    }
  }

  lemma CopiedStep(c: seq<byte>, dist: nat, len: nat)
    requires 0 < dist <= |c|
    ensures Copied(c, dist, len) == if len == 0 then c else Copied(c + [c[|c| - dist]], dist, len - 1)
  {
  }

  /** stbi_realloc_sized_arena and stbi_malloc_arena with their 32-bit sums: is there room for `size` bytes? */
  predicate ArenaHas(arena: nat, size: nat) {
    (arena + RoundUp4(size) % TWO32) % TWO32 <= ARENA
  }

  lemma ArenaIs(arena: nat, size: nat)
    requires arena <= ARENA && size <= 4 * ARENA
    ensures ArenaHas(arena, size) <==> arena + RoundUp4(size) <= ARENA
    ensures size <= RoundUp4(size) && (size >= 2 ==> RoundUp4(size) <= 2 * size)
  {
    var r := RoundUp4(size);
    DivModUnique(r, TWO32, 0, r);
    DivModUnique(arena + r, TWO32, 0, arena + r);
  }

  /** A code that stands in the stream is the one that is decoded. */
  lemma NextSymbol(data: seq<byte>, p: nat, lens: seq<nat>, i: nat, z: int)
    requires Short(lens) && Fits(lens) && Coded(lens, i) && Found(data, p, Codeword(lens, i))
    requires z >= 0 ==> Starts(lens, z, Window(data, p, 16))
    requires z < 0 ==> forall j: nat :: !Starts(lens, j, Window(data, p, 16))
    ensures z == i
  {
    hide Fits, Codeword;
    var s := lens[i];
    WindowSplit(data, p, s, 16 - s);
    assert Codeword(lens, i) <= Window(data, p, 16);
    assert Starts(lens, i, Window(data, p, 16));
    BitsOfVal(Window(data, p, 16));
    PrefixFree(lens, i, z, Val(Window(data, p, 16)));
  }

  lemma CodeLengths(h: Huffman)
    requires h.Ready()
    ensures Short(h.lens)
  {
  }

  /** The byte fetched next continues the stream. */
  lemma NextByte(data: seq<byte>, pos: nat, p: nat)
    requires pos <= |data| && (if pos < |data| then p == 8 * pos else p >= 8 * |data|)
    ensures Window(data, p, 8) == Bits(if pos < |data| then data[pos] else 0, 8)
  {
    if pos < |data| {
      WindowByte(data, pos);
    } else {
      PastEnd(data, p, 8);
    }
  }

  lemma PastEnd(data: seq<byte>, p: nat, n: nat)
    requires p >= 8 * |data|
    ensures Window(data, p, n) == Bits(0, n)
  {
    forall j | 0 <= j < n ensures Window(data, p, n)[j] == Bits(0, n)[j] {
      BitsAt(0, n, j);
      ZeroBit(j);
      assert (p + j) / 8 >= |data|;
    }
  }

  lemma Appended(data: seq<byte>, p: nat, c: nat, n: nat, b: byte)
    requires c < Pow2(n) && Bits(c, n) == Window(data, p, n) && Window(data, p + n, 8) == Bits(b, 8)
    ensures c + Shl(b, n) < Pow2(n + 8) && Bits(c + Shl(b, n), n + 8) == Window(data, p, n + 8)
  {
    BitsAppend(c, n, b, 8);
    WindowSplit(data, p, n, 8);
    assert Pow2(8) == 256 by {
      assert Pow2(4) == 16 && Pow2(8) == 16 * Pow2(4);
    }
    AppendBound(c, n, b, 8);
  }

  lemma Padded(data: seq<byte>, p: nat, c: nat, n: nat, m: nat)
    requires c < Pow2(n) && Bits(c, n) == Window(data, p, n) && p + n >= 8 * |data|
    ensures c < Pow2(n + m) && Bits(c, n + m) == Window(data, p, n + m)
  {
    BitsAppend(c, n, 0, m);
    ShlOne(n);
    WindowSplit(data, p, n, m);
    PastEnd(data, p + n, m);
    Pow2Mono(n, n + m);
  }

  lemma Dropped(data: seq<byte>, p: nat, c: nat, n: nat, k: nat)
    requires c < Pow2(n) && Bits(c, n) == Window(data, p, n) && k <= n
    ensures Shr(c, k) < Pow2(n - k) && Bits(Shr(c, k), n - k) == Window(data, p + k, n - k)
  {
    BitsSplit(c, k, n - k);
    WindowSplit(data, p, k, n - k);
    SameTail(Bits(c, k), Window(data, p, k), Bits(Shr(c, k), n - k), Window(data, p + k, n - k));
    ShrRange(c, k, n - k);
  }

  lemma FirstBits(data: seq<byte>, p: nat, c: nat, n: nat, k: nat)
    requires Bits(c, n) == Window(data, p, n) && k <= n
    ensures Bits(c, k) == Window(data, p, k) == Bits(Low(c, k), k)
  {
    BitsSplit(c, k, n - k);
    WindowSplit(data, p, k, n - k);
    SameTail(Bits(c, k), Window(data, p, k), Bits(Shr(c, k), n - k), Window(data, p + k, n - k));
    ValOfBits(c, k);
    BitsOfVal(Bits(c, k));
  }
}
