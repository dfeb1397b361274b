/** Long file names in directory entries of 13 characters each. */
module LongNames {
  import opened Bytes
  import opened Entries

  /** The 32 bytes of a directory entry. */
  type Ent = e: seq<byte> | |e| == SZDIRE witness seq(SZDIRE, _ => 0)

  const LLEF: nat := 0x40
  const AM_VOL: nat := 0x08
  const AM_LFN: nat := 0x0F
  const MAX_LFN: nat := 255

  /** A character buffer as the code keeps it: room for the longest name and its terminator. */
  type NameBuf = b: seq<word> | |b| == MAX_LFN + 1 witness seq(MAX_LFN + 1, _ => 0)

  /** Upper-casing: some function that maps 0, and only 0, to 0. */
  ghost predicate Folding(up: word -> word) {
    up(0) == 0 && forall c: word :: c != 0 ==> up(c) != 0
  }

  /** A name that can be stored: 1 to 255 characters, neither 0 nor 0xFFFF. */
  ghost predicate Storable(name: seq<word>) {
    1 <= |name| <= MAX_LFN && forall i :: 0 <= i < |name| ==> name[i] != 0 && name[i] != 0xFFFF
  }

  /** The buffer holds the name and its terminator; what follows does not matter. */
  ghost predicate HoldsName(buf: NameBuf, name: seq<word>) {
    |name| <= MAX_LFN && buf[..|name|] == name && buf[|name|] == 0 && forall i :: 0 <= i < |name| ==> name[i] != 0
  }

  /** Names that differ at most in case. */
  ghost predicate SameFolded(up: word -> word, x: seq<word>, y: seq<word>) {
    |x| == |y| && forall i :: 0 <= i < |x| ==> up(x[i]) == up(y[i])
  }

  /** Where the 13 characters of an entry stand. */
  function LfnOfs(di: nat): (r: nat)
    requires di < 13
    ensures 1 <= r <= 30 && (r < 10 || 14 <= r < 25 || 28 <= r)
  {
    if di < 5 then 1 + 2 * di else if di < 11 then 4 + 2 * di else 6 + 2 * di
  }

  /** The characters stand in order and apart; with their range this leaves no other places for thirteen of them. */
  lemma LfnOrder(di: nat)
    requires di < 12
    ensures LfnOfs(di) + 2 <= LfnOfs(di + 1)
    ensures LfnOfs(0) == 1 && LfnOfs(4) == 9 && LfnOfs(5) == 14 && LfnOfs(10) == 24 && LfnOfs(11) == 28 && LfnOfs(12) == 30
  {
  }

  function CharAt(e: Ent, di: nat): word
    requires di < 13
  {
    WordAt(e, LfnOfs(di))
  }

  /** Character `pos` of a stored name: terminated by 0 and padded with 0xFFFF. */
  function Padded(name: seq<word>, pos: nat): word {
    if pos < |name| then name[pos] else if pos == |name| then 0 else 0xFFFF
  }

  /** The number of entries a name takes. */
  function EntryCount(len: nat): nat {
    (len + 12) / 13
  }

  /** Part `ord` reaches the end of the name. */
  predicate LastPart(len: nat, ord: nat) {
    len <= 13 * ord
  }

  /** An entry that holds part `ord` of the name. */
  ghost predicate HoldsPart(e: Ent, name: seq<word>, ord: nat, sum: byte)
    requires 1 <= ord <= 20
  {
    && e[0] == ord + (if LastPart(|name|, ord) then LLEF else 0)
    && e[11] == AM_LFN && e[12] == 0 && e[13] == sum && e[26] == 0 && e[27] == 0
    && forall di :: 0 <= di < 13 ==> CharAt(e, di) == Padded(name, 13 * (ord - 1) + di)
  }

  /** The bytes of a long-name entry besides its characters: the number with bit 6 set in the last part, the mark 0x0F, the checksum. */
  lemma PartBytes(e: Ent, name: seq<word>, ord: nat, sum: byte)
    requires 1 <= ord <= 20 && HoldsPart(e, name, ord, sum)
    ensures e[0] == (if |name| <= 13 * ord then ord + 64 else ord) && e[11] == 15 && e[13] == sum && e[12] == e[26] == e[27] == 0
  {
  }

  /** The longest name has 255 characters and takes 20 entries. */
  lemma LongestName(name: seq<word>)
    requires forall i :: 0 <= i < |name| ==> name[i] != 0 && name[i] != 0xFFFF
    ensures Storable(name) <==> 1 <= |name| <= 255
    ensures Storable(name) ==> 13 * (EntryCount(|name|) - 1) < |name| <= 13 * EntryCount(|name|) && EntryCount(|name|) <= 20
  {
  }

  /* ---- put_lfn ---- */

  /** put_lfn: writes part `ord` of the name into the entry at `d`. */
  method PutLfn(buf: NameBuf, dir: array<byte>, d: nat, ord: nat, sum: byte, ghost name: seq<word>)
    requires d + SZDIRE <= dir.Length && HoldsName(buf, name) && Storable(name) && 1 <= ord <= EntryCount(|name|)
    modifies dir
    ensures HoldsPart(dir[d..d + SZDIRE], name, ord, sum)
    ensures forall k :: 0 <= k < dir.Length && !(d <= k < d + SZDIRE) ==> dir[k] == old(dir[k])
  {
    hide LdWord, HoldsName;
    PartBounds(|name|, ord);
    dir[d + 13], dir[d + 11], dir[d + 12] := sum, AM_LFN, 0;
    dir[d + 26], dir[d + 27] := 0, 0;
    var start := (ord - 1) * 13;
    var ni, di, chr: word := start, 0, 0;
    while di < 13
      invariant di <= 13 && start <= ni <= |name| + 1 && ni <= start + di
      invariant chr == 0xFFFF <==> |name| < start + di
      invariant chr != 0xFFFF ==> ni == start + di
      invariant dir[d + 13] == sum && dir[d + 11] == AM_LFN && dir[d + 12] == 0 && dir[d + 26] == 0 && dir[d + 27] == 0
      invariant forall i :: 0 <= i < di ==> WordAt(dir[..], d + LfnOfs(i)) == Padded(name, start + i)
      invariant forall k :: 0 <= k < dir.Length && !(d <= k < d + SZDIRE) ==> dir[k] == old(dir[k])
    {
      if chr != 0xFFFF {
        CharIn(buf, name, ni);
        chr := buf[ni];
        ni := ni + 1;
      }
      StoreChar(dir, d, di, chr);
      if chr == 0 {
        chr := 0xFFFF;
      }
      di := di + 1;
    }
    if ni <= |name| {
      CharIn(buf, name, ni);
    }
    var last := chr == 0xFFFF || buf[ni] == 0;
    dir[d] := ord + (if last then LLEF else 0);
    PartWritten(dir[..], d, name, ord, sum);
  }

  lemma PartBounds(len: nat, ord: nat)
    requires 1 <= ord <= EntryCount(len) && 1 <= len <= MAX_LFN
    ensures ord <= 20 && 13 * (ord - 1) < len
  {
  }

  lemma CharIn(buf: NameBuf, name: seq<word>, i: nat)
    requires HoldsName(buf, name) && i <= |name|
    ensures buf[i] == if i < |name| then name[i] else 0
  {
    assert i < |name| ==> buf[i] == buf[..|name|][i];
  }

  method StoreChar(dir: array<byte>, d: nat, di: nat, chr: word)
    requires d + SZDIRE <= dir.Length && di < 13
    modifies dir
    ensures WordAt(dir[..], d + LfnOfs(di)) == chr
    ensures forall k :: 0 <= k < dir.Length && k != d + LfnOfs(di) && k != d + LfnOfs(di) + 1 ==> dir[k] == old(dir[k])
  {
    WordRoundTrip(chr);
    StoreWord(dir, d + LfnOfs(di), chr);
  }

  lemma PartWritten(s: seq<byte>, d: nat, name: seq<word>, ord: nat, sum: byte)
    requires d + SZDIRE <= |s| && 1 <= ord <= 20
    requires s[d] == ord + (if LastPart(|name|, ord) then LLEF else 0)
    requires s[d + 13] == sum && s[d + 11] == AM_LFN && s[d + 12] == 0 && s[d + 26] == 0 && s[d + 27] == 0
    requires forall i :: 0 <= i < 13 ==> WordAt(s, d + LfnOfs(i)) == Padded(name, (ord - 1) * 13 + i)
    ensures HoldsPart(s[d..d + SZDIRE], name, ord, sum)
  {
    hide LdWord, Padded, LfnOfs;
    var e: Ent := s[d..d + SZDIRE];
    forall di | 0 <= di < 13 ensures CharAt(e, di) == Padded(name, 13 * (ord - 1) + di) {
      assert WordAt(s, d + LfnOfs(di)) == Padded(name, (ord - 1) * 13 + di);
    }
  }

  /* ---- cmp_lfn and pick_lfn on any entry ---- */

  /** The place of the first terminator from character `di` on, 13 if there is none. */
  function TermAt(e: Ent, di: nat): (t: nat)
    requires di <= 13
    ensures di <= t <= 13 && (t < 13 ==> CharAt(e, t) == 0) && forall i :: di <= i < t ==> CharAt(e, i) != 0
    decreases 13 - di
  {
    if di == 13 || CharAt(e, di) == 0 then di else TermAt(e, di + 1)
  }

  /** The number of a part; the first part has number 1. */
  function Part(e: Ent): (o: nat)
    ensures o < LLEF
  {
    e[0] % LLEF
  }

  predicate IsLast(e: Ent) {
    e[0] / LLEF % 2 == 1
  }

  /** Only padding from character `n` backwards to the terminator. */
  ghost predicate Filler(e: Ent, n: nat) {
    forall di {:trigger CharAt(e, di)} :: TermAt(e, 0) < di < n && di < 13 ==> CharAt(e, di) == 0xFFFF
  }

  /** The entry is formed like one that put_lfn writes: a cluster field of 0, and only padding after a terminator. */
  ghost predicate WellFilled(e: Ent) {
    WordAt(e, 26) == 0 && Filler(e, 13)
  }

  /** The first `n` characters, up to a terminator, are the same up to case as those of the buffer from `start` on. */
  ghost predicate CharsMatch(up: word -> word, buf: NameBuf, e: Ent, start: nat, n: nat) {
    forall di {:trigger CharAt(e, di)} :: 0 <= di < n && di < 13 && di <= TermAt(e, 0) ==>
      start + di <= MAX_LFN && up(CharAt(e, di)) == up(buf[start + di])
  }

  lemma StartInside(up: word -> word, buf: NameBuf, e: Ent, start: nat)
    requires CharsMatch(up, buf, e, start, 13)
    ensures start + (if TermAt(e, 0) < 13 then TermAt(e, 0) else 12) <= MAX_LFN
  {
    var t := TermAt(e, 0);
    var c := CharAt(e, if t < 13 then t else 12);
  }

  /** The part of the name in the buffer that the entry is about is the same up to case, and the name ends where the entry says. */
  ghost predicate PartMatches(up: word -> word, buf: NameBuf, e: Ent) {
    && WellFilled(e) && Part(e) > 0 && CharsMatch(up, buf, e, 13 * (Part(e) - 1), 13)
    && (IsLast(e) && TermAt(e, 0) == 13 && 13 * Part(e) <= MAX_LFN ==> buf[13 * Part(e)] == 0)
  }

  /** The order of a part minus one, times 13, in unsigned arithmetic. */
  function PartStart(o: nat): nat
    requires o < 0xC0
  {
    (o - 1) % TWO32 * 13 % TWO32
  }

  lemma PartStartIs(o: nat)
    requires o < 0xC0
    ensures o > 0 ==> PartStart(o) == 13 * (o - 1)
    ensures o == 0 ==> PartStart(o) > MAX_LFN
  {
    if o > 0 {
      DivModUnique(o - 1, TWO32, 0, o - 1);
      DivModUnique((o - 1) * 13, TWO32, 0, (o - 1) * 13);
    } else {
      DivModUnique(-1, TWO32, -1, TWO32 - 1);
      DivModUnique((TWO32 - 1) * 13, TWO32, 12, TWO32 - 13);
    }
  }

  /** The loop of cmp_lfn over the 13 characters: compares up to a terminator, then expects padding. */
  method CmpChars(up: word -> word, buf: NameBuf, e: Ent, start: nat) returns (ok: bool, pchr: word)
    ensures ok <==> CharsMatch(up, buf, e, start, 13) && Filler(e, 13)
    ensures ok ==> (pchr == 0 <==> TermAt(e, 0) < 13)
  {
    hide CharAt, TermAt;
    var ni: nat := start;
    ghost var t := TermAt(e, 0);
    ok, pchr := false, 1;
    for di := 0 to 13
      invariant pchr == 0 <==> t < di
      invariant pchr != 0 ==> ni == start + di
      invariant CharsMatch(up, buf, e, start, di) && Filler(e, di)
    {
      var chr := CharAt(e, di);
      if pchr != 0 {
        if ni >= MAX_LFN + 1 || up(chr) != up(buf[ni]) {
          return;
        }
        ni := ni + 1;
        pchr := chr;
      } else if chr != 0xFFFF {
        return;
      }
    }
    ok := true;
  }

  /** cmp_lfn */
  method CmpLfn(up: word -> word, buf: NameBuf, e: Ent) returns (ok: bool)
    ensures ok <==> PartMatches(up, buf, e)
  {
    hide CharAt, TermAt, PartStart, Part, IsLast, LdWord, CharsMatch, Filler;
    ok := false;
    if WordAt(e, 26) != 0 {
      return;
    }
    var o := Part(e);
    PartStartIs(o);
    var ni := PartStart(o);
    var pchr;
    ok, pchr := CmpChars(up, buf, e, ni);
    if ok {
      StartInside(up, buf, e, ni);
      NotAtLimit(o);
      if IsLast(e) && pchr != 0 && buf[ni + 13] != 0 {
        ok := false;
      }
    }
  }

  /** The end of a full part is never the end of the buffer. */
  lemma NotAtLimit(o: nat)
    ensures 13 * o <= MAX_LFN + 1 ==> 13 * o <= MAX_LFN
  {
  }

  /** The first `n` characters, up to a terminator, stand in the buffer from `start` on. */
  ghost predicate CharsStored(buf: NameBuf, e: Ent, start: nat, n: nat) {
    forall di {:trigger CharAt(e, di)} :: 0 <= di < n && di < 13 && di <= TermAt(e, 0) ==>
      start + di <= MAX_LFN && buf[start + di] == CharAt(e, di)
  }

  /** The buffer is the same outside the stretch from `lo` to `hi`. */
  ghost predicate KeptOutside(before: NameBuf, after: NameBuf, lo: nat, hi: nat) {
    forall i :: 0 <= i <= MAX_LFN && (i < lo || i >= hi) ==> after[i] == before[i]
  }

  /** What pick_lfn leaves in the buffer: the characters of the part, a terminator if it is the last, all else as it was. */
  ghost predicate Picked(before: NameBuf, after: NameBuf, e: Ent)
    requires Part(e) > 0
  {
    var start, t := 13 * (Part(e) - 1), TermAt(e, 0);
    && CharsStored(after, e, start, 13)
    && (IsLast(e) && t == 13 ==> start + 13 <= MAX_LFN && after[start + 13] == 0)
    && KeptOutside(before, after, start, start + t + (if t < 13 || IsLast(e) then 1 else 0))
  }

  /** The order of an entry without the flag of the last part. */
  function Order(e: Ent): (o: nat)
    ensures e[0] < 0x80 ==> o == Part(e)
    ensures e[0] >= 0x80 ==> o >= 0x80
    ensures o < 0xC0
  {
    OrderFlag(e[0]);
    if IsLast(e) then e[0] - LLEF else e[0]
  }

  lemma OrderFlag(b: byte)
    ensures b < LLEF ==> b / LLEF == 0 && b % LLEF == b
    ensures LLEF <= b < 0x80 ==> b / LLEF == 1 && b % LLEF == b - LLEF
    ensures 0x80 <= b < 0xC0 ==> b / LLEF == 2
    ensures 0xC0 <= b ==> b / LLEF == 3
  {
  }

  /** The part number and the mark of the last part in the bits of the first byte. */
  lemma PartByBits(e: Ent, b: bv8)
    requires e[0] == b as int
    ensures Part(e) == (b & 0x3F) as int && (IsLast(e) <==> b & 0x40 != 0)
  {
  }

  /** The order is the first byte without the mark of the last part. */
  lemma OrderByBits(e: Ent, b: bv8)
    requires e[0] == b as int
    ensures Order(e) == (b & 0xBF) as int
  {
  }

  /** The part can be picked: it is well filled and its characters fit the buffer. */
  ghost predicate Pickable(e: Ent) {
    WellFilled(e) && Part(e) > 0 && e[0] < 0x80 && 13 * (Part(e) - 1) + TermAt(e, 0) <= MAX_LFN
  }

  /** The loop of pick_lfn over the 13 characters. */
  method PickChars(buf: array<word>, e: Ent, start: nat) returns (ok: bool, ni: nat, pchr: word)
    requires buf.Length == MAX_LFN + 1
    modifies buf
    ensures ok <==> Filler(e, 13) && start + (if TermAt(e, 0) < 13 then TermAt(e, 0) else 12) <= MAX_LFN
    ensures ok ==> CharsStored(buf[..], e, start, 13)
    ensures ok ==> (pchr == 0 <==> TermAt(e, 0) < 13) && ni == start + TermAt(e, 0) + (if pchr == 0 then 1 else 0)
    ensures ok ==> KeptOutside(old(buf[..]), buf[..], start, ni)
  {
    hide CharAt, TermAt;
    ni := start;
    ghost var t := TermAt(e, 0);
    ok, pchr := false, 1;
    for di := 0 to 13
      invariant pchr == 0 <==> t < di
      invariant pchr != 0 ==> ni == start + di
      invariant pchr == 0 ==> ni == start + t + 1
      invariant di > 0 ==> start + (if t < di then t else di - 1) <= MAX_LFN
      invariant CharsStored(buf[..], e, start, di) && Filler(e, di) && KeptOutside(old(buf[..]), buf[..], start, ni)
    {
      var chr := CharAt(e, di);
      if pchr != 0 {
        if ni >= MAX_LFN + 1 {
          return;
        }
        pchr := chr;
        buf[ni] := chr;
        ni := ni + 1;
      } else if chr != 0xFFFF {
        return;
      }
    }
    ok := true;
  }

  /** pick_lfn */
  method PickLfn(buf: array<word>, e: Ent) returns (ok: bool)
    requires buf.Length == MAX_LFN + 1
    modifies buf
    ensures ok <==> Pickable(e)
    ensures ok ==> Picked(old(buf[..]), buf[..], e)
  {
    hide CharAt, TermAt, PartStart, Part, Order, IsLast, LdWord, Filler;
    ok := false;
    if WordAt(e, 26) != 0 {
      return;
    }
    var o := Order(e);
    PartStartIs(o);
    NotAtLimit(o);
    var ni, pchr := PartStart(o), 0;
    ok, ni, pchr := PickChars(buf, e, ni);
    if ok {
      if IsLast(e) && pchr != 0 {
        if ni >= MAX_LFN + 1 {
          ok := false;
        } else {
          buf[ni] := 0;
        }
      }
    }
  }

  /* ---- stored names ---- */

  /** The parts of a stored name, in ascending order. */
  ghost predicate HoldsParts(es: seq<Ent>, name: seq<word>, sum: byte) {
    && |es| == EntryCount(|name|) && |es| <= 20
    && forall i :: 0 <= i < |es| ==> HoldsPart(es[i], name, i + 1, sum)
  }

  lemma {:induction false} TermIs(e: Ent, di: nat, k: nat)
    requires di <= k <= 13 && (forall i :: di <= i < k ==> CharAt(e, i) != 0) && (k < 13 ==> CharAt(e, k) == 0)
    ensures TermAt(e, di) == k
    decreases k - di
  {
    hide CharAt;
    if di < k {
      TermIs(e, di + 1, k);
    }
  }

  /** What can be read off an entry that holds a part. */
  lemma PartShape(e: Ent, name: seq<word>, ord: nat, sum: byte)
    requires Storable(name) && 1 <= ord <= EntryCount(|name|) && ord <= 20 && HoldsPart(e, name, ord, sum)
    ensures Part(e) == ord && (IsLast(e) <==> ord == EntryCount(|name|)) && WellFilled(e) && e[0] < 0x80
    ensures TermAt(e, 0) == if |name| < 13 * ord then |name| - 13 * (ord - 1) else 13
  {
    hide CharAt, LdWord, TermAt;
    PartBounds(|name|, ord);
    TermIs(e, 0, if |name| < 13 * ord then |name| - 13 * (ord - 1) else 13);
    OrderByte(e[0], ord, LastPart(|name|, ord));
    ZeroWordAt(e);
  }

  lemma ZeroWordAt(e: Ent)
    ensures e[26] == 0 && e[27] == 0 ==> WordAt(e, 26) == 0
  {
  }

  lemma OrderByte(b: byte, ord: nat, last: bool)
    requires ord <= 20 && b == ord + (if last then LLEF else 0)
    ensures b % LLEF == ord && (b / LLEF % 2 == 1 <==> last)
  {
    DivModUnique(b, LLEF, if last then 1 else 0, ord);
  }

  /** The name and the buffer agree up to case from `lo` up to `hi`, the terminator of the name included. */
  ghost predicate Agree(up: word -> word, name: seq<word>, buf: NameBuf, lo: nat, hi: nat) {
    forall i {:trigger Padded(name, i)} :: lo <= i < hi && i <= |name| && i <= MAX_LFN ==> up(Padded(name, i)) == up(buf[i])
  }

  /** One part matches exactly if its stretch of the names agrees and, in the last part, the names end together. */
  lemma PartMatchesIff(up: word -> word, buf: NameBuf, e: Ent, name: seq<word>, ord: nat, sum: byte)
    requires Storable(name) && 1 <= ord <= EntryCount(|name|) && ord <= 20 && HoldsPart(e, name, ord, sum)
    ensures PartMatches(up, buf, e) <==>
            Agree(up, name, buf, 13 * (ord - 1), 13 * ord) && (|name| == 13 * ord ==> buf[|name|] == 0)
  {
    hide CharAt, TermAt, Part, IsLast, Padded, LdWord, WellFilled;
    PartShape(e, name, ord, sum);
    PartBounds(|name|, ord);
    var start := 13 * (ord - 1);
    if Agree(up, name, buf, start, 13 * ord) {
      forall di {:trigger CharAt(e, di)} | 0 <= di < 13 && di <= TermAt(e, 0)
        ensures start + di <= MAX_LFN && up(CharAt(e, di)) == up(buf[start + di])
      {
        assert CharAt(e, di) == Padded(name, start + di);
      }
    }
    if CharsMatch(up, buf, e, start, 13) {
      forall i {:trigger Padded(name, i)} | start <= i < 13 * ord && i <= |name| && i <= MAX_LFN
        ensures up(Padded(name, i)) == up(buf[i])
      {
        assert CharAt(e, i - start) == Padded(name, start + (i - start));
      }
    }
    LastCount(|name|, ord);
  }

  lemma LastCount(len: nat, ord: nat)
    requires 1 <= ord <= EntryCount(len) && len >= 1
    ensures ord == EntryCount(len) <==> len <= 13 * ord
  {
  }

  /** A stored part matches a buffer that holds the same name. */
  lemma SelfMatch(up: word -> word, buf: NameBuf, e: Ent, name: seq<word>, ord: nat, sum: byte)
    requires Storable(name) && HoldsName(buf, name) && 1 <= ord <= EntryCount(|name|) && ord <= 20
    requires HoldsPart(e, name, ord, sum)
    ensures PartMatches(up, buf, e)
  {
    hide CharAt, TermAt, Part, IsLast, Padded, LdWord, WellFilled, PartMatches, EntryCount;
    SameAgrees(up, name, buf, name);
    PartMatchesIff(up, buf, e, name, ord, sum);
  }

  /** All parts of the stored name match what the buffer holds. */
  ghost predicate AllMatch(up: word -> word, buf: NameBuf, es: seq<Ent>) {
    forall i :: 0 <= i < |es| ==> PartMatches(up, buf, es[i])
  }

  /** A stored name is matched exactly by the names that differ at most in case, whatever stands behind the terminator in the buffer. */
  lemma StoredNameMatches(up: word -> word, buf: NameBuf, es: seq<Ent>, name: seq<word>, sum: byte, wanted: seq<word>)
    requires Folding(up) && Storable(name) && HoldsParts(es, name, sum) && HoldsName(buf, wanted)
    ensures AllMatch(up, buf, es) <==> SameFolded(up, name, wanted)
  {
    hide PartMatches, HoldsPart, Padded;
    var n := |es|;
    CountCovers(|name|);
    if AllMatch(up, buf, es) {
      forall i {:trigger Padded(name, i)} | 0 <= i < |name| + 1 ensures up(Padded(name, i)) == up(buf[i]) {
        var k := if i == 13 * n then n - 1 else i / 13;
        PartMatchesIff(up, buf, es[k], name, k + 1, sum);
        EndPadding(name);
      }
      AgreeIsSame(up, name, buf, wanted);
    }
    if SameFolded(up, name, wanted) {
      SameAgrees(up, name, buf, wanted);
      forall i | 0 <= i < n ensures PartMatches(up, buf, es[i]) {
        PartMatchesIff(up, buf, es[i], name, i + 1, sum);
        EndPadding(name);
      }
    }
  }

  lemma CountCovers(len: nat)
    requires 1 <= len <= MAX_LFN
    ensures 1 <= EntryCount(len) && 13 * (EntryCount(len) - 1) < len <= 13 * EntryCount(len)
  {
  }

  lemma EndPadding(name: seq<word>)
    ensures Padded(name, |name|) == 0
  {
  }

  lemma AgreeIsSame(up: word -> word, name: seq<word>, buf: NameBuf, wanted: seq<word>)
    requires Folding(up) && Storable(name) && HoldsName(buf, wanted) && Agree(up, name, buf, 0, |name| + 1)
    ensures SameFolded(up, name, wanted)
  {
    assert up(Padded(name, |name|)) == up(buf[|name|]);
    if |wanted| <= |name| {
      assert up(Padded(name, |wanted|)) == up(buf[|wanted|]);
    } else {
      CharIn(buf, wanted, |name|);
    }
    forall i | 0 <= i < |name| && i < |wanted| ensures up(name[i]) == up(wanted[i]) {
      CharIn(buf, wanted, i);
      assert up(Padded(name, i)) == up(buf[i]);
    }
  }

  lemma SameAgrees(up: word -> word, name: seq<word>, buf: NameBuf, wanted: seq<word>)
    requires SameFolded(up, name, wanted) && HoldsName(buf, wanted)
    ensures Agree(up, name, buf, 0, |name| + 1) && buf[|name|] == 0
  {
    forall i {:trigger Padded(name, i)} | 0 <= i < |name| + 1 ensures up(Padded(name, i)) == up(buf[i]) {
      CharIn(buf, wanted, i);
    }
  }

  /** The buffer holds the name from `lo` on, its terminator included. */
  ghost predicate HoldsTail(buf: NameBuf, name: seq<word>, lo: nat) {
    |name| <= MAX_LFN && forall i {:trigger Padded(name, i)} :: lo <= i <= |name| ==> buf[i] == Padded(name, i)
  }

  /** Picking part `ord` after all later parts brings the tail of the name further down. */
  lemma PickStep(before: NameBuf, after: NameBuf, e: Ent, name: seq<word>, ord: nat, sum: byte)
    requires Storable(name) && 1 <= ord <= EntryCount(|name|) && ord <= 20 && HoldsPart(e, name, ord, sum)
    requires Part(e) > 0 && Picked(before, after, e) && (ord < EntryCount(|name|) ==> HoldsTail(before, name, 13 * ord))
    ensures HoldsTail(after, name, 13 * (ord - 1))
  {
    hide CharAt, TermAt, Part, IsLast, LdWord, Padded;
    PartShape(e, name, ord, sum);
    PartBounds(|name|, ord);
    LastCount(|name|, ord);
    EndPadding(name);
    var start := 13 * (ord - 1);
    forall i {:trigger Padded(name, i)} | start <= i <= |name| ensures after[i] == Padded(name, i) {
      if i < start + 13 {
        assert CharAt(e, i - start) == Padded(name, start + (i - start));
      }
    }
  }

  /** A part that is stored can be picked. */
  lemma PartPickable(e: Ent, name: seq<word>, ord: nat, sum: byte)
    requires Storable(name) && 1 <= ord <= EntryCount(|name|) && ord <= 20 && HoldsPart(e, name, ord, sum)
    ensures Pickable(e) && Part(e) == ord
  {
    hide CharAt, TermAt, Part, IsLast, LdWord, Padded, WellFilled, EntryCount;
    PartShape(e, name, ord, sum);
    PartBounds(|name|, ord);
  }

  lemma TailIsName(buf: NameBuf, name: seq<word>)
    requires Storable(name) && HoldsTail(buf, name, 0)
    ensures HoldsName(buf, name)
  {
    EndPadding(name);
    forall i | 0 <= i < |name| ensures buf[..|name|][i] == name[i] {
      assert buf[i] == Padded(name, i);
    }
    assert buf[|name|] == Padded(name, |name|);
  }

  /* ---- sum_sfn ---- */

  /** One step of the checksum: rotate right by one bit and add, in eight bits. */
  function SumStep(sum: byte, b: byte): byte {
    (sum / 2 + sum % 2 * 0x80 + b) % 0x100
  }

  function SumOf(sfn: seq<byte>): byte {
    if sfn == [] then 0 else SumStep(SumOf(sfn[..|sfn| - 1]), sfn[|sfn| - 1])
  }

  /** sum_sfn: the checksum of the eleven bytes of a short name. */
  method SumSfn(dir: seq<byte>) returns (sum: byte)
    requires |dir| >= 11
    ensures sum == SumOf(dir[..11])
  {
    sum := 0;
    for n := 0 to 11
      invariant sum == SumOf(dir[..n])
    {
      assert dir[..n + 1][..n] == dir[..n];
      var wide: int := sum;
      sum := (wide / 2 + wide * 0x80 + dir[n]) % 0x100;
      Rotated(wide, dir[n]);
    }
  }

  lemma SumAppend(s: seq<byte>, b: byte)
    ensures SumOf(s + [b]) == SumStep(SumOf(s), b)
  {
    hide SumStep;
    assert (s + [b])[..|s|] == s;
  }

  lemma FirstStep(a: byte)
    ensures SumStep(0, a) == a
  {
  }

  /** The first character stands for itself, and is turned before the second one is added. */
  lemma SumInOrder(a: byte, b: byte)
    ensures SumOf([a]) == a && SumOf([a, b]) == SumStep(a, b)
  {
    hide SumStep;
    SumAppend([], a);
    SumAppend([a], b);
    FirstStep(a);
    assert [] + [a] == [a] && [a] + [b] == [a, b];
  }

  /** Cut to eight bits, `(s >> 1) + (s << 7)` is a rotation. */
  lemma Rotated(s: int, b: byte)
    requires 0 <= s < 0x100
    ensures (s / 2 + s * 0x80 + b) % 0x100 == SumStep(s, b)
  {
    var x := s / 2 + s % 2 * 0x80 + b;
    assert s / 2 + s * 0x80 + b == x + 0x100 * (s / 2);
    var q, r := x / 0x100, x % 0x100;
    DivModUnique(x + 0x100 * (s / 2), 0x100, q + s / 2, r);
  }
}
