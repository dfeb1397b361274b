/** The file allocation table as packed bytes: 12, 16 and 28-bit entries. */
module FatTable {
  import opened Bytes

  datatype FatType = FAT12 | FAT16 | FAT32

  /** Cluster limits of the three sub-types (MAX_FAT12, MAX_FAT16, MAX_FAT32). */
  function MaxClusters(ty: FatType): nat {
    match ty
    case FAT12 => 0xFF5
    case FAT16 => 0xFFF5
    case FAT32 => 0x0FFF_FFF5
  }

  /** One more than the largest value an entry holds. */
  function EntryLimit(ty: FatType): nat {
    match ty
    case FAT12 => 0x1000
    case FAT16 => 0x1_0000
    case FAT32 => 0x1000_0000
  }

  /** The end mark that storing 0xFFFFFFFF leaves in an entry. */
  function Eoc(ty: FatType): (e: nat)
    ensures e == 0xFFFF_FFFF % EntryLimit(ty) && MaxClusters(ty) + 2 <= e
  {
    EntryLimit(ty) - 1
  }

  /** Offset of the first byte of entry `c`. */
  function Offset(ty: FatType, c: nat): nat {
    match ty
    case FAT12 => c + c / 2
    case FAT16 => 2 * c
    case FAT32 => 4 * c
  }

  /** Number of bytes entry `c` touches. */
  function Width(ty: FatType): nat {
    if ty.FAT32? then 4 else 2
  }

  /** The table size in bytes that mount_volume asks for `n` entries. */
  function SizeFor(ty: FatType, n: nat): nat {
    match ty
    case FAT12 => n * 3 / 2 + n % 2
    case FAT16 => n * 2
    case FAT32 => n * 4
  }

  /** Every byte of every entry below `n` lies in a table of the size asked for. */
  lemma EntriesFit(ty: FatType, n: nat, c: nat)
    requires c < n
    ensures Offset(ty, c) + Width(ty) <= SizeFor(ty, n)
  {
  }

  /** The table sector that the code loads for entry `c`, and the offset of the entry in it. */
  function EntrySector(ty: FatType, c: nat): nat {
    match ty
    case FAT12 => SecNo(c + c / 2)
    case FAT16 => c / (SS / 2)
    case FAT32 => c / (SS / 4)
  }

  function EntryOfs(ty: FatType, c: nat): (r: nat)
    ensures Offset(ty, c) == SS * EntrySector(ty, c) + r
    ensures r < SS && (!ty.FAT12? ==> r + Width(ty) <= SS)
  {
    match ty
    case FAT12 => SecOfs(c + c / 2)
    case FAT16 =>
      DivModUnique(2 * c, SS, c / (SS / 2), 2 * (c % (SS / 2)));
      c * 2 % SS
    case FAT32 =>
      DivModUnique(4 * c, SS, c / (SS / 4), 4 * (c % (SS / 4)));
      c * 4 % SS
  }

  lemma FirstEntry(ty: FatType)
    ensures EntryOfs(ty, 0) == 0 && EntrySector(ty, 0) == 0
  {
  }

  /** Stepping to the next 16 or 32-bit entry: the next place in the sector, or the start of the next sector. */
  lemma NextEntry(ty: FatType, c: nat)
    requires !ty.FAT12?
    ensures var i := EntryOfs(ty, c) + Width(ty);
            && EntryOfs(ty, c + 1) == i % SS
            && EntrySector(ty, c + 1) == EntrySector(ty, c) + if EntryOfs(ty, c + 1) == 0 then 1 else 0
  {
    if ty.FAT16? {
      NextPlace(c, 2, 256);
    } else {
      NextPlace(c, 4, 128);
    }
  }

  lemma NextPlace(c: nat, w: nat, m: nat)
    requires (w == 2 && m == 256) || (w == 4 && m == 128)
    ensures c * w % SS + w <= SS
    ensures (c + 1) * w % SS == (c * w % SS + w) % SS
    ensures (c + 1) / m == c / m + if (c + 1) * w % SS == 0 then 1 else 0
  {
    var q, r := c / m, c % m;
    DivModUnique(c * w, SS, q, r * w);
    if r + 1 < m {
      DivModUnique(c + 1, m, q, r + 1);
      DivModUnique((c + 1) * w, SS, q, (r + 1) * w);
    } else {
      DivModUnique(c + 1, m, q + 1, 0);
      DivModUnique((c + 1) * w, SS, q + 1, 0);
    }
  }

  /** A 12-bit entry from the two bytes it shares with a neighbour. */
  function Decode12(c: nat, b0: byte, b1: byte): (v: nat)
    ensures v < 0x1000
  {
    var wc := LdWord(b0, b1);
    if c % 2 == 1 then wc / 0x10 else wc % 0x1000
  }

  /** A FAT32 entry: the upper four bits are masked out. */
  function Decode32(b0: byte, b1: byte, b2: byte, b3: byte): (v: nat)
    ensures v < 0x1000_0000
  {
    LdDword(b0, b1, b2, b3) % 0x1000_0000
  }

  function Entry(ty: FatType, fb: seq<byte>, c: nat): (v: nat)
    requires Offset(ty, c) + Width(ty) <= |fb|
    ensures v < EntryLimit(ty)
  {
    var o := Offset(ty, c);
    match ty
    case FAT12 => Decode12(c, fb[o], fb[o + 1])
    case FAT16 => LdWord(fb[o], fb[o + 1])
    case FAT32 => Decode32(fb[o], fb[o + 1], fb[o + 2], fb[o + 3])
  }

  /** Sector and offset of the second byte of a 12-bit entry, which may be in the next sector. */
  function Second12Sector(c: nat): nat {
    SecNo(c + c / 2 + 1)
  }

  function Second12Ofs(c: nat): (r: nat)
    ensures r < SS
  {
    SecOfs(c + c / 2 + 1)
  }

  /** The code finds the bytes of an entry where the table has them. */
  lemma EntryBytes(ty: FatType, fb: seq<byte>, n: nat, c: nat)
    requires Offset(ty, c) + Width(ty) <= |fb| == SS * n
    ensures EntrySector(ty, c) < n
    ensures ty.FAT12? ==> Second12Sector(c) < n && SS * Second12Sector(c) + Second12Ofs(c) == Offset(ty, c) + 1
    ensures var k := SS * EntrySector(ty, c) + EntryOfs(ty, c);
            k == Offset(ty, c) &&
            match ty
            case FAT12 => Entry(ty, fb, c) == Decode12(c, fb[k], fb[SS * Second12Sector(c) + Second12Ofs(c)])
            case FAT16 => EntryOfs(ty, c) + 1 < SS && Entry(ty, fb, c) == LdWord(fb[k], fb[k + 1])
            case FAT32 => EntryOfs(ty, c) + 3 < SS && Entry(ty, fb, c) == Decode32(fb[k], fb[k + 1], fb[k + 2], fb[k + 3])
  {
    hide LdWord, Decode12, Decode32, SecNo, SecOfs, EntrySector, EntryOfs;
    var k := SecOfs(c + c / 2 + 1);
    k := EntryOfs(ty, c);
  }

  /** Three bytes hold two 12-bit entries, low bits first. */
  lemma PairOf12(fb: seq<byte>, k: nat)
    requires 3 * k + 3 <= |fb|
    ensures Offset(FAT12, 2 * k) == 3 * k && Offset(FAT12, 2 * k + 1) == 3 * k + 1
    ensures Entry(FAT12, fb, 2 * k) + 0x1000 * Entry(FAT12, fb, 2 * k + 1) == fb[3 * k] as int + 0x100 * fb[3 * k + 1] as int + 0x1_0000 * fb[3 * k + 2] as int
  {
    DivModUnique(2 * k, 2, k, 0);
    DivModUnique(2 * k + 1, 2, k, 1);
    var x: int, y: int, z: int := fb[3 * k], fb[3 * k + 1], fb[3 * k + 2];
    DivModUnique(x + 0x100 * y, 0x1000, y / 0x10, x + 0x100 * (y % 0x10));
    DivModUnique(y + 0x100 * z, 0x10, y / 0x10 + 0x10 * z, y % 0x10);
  }

  /** Two bytes hold a 16-bit entry, four bytes a 28-bit entry under four reserved bits, low bytes first. */
  lemma WideEntries(fb: seq<byte>, c: nat)
    ensures 2 * c + 2 <= |fb| ==> Offset(FAT16, c) == 2 * c && Entry(FAT16, fb, c) == fb[2 * c] as int + 0x100 * fb[2 * c + 1] as int
    ensures 4 * c + 4 <= |fb| ==>
      && Offset(FAT32, c) == 4 * c
      && Entry(FAT32, fb, c) + 0x1000_0000 * Reserved(fb, c)
         == fb[4 * c] as int + 0x100 * fb[4 * c + 1] as int + 0x1_0000 * fb[4 * c + 2] as int + 0x100_0000 * fb[4 * c + 3] as int
  {
    if 4 * c + 4 <= |fb| {
      var x: int, y: int, z: int, h: int := fb[4 * c], fb[4 * c + 1], fb[4 * c + 2], fb[4 * c + 3];
      var v := x + 0x100 * y + 0x1_0000 * z;
      DivModUnique(v + 0x100_0000 * h, 0x1000_0000, h / 0x10, v + 0x100_0000 * (h % 0x10));
    }
  }

  /** The upper four bits of a FAT32 entry, which are not part of its value. */
  function Reserved(fb: seq<byte>, c: nat): nat
    requires Offset(FAT32, c) + Width(FAT32) <= |fb|
  {
    fb[4 * c + 3] / 0x10
  }

  /** The first and second byte of a 12-bit entry after storing `val`. */
  function Put12First(c: nat, p: byte, val: dword): byte {
    if c % 2 == 1 then p % 0x10 + val % 0x10 * 0x10 else val % 0x100
  }

  function Put12Second(c: nat, p: byte, val: dword): byte {
    if c % 2 == 1 then val / 0x10 % 0x100 else p / 0x10 * 0x10 + val / 0x100 % 0x10
  }

  /** The double word stored for a 28-bit entry: the value under the old reserved bits. */
  function Put32(old32: dword, val: dword): dword {
    val % 0x1000_0000 + old32 / 0x1000_0000 * 0x1000_0000
  }

  function Stored32(fb: seq<byte>, o: nat, v: dword): (r: seq<byte>)
    requires o + 3 < |fb|
    ensures |r| == |fb|
  {
    fb[o := ByteOf(v, 0)][o + 1 := ByteOf(v, 1)][o + 2 := ByteOf(v, 2)][o + 3 := ByteOf(v, 3)]
  }

  /** The table after storing `val` in entry `c`. */
  function PutEntry(ty: FatType, fb: seq<byte>, c: nat, val: dword): (r: seq<byte>)
    requires Offset(ty, c) + Width(ty) <= |fb|
    ensures |r| == |fb|
  {
    var o := Offset(ty, c);
    match ty
    case FAT12 =>
      fb[o := Put12First(c, fb[o], val)][o + 1 := Put12Second(c, fb[o + 1], val)]
    case FAT16 =>
      fb[o := ByteOf(val, 0)][o + 1 := ByteOf(val, 1)]
    case FAT32 =>
      var nv := Put32(LdDword(fb[o], fb[o + 1], fb[o + 2], fb[o + 3]), val);
      Stored32(fb, o, nv)
  }

  lemma High12(b0: byte, b1: byte)
    ensures LdWord(b0, b1) / 0x10 == b0 / 0x10 + 0x10 * b1
  {
    DivModUnique(LdWord(b0, b1), 0x10, b0 / 0x10 + 0x10 * b1, b0 % 0x10);
  }

  lemma Low12(b0: byte, b1: byte)
    ensures LdWord(b0, b1) % 0x1000 == b0 + 0x100 * (b1 % 0x10)
  {
    DivModUnique(LdWord(b0, b1), 0x1000, b1 / 0x10, b0 + 0x100 * (b1 % 0x10));
  }

  lemma Nibbles(hi: nat, lo: nat)
    requires lo < 0x10
    ensures (hi * 0x10 + lo) / 0x10 == hi && (hi * 0x10 + lo) % 0x10 == lo
  {
    DivModUnique(hi * 0x10 + lo, 0x10, hi, lo);
  }

  lemma Digits12(val: dword)
    ensures val % 0x10 + 0x10 * (val / 0x10 % 0x100) == val % 0x1000
    ensures val % 0x100 + 0x100 * (val / 0x100 % 0x10) == val % 0x1000
  {
    var q, r := val / 0x1000, val % 0x1000;
    var h, l := r / 0x10, r % 0x10;
    DivModUnique(val, 0x10, 0x100 * q + h, l);
    DivModUnique(0x100 * q + h, 0x100, q, h);
    h, l := r / 0x100, r % 0x100;
    DivModUnique(val, 0x100, 0x10 * q + h, l);
    DivModUnique(0x10 * q + h, 0x10, q, h);
  }

  /** What is stored is read back, cut to the width of an entry. */
  lemma PutThenGet(ty: FatType, fb: seq<byte>, c: nat, val: dword)
    requires Offset(ty, c) + Width(ty) <= |fb|
    ensures Entry(ty, PutEntry(ty, fb, c, val), c) == val % EntryLimit(ty)
    ensures ty.FAT32? ==> Reserved(PutEntry(ty, fb, c, val), c) == Reserved(fb, c)
  {
    match ty
    case FAT12 => Put12ThenGet(fb, c, val);
    case FAT16 => Digits16(val);
    case FAT32 => Put32ThenGet(fb, c, val);
  }

  lemma Digits16(val: dword)
    ensures LdWord(ByteOf(val, 0), ByteOf(val, 1)) == val % 0x1_0000
  {
    var q, r := val / 0x1_0000, val % 0x1_0000;
    DivModUnique(val, 0x100, 0x100 * q + r / 0x100, r % 0x100);
    DivModUnique(0x100 * q + r / 0x100, 0x100, q, r / 0x100);
  }

  lemma Put12ThenGet(fb: seq<byte>, c: nat, val: dword)
    requires c + c / 2 + 1 < |fb|
    ensures Entry(FAT12, PutEntry(FAT12, fb, c, val), c) == val % 0x1000
  {
    var o := c + c / 2;
    var b0, b1 := Put12First(c, fb[o], val), Put12Second(c, fb[o + 1], val);
    Digits12(val);
    High12(b0, b1);
    Low12(b0, b1);
    if c % 2 == 1 {
      Nibbles(val % 0x10, fb[o] % 0x10);
    } else {
      Nibbles(fb[o + 1] / 0x10, val / 0x100 % 0x10);
    }
  }

  lemma Put32ThenGet(fb: seq<byte>, c: nat, val: dword)
    requires 4 * c + 3 < |fb|
    ensures Entry(FAT32, PutEntry(FAT32, fb, c, val), c) == val % 0x1000_0000
    ensures Reserved(PutEntry(FAT32, fb, c, val), c) == Reserved(fb, c)
  {
    var o := 4 * c;
    var old32 := LdDword(fb[o], fb[o + 1], fb[o + 2], fb[o + 3]);
    var nv := Put32(old32, val);
    Put32Fields(old32, val);
    var r := PutEntry(FAT32, fb, c, val);
    assert LdDword(r[o], r[o + 1], r[o + 2], r[o + 3]) == nv by {
      hide Put32, LdDword;
      DwordRoundTrip(nv);
    }
    Reserved32(fb[o], fb[o + 1], fb[o + 2], fb[o + 3]);
    Reserved32(r[o], r[o + 1], r[o + 2], r[o + 3]);
    hide Put32, LdDword, ByteOf, PutEntry;
  }

  lemma Put32Fields(old32: dword, val: dword)
    ensures Put32(old32, val) % 0x1000_0000 == val % 0x1000_0000
    ensures Put32(old32, val) / 0x1000_0000 == old32 / 0x1000_0000
  {
    DivModUnique(Put32(old32, val), 0x1000_0000, old32 / 0x1000_0000, val % 0x1000_0000);
  }

  lemma Reserved32(b0: byte, b1: byte, b2: byte, b3: byte)
    ensures LdDword(b0, b1, b2, b3) / 0x1000_0000 == b3 / 0x10
  {
    DivModUnique(LdDword(b0, b1, b2, b3), 0x1000_0000, b3 / 0x10,
                 b0 + 0x100 * b1 + 0x1_0000 * b2 + 0x100_0000 * (b3 % 0x10));
  }

  /** Storing one entry changes no other, although 12-bit neighbours share a byte. */
  lemma PutFrame(ty: FatType, fb: seq<byte>, c: nat, d: nat, val: dword)
    requires Offset(ty, c) + Width(ty) <= |fb| && Offset(ty, d) + Width(ty) <= |fb|
    requires c != d
    ensures Entry(ty, PutEntry(ty, fb, c, val), d) == Entry(ty, fb, d)
    ensures ty.FAT32? ==> Reserved(PutEntry(ty, fb, c, val), d) == Reserved(fb, d)
  {
    if ty.FAT12? {
      Put12Neighbours(fb, c, d, val);
    }
  }

  lemma Put12Neighbours(fb: seq<byte>, c: nat, d: nat, val: dword)
    requires c + c / 2 + 1 < |fb| && d + d / 2 + 1 < |fb|
    requires c != d
    ensures Entry(FAT12, PutEntry(FAT12, fb, c, val), d) == Entry(FAT12, fb, d)
  {
    var o, p := c + c / 2, d + d / 2;
    var r := PutEntry(FAT12, fb, c, val);
    if p == o + 1 {
      assert c % 2 == 0 && d == c + 1;
      High12(fb[p], fb[p + 1]);
      High12(r[p], r[p + 1]);
      Nibbles(fb[p] / 0x10, val / 0x100 % 0x10);
    } else if o == p + 1 {
      assert d % 2 == 0 && c == d + 1;
      Low12(fb[p], fb[o]);
      Low12(r[p], r[o]);
      Nibbles(val % 0x10, fb[o] % 0x10);
    }
  }

  /** Half of a 12-bit store (the first byte only) already leaves the other entries alone. */
  lemma Put12HalfFrame(fb: seq<byte>, c: nat, d: nat, val: dword)
    requires c + c / 2 + 1 < |fb| && d + d / 2 + 1 < |fb|
    requires c != d
    ensures Entry(FAT12, fb[c + c / 2 := Put12First(c, fb[c + c / 2], val)], d) == Entry(FAT12, fb, d)
  {
    var o, p := c + c / 2, d + d / 2;
    if o == p + 1 {
      assert d % 2 == 0 && c == d + 1;
      Low12(fb[p], fb[o]);
      Low12(fb[p], Put12First(c, fb[o], val));
      Nibbles(val % 0x10, fb[o] % 0x10);
    }
  }
}
