/** Fields of sectors: directory entries of short names and the FAT32 information sector. */
module Entries {
  import opened Bytes
  import opened FatTable

  /** The size of a directory entry. */
  const SZDIRE: int := 32

  function WordAt(s: seq<byte>, i: nat): word
    requires i + 2 <= |s|
  {
    LdWord(s[i], s[i + 1])
  }

  function DwordAt(s: seq<byte>, i: nat): dword
    requires i + 4 <= |s|
  {
    LdDword(s[i], s[i + 1], s[i + 2], s[i + 3])
  }

  function PutWord(s: seq<byte>, i: nat, v: word): (r: seq<byte>)
    requires i + 2 <= |s|
    ensures |r| == |s|
  {
    s[i := v % 0x100][i + 1 := v / 0x100]
  }

  function PutDword(s: seq<byte>, i: nat, v: dword): (r: seq<byte>)
    requires i + 4 <= |s|
    ensures |r| == |s|
  {
    s[i := ByteOf(v, 0)][i + 1 := ByteOf(v, 1)][i + 2 := ByteOf(v, 2)][i + 3 := ByteOf(v, 3)]
  }

  /** `b | 0x20` */
  function SetArchive(b: byte): byte {
    if b / 0x20 % 2 == 1 then b else b + 0x20
  }

  lemma ArchiveByBits(b: bv8)
    ensures SetArchive(b as int) == (b | 0x20) as int
  {
  }

  /** ld_clust: the start cluster in the entry at `d`; the high word counts on FAT32 only. */
  function StartOf(ty: FatType, s: seq<byte>, d: nat): dword
    requires d + SZDIRE <= |s|
  {
    WordAt(s, d + 26) + if ty == FAT32 then 0x1_0000 * WordAt(s, d + 20) else 0
  }

  function SizeOf(s: seq<byte>, d: nat): dword
    requires d + SZDIRE <= |s|
  {
    DwordAt(s, d + 28)
  }

  /** st_clust */
  function PutStart(ty: FatType, s: seq<byte>, d: nat, cl: dword): (r: seq<byte>)
    requires d + SZDIRE <= |s|
    ensures |r| == |s|
  {
    var t := PutWord(s, d + 26, cl % 0x1_0000);
    if ty == FAT32 then PutWord(t, d + 20, cl / 0x1_0000) else t
  }

  /** The sector `s` after f_sync has updated the entry at `d`. */
  function Updated(ty: FatType, s: seq<byte>, d: nat, cl: dword, size: dword, tm: dword): (r: seq<byte>)
    requires d + SZDIRE <= |s|
    ensures |r| == |s|
  {
    var s1 := s[d + 11 := SetArchive(s[d + 11])];
    var s2 := PutStart(ty, s1, d, cl);
    PutWord(PutDword(PutDword(s2, d + 28, size), d + 22, tm), d + 18, 0)
  }

  /** An updated entry tells the start cluster and the size; the name and the other entries are untouched. */
  lemma UpdatedFields(ty: FatType, s: seq<byte>, d: nat, cl: dword, size: dword, tm: dword)
    requires d + SZDIRE <= |s| && (ty == FAT32 || cl < 0x1_0000)
    ensures var r := Updated(ty, s, d, cl, size, tm);
            && StartOf(ty, r, d) == cl && SizeOf(r, d) == size && DwordAt(r, d + 22) == tm
            && WordAt(r, d + 18) == 0 && r[d + 11] == SetArchive(s[d + 11]) && r[d + 12..d + 18] == s[d + 12..d + 18]
            && (forall k :: 0 <= k < |s| && !(d + 11 <= k < d + SZDIRE) ==> r[k] == s[k]) && SetArchive(r[d + 11]) == SetArchive(s[d + 11])
  {
    hide SetArchive, LdWord, LdDword, ByteOf;
    UpdatedFlag(ty, s, d, cl, size, tm);
    UpdatedBytes(ty, s, d, cl % 0x1_0000, cl / 0x1_0000, cl, size, tm);
    WordRoundTrip(0);
    WordRoundTrip(cl % 0x1_0000);
    WordRoundTrip(cl / 0x1_0000);
    DwordRoundTrip(size);
    DwordRoundTrip(tm);
  }

  /** The bytes that an update stores. */
  lemma UpdatedBytes(ty: FatType, s: seq<byte>, d: nat, lo: word, hi: word, cl: dword, size: dword, tm: dword)
    requires d + SZDIRE <= |s| && lo == cl % 0x1_0000 && hi == cl / 0x1_0000
    ensures var r := Updated(ty, s, d, cl, size, tm);
            && r[d + 26] == lo % 0x100 && r[d + 27] == lo / 0x100
            && (ty == FAT32 ==> r[d + 20] == hi % 0x100 && r[d + 21] == hi / 0x100)
            && (forall i :: 0 <= i < 4 ==> r[d + 28 + i] == ByteOf(size, i) && r[d + 22 + i] == ByteOf(tm, i))
            && r[d + 18] == 0 && r[d + 19] == 0 && r[d + 12..d + 18] == s[d + 12..d + 18]
            && (forall k :: 0 <= k < |s| && !(d + 11 <= k < d + SZDIRE) ==> r[k] == s[k])
  {
    hide SetArchive, ByteOf;
  }

  lemma UpdatedFlag(ty: FatType, s: seq<byte>, d: nat, cl: dword, size: dword, tm: dword)
    requires d + SZDIRE <= |s|
    ensures var r := Updated(ty, s, d, cl, size, tm); r[d + 11] == SetArchive(s[d + 11]) && SetArchive(r[d + 11]) == SetArchive(s[d + 11])
  {
    hide ByteOf;
  }

  lemma WordRoundTrip(v: word)
    ensures LdWord(v % 0x100, v / 0x100) == v
  {
  }

  method StoreWord(a: array<byte>, i: nat, v: word)
    requires i + 2 <= a.Length
    modifies a
    ensures a[..] == PutWord(old(a[..]), i, v)
  {
    a[i], a[i + 1] := v % 0x100, v / 0x100;
  }

  method StoreDword(a: array<byte>, i: nat, v: dword)
    requires i + 4 <= a.Length
    modifies a
    ensures a[..] == PutDword(old(a[..]), i, v)
  {
    a[i], a[i + 1], a[i + 2], a[i + 3] := ByteOf(v, 0), ByteOf(v, 1), ByteOf(v, 2), ByteOf(v, 3);
  }

  method StoreEntry(a: array<byte>, ty: FatType, d: nat, cl: dword, size: dword, tm: dword)
    requires d + SZDIRE <= a.Length
    modifies a
    ensures a[..] == Updated(ty, old(a[..]), d, cl, size, tm)
  {
    a[d + 11] := SetArchive(a[d + 11]);
    StoreWord(a, d + 26, cl % 0x1_0000);
    if ty == FAT32 {
      StoreWord(a, d + 20, cl / 0x1_0000);
    }
    StoreDword(a, d + 28, size);
    StoreDword(a, d + 22, tm);
    StoreWord(a, d + 18, 0);
  }

  /** The information sector as sync_fs writes it. */
  function InfoSector(free: dword, last: dword): Sector {
    var s := PutDword(PutDword(seq(SS, _ => 0), 0, 0x4161_5252), 484, 0x6141_7272);
    PutDword(PutDword(PutDword(s, 488, free), 492, last), 498, 0xAA55_0000)
  }

  /** The information sector byte by byte: "RRaA", "rrAa", the free count, the last cluster, the end mark, and zeros. */
  lemma InfoLayout(free: dword, last: dword, k: nat)
    requires k < SS
    ensures InfoSector(free, last)[k] ==
            if k < 4 then [0x52, 0x52, 0x61, 0x41][k]
            else if 484 <= k < 488 then [0x72, 0x72, 0x41, 0x61][k - 484]
            else if 488 <= k < 492 then ByteOf(free, k - 488)
            else if 492 <= k < 496 then ByteOf(last, k - 492)
            else if k == 500 then 0x55 else if k == 501 then 0xAA else 0
  {
  }

  method StoreInfo(a: array<byte>, free: dword, last: dword)
    requires a.Length == SS
    modifies a
    ensures a[..] == InfoSector(free, last)
  {
    forall i | 0 <= i < SS {
      a[i] := 0;
    }
    assert a[..] == seq(SS, _ => 0);
    StoreDword(a, 0, 0x4161_5252);
    StoreDword(a, 484, 0x6141_7272);
    StoreDword(a, 488, free);
    StoreDword(a, 492, last);
    StoreDword(a, 498, 0xAA55_0000);
  }
}
