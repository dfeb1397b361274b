/** Recognising a FAT volume and working out where its parts are. */
module Mount {
  import opened Bytes
  import opened FatTable
  import opened Entries
  import opened Layout

  /** The fields of a boot sector that mounting looks at. */
  datatype Boot = Boot(
    jump: byte,
    signature: word,
    fat32Name: bool,
    bytesPerSector: word,
    sectorsPerCluster: byte,
    reserved: word,
    fats: byte,
    rootEntries: word,
    sectors16: word,
    sectors32: dword,
    fatSize16: word,
    fatSize32: dword,
    version: word,
    rootCluster: dword,
    infoSector: word)

  const FAT32_NAME: seq<byte> := [0x46, 0x41, 0x54, 0x33, 0x32, 0x20, 0x20, 0x20]

  function Fields(s: Sector): Boot {
    Boot(s[0], WordAt(s, 510), s[82..90] == FAT32_NAME, WordAt(s, 11), s[13], WordAt(s, 14), s[16], WordAt(s, 17),
         WordAt(s, 19), DwordAt(s, 32), WordAt(s, 22), DwordAt(s, 36), WordAt(s, 42), DwordAt(s, 44), WordAt(s, 48))
  }

  /** `b != 0 && (b & (b - 1)) == 0` for a byte */
  predicate PowerOfTwo(b: int) {
    b in {1, 2, 4, 8, 16, 32, 64, 128}
  }

  /** It has one bit: taking one away and comparing bit by bit leaves nothing. */
  lemma OneBit(b: bv8)
    ensures PowerOfTwo(b as int) <==> b != 0 && b & (b - 1) == 0
  {
  }

  /** check_fs: does the sector look like the boot sector of a FAT volume? */
  predicate CheckFs(b: Boot) {
    && b.jump in {0xEB, 0xE9, 0xE8}
    && (|| (b.signature == 0xAA55 && b.fat32Name)
        || (&& b.bytesPerSector == SS && PowerOfTwo(b.sectorsPerCluster) && b.reserved != 0 && 1 <= b.fats <= 2
            && b.rootEntries != 0 && (b.sectors16 >= 128 || b.sectors32 >= 0x1_0000) && b.fatSize16 != 0))
  }

  /** The test in numbers and bits: a jump, and then the mark of a FAT32 volume or all the fields of a FAT volume in their range. */
  lemma ChecksExactly(b: Boot, c: bv8)
    requires b.sectorsPerCluster == c as int
    ensures CheckFs(b) <==>
      && (b.jump == 0xEB || b.jump == 0xE9 || b.jump == 0xE8)
      && (|| (b.signature == 0xAA55 && b.fat32Name)
          || (&& b.bytesPerSector == 512 && c != 0 && c & (c - 1) == 0 && b.reserved >= 1 && (b.fats == 1 || b.fats == 2)
              && b.rootEntries >= 1 && (b.sectors16 >= 128 || b.sectors32 >= 0x1_0000) && b.fatSize16 >= 1))
  {
    OneBit(c);
  }

  datatype Mounted = NoFileSystem | Volume(g: Geometry, rootSectors: nat, dirbase: dword, infoEnabled: bool)

  function FatSize(b: Boot): dword {
    if b.fatSize16 == 0 then b.fatSize32 else b.fatSize16
  }

  function TotalSectors(b: Boot): dword {
    if b.sectors16 == 0 then b.sectors32 else b.sectors16
  }

  /** Directory entries per sector. */
  const PER_SECTOR: nat := 16

  function RootSectors(b: Boot): nat {
    b.rootEntries / PER_SECTOR
  }

  /** The sectors before the data area, and the same sum cut to 32 bits as the code computes it. */
  function SystemSectors(b: Boot): nat {
    b.reserved + FatSize(b) * b.fats + RootSectors(b)
  }

  function SystemSectors32(b: Boot): dword {
    (b.reserved + FatSize(b) * b.fats % TWO32 + RootSectors(b)) % TWO32
  }

  /** The type the number of clusters decides; none if there are too many. */
  function TypeFor(clusters: nat): (r: seq<FatType>)
    ensures |r| <= 1
  {
    if clusters <= MaxClusters(FAT12) then [FAT12]
    else if clusters <= MaxClusters(FAT16) then [FAT16]
    else if clusters <= MaxClusters(FAT32) then [FAT32]
    else []
  }

  function Add32(a: dword, b: dword): dword {
    (a + b) % TWO32
  }

  /** The FAT part of mount_volume: the geometry of the volume that starts at sector `base`. */
  function MountVolume(b: Boot, base: dword): Mounted {
    if b.bytesPerSector != SS || (b.fats != 1 && b.fats != 2) || !PowerOfTwo(b.sectorsPerCluster)
       || b.rootEntries % PER_SECTOR != 0 || b.reserved == 0 then NoFileSystem
    else
    var sys, total := SystemSectors32(b), TotalSectors(b);
    if total < sys then NoFileSystem
    else
    var clusters := (total - sys) / b.sectorsPerCluster;
    var types := TypeFor(clusters);
    if clusters == 0 || types == [] then NoFileSystem
    else
    var ty := types[0];
    if (ty == FAT32 && (b.version != 0 || b.rootEntries != 0)) || (ty != FAT32 && b.rootEntries == 0) then NoFileSystem
    else if FatSize(b) < (SizeFor(ty, clusters + 2) + (SS - 1)) / SS then NoFileSystem
    else
    var g := Geometry(ty, b.fats, b.sectorsPerCluster, clusters + 2, FatSize(b), base, Add32(base, b.reserved),
                      Add32(base, sys), base + total);
    Volume(g, RootSectors(b), if ty == FAT32 then b.rootCluster else Add32(g.fatbase, FatSize(b) * b.fats % TWO32),
           ty == FAT32 && b.infoSector == 1)
  }

  /* ---- what an accepted boot sector guarantees ---- */

  /** Reserved sectors, FAT copies, root directory and clusters follow each other inside the volume. */
  ghost predicate InOrder(m: Mounted, b: Boot, base: dword) {
    && m.Volume? && m.g.Valid() && m.g.ValidData()
    && m.g.volbase == base && m.g.fatbase == base + b.reserved
    && m.g.fatbase + m.g.fsize * m.g.nFats + m.rootSectors == m.g.database
    && m.g.volEnd == base + TotalSectors(b)
    && (m.g.ty != FAT32 ==> m.dirbase == m.g.fatbase + m.g.fsize * m.g.nFats)
  }

  lemma SumNotCut(b: Boot)
    requires SystemSectors(b) < TWO32
    ensures SystemSectors32(b) == SystemSectors(b) && FatSize(b) * b.fats % TWO32 == FatSize(b) * b.fats
  {
    hide FatSize, RootSectors;
    NotCut(b.reserved, FatSize(b) * b.fats, RootSectors(b));
  }

  lemma NotCut(r: nat, f: nat, d: nat)
    requires r + f + d < TWO32
    ensures f % TWO32 == f && (r + f + d) % TWO32 == r + f + d
  {
    DivModUnique(f, TWO32, 0, f);
    DivModUnique(r + f + d, TWO32, 0, r + f + d);
  }

  lemma SumCut(b: Boot)
    requires SystemSectors(b) >= TWO32
    ensures SystemSectors32(b) < b.reserved + FatSize(b) * b.fats
  {
    var f := FatSize(b) * b.fats;
    var q, r := f / TWO32, f % TWO32;
    assert f == TWO32 * q + r;
    var s := b.reserved + r + RootSectors(b);
    if q == 0 {
      DivModUnique(s, TWO32, 1, s - TWO32);
    }
  }

  /** The quantities of an accepted volume: its type by the number of clusters, its root directory and its information sector. */
  lemma Accepted(b: Boot, base: dword)
    requires MountVolume(b, base).Volume? && base + TotalSectors(b) <= TWO32
    ensures var m, sys := MountVolume(b, base), SystemSectors32(b);
            && m.g.nFats == b.fats && 1 <= b.fats <= 2 && m.g.fsize == FatSize(b) && b.reserved > 0 && m.rootSectors == RootSectors(b)
            && PowerOfTwo(m.g.csize) && 3 <= m.g.nFatent <= MaxClusters(m.g.ty) + 2
            && sys < TotalSectors(b) && m.g.database == base + sys && m.g.DataEnd() <= base + TotalSectors(b)
            && SizeFor(m.g.ty, m.g.nFatent) <= SS * m.g.fsize && m.g.fsize > 0
            && (m.g.ty == FAT12 <==> m.g.nFatent - 2 <= 0xFF5) && (m.g.ty == FAT32 <==> m.g.nFatent - 2 > 0xFFF5)
            && m.g.nFatent - 2 <= 0x0FFF_FFF5
            && (m.g.ty == FAT32 ==> m.dirbase == b.rootCluster && b.rootEntries == 0 && b.version == 0)
            && (m.infoEnabled <==> m.g.ty == FAT32 && b.infoSector == 1)
  {
    hide SizeFor, SystemSectors32;
    SomeTable(MountVolume(b, base).g);
    var m, sys, total := MountVolume(b, base), SystemSectors32(b), TotalSectors(b);
    var q := (total - sys) / b.sectorsPerCluster;
    assert total - sys == b.sectorsPerCluster * q + (total - sys) % b.sectorsPerCluster;
    assert b.sectorsPerCluster * q >= 1 by {
      MulAtLeast(b.sectorsPerCluster, q);
    }
    DivModUnique(base + sys, TWO32, 0, base + sys);
    var n := SizeFor(m.g.ty, m.g.nFatent);
    assert n + (SS - 1) == SS * ((n + (SS - 1)) / SS) + (n + (SS - 1)) % SS;
  }

  /** Exactly when mounting accepts: room for a cluster, a root directory where the type wants one, and a table that holds all entries. */
  lemma MountsExactly(b: Boot, base: dword, n: nat)
    requires PowerOfTwo(b.sectorsPerCluster) && SystemSectors32(b) <= TotalSectors(b)
    requires n == (TotalSectors(b) - SystemSectors32(b)) / b.sectorsPerCluster
    ensures MountVolume(b, base).Volume? <==>
      && b.bytesPerSector == 512 && 1 <= b.fats <= 2 && b.reserved >= 1 && b.rootEntries % 16 == 0
      && TotalSectors(b) >= SystemSectors32(b) + b.sectorsPerCluster && n <= 0x0FFF_FFF5
      && (b.rootEntries == 0 <==> n > 0xFFF5) && (n > 0xFFF5 ==> b.version == 0)
      && SizeFor(if n <= 0xFF5 then FAT12 else if n <= 0xFFF5 then FAT16 else FAT32, n + 2) <= 512 * FatSize(b)
  {
    hide SizeFor, SystemSectors32, TotalSectors, FatSize;
    OneAtLeast(TotalSectors(b) - SystemSectors32(b), b.sectorsPerCluster);
    RoundedUp(SizeFor(if n <= 0xFF5 then FAT12 else if n <= 0xFFF5 then FAT16 else FAT32, n + 2), FatSize(b));
  }

  lemma OneAtLeast(a: nat, d: nat)
    requires d > 0
    ensures a / d == 0 <==> a < d
  {
    assert a == d * (a / d) + a % d;
    if a / d > 0 {
      MulAtLeast(d, a / d);
    }
  }

  lemma RoundedUp(n: nat, k: nat)
    ensures k < (n + (SS - 1)) / SS <==> SS * k < n
  {
  }

  lemma SomeTable(g: Geometry)
    ensures g.nFatent >= 1 ==> SizeFor(g.ty, g.nFatent) > 0
  {
  }

  /** An accepted volume is laid out in order, inside its bounds, exactly if the sizes of its system areas add up below 2^32. */
  lemma LayoutSound(b: Boot, base: dword)
    requires MountVolume(b, base).Volume? && base + TotalSectors(b) <= TWO32
    ensures InOrder(MountVolume(b, base), b, base) <==> SystemSectors(b) < TWO32
  {
    hide SizeFor, SystemSectors32, MountVolume;
    var m := MountVolume(b, base);
    Accepted(b, base);
    if SystemSectors(b) < TWO32 {
      SumNotCut(b);
      MountedBases(b, base);
      assert m.g.fsize * m.g.nFats == FatSize(b) * b.fats;
    } else {
      SumCut(b);
      if InOrder(m, b, base) {
        assert m.g.fsize * m.g.nFats == FatSize(b) * b.fats;
      }
    }
  }

  lemma MountedBases(b: Boot, base: dword)
    requires MountVolume(b, base).Volume? && base + TotalSectors(b) <= TWO32
    requires SystemSectors32(b) == SystemSectors(b) < TotalSectors(b) && FatSize(b) * b.fats % TWO32 == FatSize(b) * b.fats
    ensures var g := MountVolume(b, base).g;
            && g.volbase == base && g.fatbase == base + b.reserved && g.volEnd == base + TotalSectors(b)
            && (g.ty != FAT32 ==> MountVolume(b, base).dirbase == g.fatbase + FatSize(b) * b.fats)
  {
    hide SizeFor, TypeFor;
    DivModUnique(base + b.reserved, TWO32, 0, base + b.reserved);
    var d := base + b.reserved + FatSize(b) * b.fats;
    DivModUnique(d, TWO32, 0, d);
  }

  /** A volume that is accepted although its table, by its own numbers, does not fit: data before the FAT. */
  lemma WrappedLayout()
    ensures var b := Boot(0xEB, 0xAA55, true, 512, 1, 2, 1, 0, 0, 0x2_0000, 0, 0xFFFF_FFFF, 0, 2, 1);
            && CheckFs(b) && SystemSectors(b) >= TWO32 && MountVolume(b, 0).Volume?
            && MountVolume(b, 0).g.database < MountVolume(b, 0).g.fatbase
  {
    var b := Boot(0xEB, 0xAA55, true, 512, 1, 2, 1, 0, 0, 0x2_0000, 0, 0xFFFF_FFFF, 0, 2, 1);
    assert SystemSectors32(b) == 1;
  }

  /** Different clusters have disjoint sectors, all of them in the data area. */
  lemma ClustersApart(g: Geometry, c: nat, d: nat)
    requires g.Valid() && g.ValidData() && g.IsCluster(c) && g.IsCluster(d) && c < d
    ensures g.database <= g.Clst2Sect(c) && g.Clst2Sect(c) + g.csize <= g.Clst2Sect(d) && g.Clst2Sect(d) + g.csize <= g.volEnd
  {
    hide Geometry.Clst2Sect;
    SectorOfCluster(g, c);
    SectorOfCluster(g, d);
    Steps(g.csize, c - 2, d - 2);
  }

  lemma Steps(n: nat, i: nat, j: nat)
    requires i < j
    ensures 0 <= n * i && n * i + n <= n * j
  {
    assert n * j == n * i + n * (j - i);
    MulAtLeast(n, j - i);
  }

  lemma SectorOfCluster(g: Geometry, c: nat)
    requires g.Valid() && g.ValidData() && g.IsCluster(c)
    ensures g.Clst2Sect(c) == g.database + g.csize * (c - 2) && g.Clst2Sect(c) + g.csize <= g.DataEnd() <= g.volEnd
  {
    var n, k := g.csize, c - 2;
    DivModUnique(k, TWO32, 0, k);
    Steps(n, k, g.nFatent - 2);
    var s := g.database + n * k;
    assert n > 0;
    DivModUnique(s, TWO32, 0, s);
  }

  /* ---- the information sector ---- */

  datatype Info = Unknown | Info(free: dword, last: dword)

  /** What mount_volume takes from the information sector. */
  function LoadInfo(s: Sector): Info {
    if DwordAt(s, 0) == 0x4161_5252 && DwordAt(s, 484) == 0x6141_7272 && DwordAt(s, 498) == 0xAA55_0000
    then Info(DwordAt(s, 488), DwordAt(s, 492)) else Unknown
  }

  /** What sync_fs writes, mounting reads back. */
  lemma InfoRoundTrip(free: dword, last: dword)
    ensures LoadInfo(InfoSector(free, last)) == Info(free, last)
  {
    DwordRoundTrip(free);
    DwordRoundTrip(last);
  }

  /** The sector next to the boot sector is outside the FAT exactly if there is more than one reserved sector. */
  lemma InfoSectorPlace(b: Boot, base: dword)
    requires MountVolume(b, base).Volume? && base + TotalSectors(b) <= TWO32 && SystemSectors(b) < TWO32
    ensures MountVolume(b, base).g.InFatArea(base + 1) <==> b.reserved == 1
  {
    hide MountVolume, SizeFor;
    LayoutSound(b, base);
    Accepted(b, base);
  }

  /** With one reserved sector, writing the information sector wipes the first entries of the table. */
  lemma InfoOverwritesFat(g: Geometry, v: seq<Sector>, free: dword, last: dword, c: nat)
    requires g.Valid() && g.ty == FAT32 && g.fatbase == g.volbase + 1 && g.volEnd <= |v| && 2 <= c < 121 && c < g.nFatent
    ensures g.Fat(v[g.volbase + 1 := InfoSector(free, last)])[c] == 0
  {
    hide InfoSector, Geometry.FatBytes, Geometry.Fat;
    var w := v[g.volbase + 1 := InfoSector(free, last)];
    g.FatAt(w, c);
    InfoByte(g, w, free, last, 4 * c);
    InfoByte(g, w, free, last, 4 * c + 1);
    InfoByte(g, w, free, last, 4 * c + 2);
    InfoByte(g, w, free, last, 4 * c + 3);
  }

  /** A boot sector with one reserved sector and the information sector enabled. */
  function OneReserved(): Boot {
    Boot(0xEB, 0xAA55, true, 512, 1, 1, 1, 0, 0, 0x2_0000, 0, 1024, 0, 2, 1)
  }

  /** Mounting accepts it, with the FAT right where the information sector is written. */
  lemma OneReservedAccepted()
    ensures CheckFs(OneReserved()) && MountVolume(OneReserved(), 0).Volume? && MountVolume(OneReserved(), 0).infoEnabled
    ensures var g := MountVolume(OneReserved(), 0).g;
            g.Valid() && g.ty == FAT32 && g.fatbase == g.volbase + 1 && g.nFatent > 121 && g.volEnd == 0x2_0000
  {
    assert SystemSectors32(OneReserved()) == 1025;
  }

  /** So on that volume the first sync after an allocation wipes entries 2 to 120 of the FAT. */
  lemma OneReservedWiped(v: seq<Sector>, free: dword, last: dword, c: nat)
    requires 0x2_0000 <= |v| && 2 <= c < 121
    ensures var g := MountVolume(OneReserved(), 0).g;
            g.Valid() && g.volEnd <= |v| && g.nFatent > 121 && g.Fat(v[g.volbase + 1 := InfoSector(free, last)])[c] == 0
  {
    hide InfoSector, Geometry.Fat, MountVolume, OneReserved;
    OneReservedAccepted();
    InfoOverwritesFat(MountVolume(OneReserved(), 0).g, v, free, last, c);
  }

  lemma InfoByte(g: Geometry, w: seq<Sector>, free: dword, last: dword, k: nat)
    requires g.Valid() && g.volEnd <= |w| && w[g.fatbase] == InfoSector(free, last) && 8 <= k < 484
    ensures k < SS * g.fsize && g.FatBytes(w)[k] == 0
  {
    hide InfoSector;
    DivModUnique(k, SS, 0, k);
    InfoZero(free, last, k);
    SomeTable(g);
  }

  lemma InfoZero(free: dword, last: dword, k: nat)
    requires 8 <= k < 484
    ensures InfoSector(free, last)[k] == 0
  {
  }

  /* ---- a volume of one cluster ---- */

  /** Four sectors: boot sector, FAT, root directory and one cluster. */
  const TINY: Geometry := Geometry(FAT12, 1, 1, 3, 1, 0, 1, 3, 4)

  function TinyBoot(): Boot {
    Boot(0xEB, 0xAA55, true, 512, 1, 1, 1, 16, 4, 0, 1, 0, 0, 0, 0)
  }

  /** Its boot sector. */
  function TinyBootSector(): Sector {
    seq(SS, i requires 0 <= i < SS => TinyByte(i))
  }

  function TinyByte(i: nat): byte {
    if i == 0 then 0xEB
    else if i == 12 then 2
    else if i == 13 || i == 14 || i == 16 || i == 22 then 1
    else if i == 17 then 16
    else if i == 19 then 4
    else if 82 <= i < 90 then FAT32_NAME[i - 82]
    else if i == 510 then 0x55
    else if i == 511 then 0xAA
    else 0
  }

  /** Its FAT, with `next` in the entry of the cluster. */
  function TinyFatSector(next: byte): Sector {
    seq(SS, i requires 0 <= i < SS => if i == 0 then 0xF8 else if i < 3 then 0xFF else if i == 3 then next else 0)
  }

  /** The whole device; the root directory is empty and the cluster holds `data`. */
  function TinyDisk(next: byte, data: Sector): seq<Sector> {
    [TinyBootSector(), TinyFatSector(next), seq(SS, _ => 0), data]
  }

  lemma TinyWord(i: nat)
    requires i + 4 <= SS
    ensures WordAt(TinyBootSector(), i) == LdWord(TinyByte(i), TinyByte(i + 1))
    ensures DwordAt(TinyBootSector(), i) == LdDword(TinyByte(i), TinyByte(i + 1), TinyByte(i + 2), TinyByte(i + 3))
  {
    hide LdWord, LdDword, TinyByte;
  }

  lemma TinyNumber(i: nat, n: byte, m: byte)
    requires i + 4 <= SS && TinyByte(i) == n && TinyByte(i + 1) == m
    ensures WordAt(TinyBootSector(), i) == n + 0x100 * m
    ensures n == m == TinyByte(i + 2) == TinyByte(i + 3) == 0 ==> DwordAt(TinyBootSector(), i) == 0
  {
    hide TinyByte, TinyBootSector, WordAt, DwordAt;
    TinyWord(i);
  }

  lemma TinyFields()
    ensures Fields(TinyBootSector()) == TinyBoot()
  {
    hide TinyBootSector, WordAt, DwordAt;
    TinyName();
    TinyNumber(11, 0, 2);
    TinyNumber(14, 1, 0);
    TinyNumber(17, 16, 0);
    TinyNumber(19, 4, 0);
    TinyNumber(22, 1, 0);
    TinyNumber(32, 0, 0);
    TinyNumber(36, 0, 0);
    TinyNumber(42, 0, 0);
    TinyNumber(44, 0, 0);
    TinyNumber(48, 0, 0);
  }

  lemma TinyName()
    ensures var s := TinyBootSector();
            s[82..90] == FAT32_NAME && s[0] == 0xEB && s[13] == 1 && s[16] == 1 && WordAt(s, 510) == 0xAA55
  {
    var s := TinyBootSector();
    assert forall k :: 0 <= k < 8 ==> s[82 + k] == FAT32_NAME[k];
  }

  /** Mounting accepts it. */
  lemma TinyAccepted()
    ensures CheckFs(TinyBoot()) && MountVolume(TinyBoot(), 0) == Volume(TINY, 1, 2, false) && TINY.Valid() && TINY.ValidData()
  {
    assert SystemSectors32(TinyBoot()) == 3;
  }

  /** Mounting the device gives the volume. */
  lemma TinyMounts(next: byte, data: Sector)
    ensures var b := Fields(TinyDisk(next, data)[0]); CheckFs(b) && MountVolume(b, 0) == Volume(TINY, 1, 2, false)
    ensures TINY.Valid() && TINY.ValidData()
  {
    hide MountVolume, CheckFs, TinyBoot, TinyBootSector, Fields;
    TinyFields();
    TinyAccepted();
  }

  /** The entry of the cluster. */
  lemma TinyEntry(next: byte, data: Sector)
    ensures TINY.Valid() && TINY.Fat(TinyDisk(next, data))[2] == next
  {
    var v := TinyDisk(next, data);
    TINY.FatAt(v, 2);
    var fb := TINY.FatBytes(v);
    assert fb[3] == next && fb[4] == 0;
  }
}
