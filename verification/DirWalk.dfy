/** Moving through the sectors of a directory table, whatever the FAT says. */
module DirWalk {
  import opened Bytes
  import opened FatTable
  import opened Entries
  import opened Layout
  import opened Devices
  import opened Chains
  import opened Volumes
  import opened LongNames
  import Mount
  import FileState

  const MAX_DIR: nat := 0x20_0000

  /** Cluster `i` of the chain from `c` on, 0 if the chain does not get that far.  The FAT may hold anything. */
  ghost function ClusterAt(geo: Geometry, fat: seq<nat>, c: nat, i: nat): (r: nat)
    requires |fat| == geo.nFatent
    ensures r == 0 || geo.IsCluster(r)
  {
    if i == 0 then
      if geo.IsCluster(c) then c else 0
    else
      var p := ClusterAt(geo, fat, c, i - 1);
      if p != 0 && geo.IsCluster(fat[p]) then fat[p] else 0
  }

  lemma {:induction false} EndStays(geo: Geometry, fat: seq<nat>, c: nat, i: nat, j: nat)
    requires |fat| == geo.nFatent && i <= j && ClusterAt(geo, fat, c, i) == 0
    ensures ClusterAt(geo, fat, c, j) == 0
    decreases j - i
  {
    if i < j {
      EndStays(geo, fat, c, i + 1, j);
    }
  }

  /** The first byte of cluster `h` of a table. */
  function Start(geo: Geometry, h: nat): nat {
    h * geo.Bcs()
  }

  /** Where byte `ofs` of a table lies: in which cluster of the chain. */
  function HopOf(geo: Geometry, ofs: nat): nat
    requires geo.csize > 0
  {
    ofs / geo.Bcs()
  }

  lemma HopIs(geo: Geometry, h: nat, ofs: nat)
    requires geo.csize > 0 && Start(geo, h) <= ofs < Start(geo, h) + geo.Bcs()
    ensures HopOf(geo, ofs) == h
  {
    DivModUnique(ofs, geo.Bcs(), h, ofs - Start(geo, h));
  }

  lemma StartNext(geo: Geometry, h: nat)
    ensures Start(geo, h + 1) == Start(geo, h) + geo.Bcs()
  {
  }

  lemma SecShift(m: nat, r: nat)
    ensures SecNo(SS * m + r) == m + SecNo(r) && SecOfs(SS * m + r) == SecOfs(r)
  {
    DivModUnique(SS * m + r, SS, m + SecNo(r), SecOfs(r));
  }

  /** The next entry is in the same sector, or at the start of the next one. */
  lemma EntryStep(r: nat)
    requires r % SZDIRE == 0
    ensures (r + SZDIRE) % SZDIRE == 0 && SecOfs(r) + SZDIRE <= SS
    ensures SecOfs(r + SZDIRE) != 0 ==> SecNo(r + SZDIRE) == SecNo(r) && SecOfs(r + SZDIRE) == SecOfs(r) + SZDIRE
    ensures SecOfs(r + SZDIRE) == 0 ==> SecNo(r + SZDIRE) == SecNo(r) + 1
  {
    var a, q, o := r / SZDIRE, SecNo(r), SecOfs(r);
    assert r == SZDIRE * a && o == SZDIRE * (a - 16 * q);
    DivModUnique(r + SZDIRE, SZDIRE, a + 1, 0);
    if o + SZDIRE < SS {
      DivModUnique(r + SZDIRE, SS, q, o + SZDIRE);
    } else {
      DivModUnique(r + SZDIRE, SS, q + 1, 0);
    }
  }

  /** The test for a new cluster, `ofs / SS & (csize - 1)` for a power of two. */
  lemma ClusterStep(geo: Geometry, h: nat, r: nat)
    requires geo.csize > 0 && 0 < r <= geo.Bcs() && SecOfs(r) == 0
    ensures SecNo(Start(geo, h) + r) % geo.csize == 0 <==> r == geo.Bcs()
  {
    var q := SecNo(r);
    assert r == SS * q && 0 < q <= geo.csize;
    Factor(geo, h);
    SecShift(h * geo.csize, r);
    if q < geo.csize {
      DivModUnique(h * geo.csize + q, geo.csize, h, q);
    } else {
      assert h * geo.csize + q == geo.csize * (h + 1);
      DivModUnique(h * geo.csize + q, geo.csize, h + 1, 0);
    }
  }

  lemma Factor(geo: Geometry, h: nat)
    ensures Start(geo, h) == SS * (h * geo.csize)
  {
    assert h * (geo.csize * SS) == SS * (h * geo.csize);
  }

  lemma ShiftedByStart(geo: Geometry, h: nat, r: nat)
    ensures SecOfs(Start(geo, h) + r) == SecOfs(r)
  {
    Factor(geo, h);
    SecShift(h * geo.csize, r);
  }

  lemma AlignedByStart(geo: Geometry, h: nat, r: nat)
    ensures (Start(geo, h) + r) % SZDIRE == 0 <==> r % SZDIRE == 0
  {
    Factor(geo, h);
    DivModUnique(Start(geo, h) + r, SZDIRE, 16 * (h * geo.csize) + r / SZDIRE, r % SZDIRE);
  }

  lemma SecInCluster(geo: Geometry, r: nat)
    requires r < geo.Bcs()
    ensures SecNo(r) < geo.csize
  {
  }

  /** clst2sect gives 0 for exactly the numbers that are no clusters. */
  lemma SectorZero(g: Geometry, c: dword)
    requires g.Valid() && g.ValidData()
    ensures g.Clst2Sect(c) == 0 <==> !g.IsCluster(c)
    ensures g.IsCluster(c) ==> g.database <= g.Clst2Sect(c) && g.Clst2Sect(c) + g.csize <= g.volEnd
  {
    hide Geometry.DataEnd;
    if g.IsCluster(c) {
      Mount.SectorOfCluster(g, c);
      assert g.database > 0 && g.csize * (c - 2) >= 0;
    } else {
      Sub32InRange(c, 2, g.nFatent - 2);
    }
  }

  function ZeroSector(): Sector {
    seq(SS, _ => 0)
  }

  predicate InCluster(g: Geometry, c: dword, s: int) {
    g.Clst2Sect(c) <= s < g.Clst2Sect(c) + g.csize
  }

  /** Cluster `c` is filled with zeros and no other sector changes. */
  ghost predicate Wiped(g: Geometry, l: seq<Sector>, l': seq<Sector>, c: dword) {
    |l| == |l'| && forall s :: 0 <= s < |l| ==> l'[s] == if InCluster(g, c, s) then ZeroSector() else l[s]
  }

  /** The first `n` sectors of cluster `c` are filled with zeros and no other sector changes. */
  ghost predicate PartWiped(g: Geometry, l: seq<Sector>, l': seq<Sector>, c: dword, n: nat) {
    |l| == |l'| && forall s :: 0 <= s < |l| ==> l'[s] == if g.Clst2Sect(c) <= s < g.Clst2Sect(c) + n then ZeroSector() else l[s]
  }

  lemma ProjectsCleared(g: Geometry, v: seq<Sector>, w: seq<Sector>, c: nat, n: nat)
    requires g.Valid() && g.database <= c < g.volEnd <= |v| == |w|
    requires forall s :: 0 <= s < |v| ==> w[s] == if c <= s < c + n then ZeroSector() else v[s]
    ensures forall s :: 0 <= s < |v| ==> g.Project(w)[s] == if c <= s < c + n then ZeroSector() else g.Project(v)[s]
    ensures g.Project(v)[c] == v[c]
  {
  }

  lemma Cleared(g: Geometry, clst: dword, c: nat, v: seq<Sector>, w: seq<Sector>, n: nat)
    requires g.Valid() && c == g.Clst2Sect(clst) && g.database <= c < g.volEnd <= |v| == |w| && n <= g.csize && g.csize > 0
    requires forall s :: 0 <= s < |v| ==> w[s] == if c <= s < c + n then ZeroSector() else v[s]
    ensures PartWiped(g, g.Project(v), g.Project(w), clst, n) && (n == g.csize ==> Wiped(g, g.Project(v), g.Project(w), clst))
    ensures InCluster(g, clst, c) && g.Project(v)[c] == v[c]
  {
    hide Geometry.Clst2Sect, Geometry.Project, Geometry.Valid;
    ProjectsCleared(g, v, w, c, n);
  }

  /** create_chain at the end of a chain takes a free cluster, if any. */
  lemma CreateGives(a: Alloc, eoc: nat, clst: nat)
    requires 3 <= |a.fat| && 2 <= clst < |a.fat| && a.fat[clst] >= |a.fat|
    ensures var (b, r) := Create(a, eoc, clst); (r < 2 && b == a) || (2 <= r < |a.fat| && a.fat[r] == 0 && b == Link(a, eoc, clst, r))
  {
    var scl := if 2 <= a.last < |a.fat| then a.last else clst;
    SearchFinds(a.fat, scl, scl);
  }

  /** Linking a free cluster to the end of a chain makes the chain longer by it and changes no earlier link. */
  lemma {:induction false} ChainGrows(g: Geometry, fat: seq<nat>, fat': seq<nat>, first: nat, h: nat, c: nat, eoc: nat, i: nat)
    requires |fat| == |fat'| == g.nFatent <= eoc && i <= h && ClusterAt(g, fat, first, h) != 0
    requires var e := ClusterAt(g, fat, first, h); fat[e] >= g.nFatent && g.IsCluster(c) && fat[c] == 0 && fat' == fat[c := eoc][e := c]
    ensures ClusterAt(g, fat', first, i) == ClusterAt(g, fat, first, i) != c
    ensures i == h ==> ClusterAt(g, fat', first, h + 1) == c && ClusterAt(g, fat', first, h + 2) == 0
  {
    if ClusterAt(g, fat, first, i) == 0 {
      EndStays(g, fat, first, i, h);
    } else if i < h {
      if ClusterAt(g, fat, first, i + 1) == 0 {
        EndStays(g, fat, first, i + 1, h);
      }
    }
    if i > 0 {
      ChainGrows(g, fat, fat', first, h, c, eoc, i - 1);
      if ClusterAt(g, fat, first, i) == 0 {
        EndStays(g, fat, first, i, h);
      }
    }
  }

  /** The chain from `first` is longer by cluster `c`, behind cluster `h`. */
  ghost predicate Longer(g: Geometry, fat: seq<nat>, fat': seq<nat>, first: nat, h: nat, c: nat)
    requires |fat| == |fat'| == g.nFatent
  {
    && ClusterAt(g, fat', first, h + 1) == c && ClusterAt(g, fat', first, h + 2) == 0
    && forall i {:trigger ClusterAt(g, fat', first, i)} :: 0 <= i <= h ==> ClusterAt(g, fat', first, i) == ClusterAt(g, fat, first, i) != c
  }

  lemma NowLonger(g: Geometry, fat: seq<nat>, fat': seq<nat>, first: nat, h: nat, c: nat, eoc: nat)
    requires |fat| == |fat'| == g.nFatent <= eoc && ClusterAt(g, fat, first, h) != 0
    requires var e := ClusterAt(g, fat, first, h); fat[e] >= g.nFatent && g.IsCluster(c) && fat[c] == 0 && fat' == fat[c := eoc][e := c]
    ensures Longer(g, fat, fat', first, h, c)
  {
    forall i {:trigger ClusterAt(g, fat', first, i)} | 0 <= i <= h
      ensures ClusterAt(g, fat', first, i) == ClusterAt(g, fat, first, i) != c
    {
      ChainGrows(g, fat, fat', first, h, c, eoc, i);
    }
    ChainGrows(g, fat, fat', first, h, c, eoc, h);
    assert ClusterAt(g, fat', first, h + 1) == c;
    assert fat'[c] == eoc && ClusterAt(g, fat', first, h + 2) == 0;
  }

  /** What a request for another cluster is answered with on a device without faults. */
  function Granted(a: Alloc, eoc: nat, clst: nat): FResult
    requires 3 <= |a.fat|
  {
    var r := Create(a, eoc, clst).1;
    if r == 0 then DENIED else if r == 1 then INT_ERR else OK
  }

  /** The table of the chain from `first` got cluster `c`, filled with zeros, behind its cluster `h`; nothing else outside the FAT changed. */
  ghost predicate Stretched(g: Geometry, l: seq<Sector>, l': seq<Sector>, first: nat, h: nat, c: dword)
    requires g.Valid() && g.volEnd <= |l| == |l'|
  {
    && g.IsCluster(c) && g.Fat(l')[c] != 0 && Longer(g, g.Fat(l), g.Fat(l'), first, h, c)
    && (forall s :: 0 <= s < |l| && !g.InFatArea(s) ==> l'[s] == if InCluster(g, c, s) then ZeroSector() else l[s])
  }

  /** If the allocation information is right, no cluster is free. */
  ghost predicate NoneLeft(a: Alloc) {
    |a.fat| >= 3 && FreeKnown(a) && NoBadEntry(a.fat) ==> CountFree(a.fat, 2) == 0
  }

  lemma DeniedIfFull(a: Alloc, eoc: nat, clst: nat)
    requires 3 <= |a.fat| && 2 <= clst < |a.fat| && a.fat[clst] >= |a.fat| && Create(a, eoc, clst).1 == 0
    ensures NoneLeft(a)
  {
    hide Create, FreeKnown, CountFree;
    if FreeKnown(a) && NoBadEntry(a.fat) {
      CreateFailsIffFull(a, eoc, clst);
    }
  }

  /** The logical disk and the allocation information of a volume. */
  datatype VolState = VolState(l: seq<Sector>, last: dword, free: dword, flag: byte)

  ghost function StateOf(v: Volume): VolState
    requires v.Valid()
    reads v, v.win, v.dev
  {
    VolState(v.Logical(), v.lastClst, v.freeClst, v.fsiFlag)
  }

  /** What every allocation keeps: a count that is unknown or right, no entry 1, and clusters in use. */
  ghost predicate AllocTame(a: Alloc, b: Alloc) {
    && 2 <= |a.fat| == |b.fat| && (FreeKnown(a) ==> FreeKnown(b)) && (NoBadEntry(a.fat) ==> NoBadEntry(b.fat))
    && forall c :: 0 <= c < |a.fat| && a.fat[c] != 0 ==> b.fat[c] != 0
  }

  /** What directory operations keep of a volume, besides that: the sectors before the FAT, and what the flag tells. */
  ghost predicate Tame(g: Geometry, x: VolState, y: VolState) {
    && g.Valid() && g.volEnd <= |x.l| == |y.l|
    && AllocTame(Alloc(g.Fat(x.l), x.last, x.free), Alloc(g.Fat(y.l), y.last, y.free))
    && (forall s :: 0 <= s < g.fatbase ==> y.l[s] == x.l[s])
    && (y.flag == 0 ==> x.flag == 0 && y.free == x.free) && (x.flag <= 1 ==> y.flag <= 1) && (x.flag >= 0x80 ==> y.flag >= 0x80)
  }

  lemma TameSame(g: Geometry, x: VolState, y: VolState)
    requires g.Valid() && g.volEnd <= |x.l| && y.l == x.l && y.free == x.free && y.flag == x.flag
    ensures Tame(g, x, y)
  {
    hide Geometry.Fat;
  }

  lemma TameTrans(g: Geometry, x: VolState, y: VolState, z: VolState)
    requires Tame(g, x, y) && Tame(g, y, z)
    ensures Tame(g, x, z)
  {
    hide Geometry.Fat, FreeKnown, NoBadEntry;
  }

  /** A change outside the FAT and the sectors before it. */
  lemma TameOutside(g: Geometry, x: VolState, y: VolState)
    requires g.Valid() && g.volEnd <= |x.l| == |y.l| && g.Fat(y.l) == g.Fat(x.l) && y.free == x.free && y.flag == x.flag
    requires forall s :: 0 <= s < g.fatbase ==> y.l[s] == x.l[s]
    ensures Tame(g, x, y)
  {
    hide Geometry.Fat;
  }

  lemma EndMark(g: Geometry)
    requires g.Valid()
    ensures 3 <= g.nFatent <= Eoc(g.ty)
  {
  }

  lemma CreateTame(a: Alloc, eoc: nat, clst: nat)
    requires 3 <= |a.fat| <= eoc && 2 <= clst < |a.fat| && a.fat[clst] >= |a.fat|
    ensures AllocTame(a, Create(a, eoc, clst).0)
  {
    hide FreeKnown, Create;
    CreateGives(a, eoc, clst);
    if FreeKnown(a) {
      CreateCounts(a, eoc, clst);
    }
  }

  /** Without entries 1 an allocation ends with a cluster or finds none. */
  lemma CreateNotOne(a: Alloc, eoc: nat, clst: nat)
    requires 3 <= |a.fat| && 2 <= clst < |a.fat| && a.fat[clst] >= |a.fat| && NoBadEntry(a.fat)
    ensures Create(a, eoc, clst).1 != 1
  {
    var scl := if 2 <= a.last < |a.fat| then a.last else clst;
    SearchFinds(a.fat, scl, scl);
  }

  /** The effect of a successful allocation. */
  lemma Allocated(g: Geometry, x: VolState, y: VolState)
    requires g.Valid() && g.volEnd <= |x.l| && g.SameOutsideFat(x.l, y.l)
    requires AllocTame(Alloc(g.Fat(x.l), x.last, x.free), Alloc(g.Fat(y.l), y.last, y.free))
    requires y.flag / 0x80 == x.flag / 0x80 && (y.flag == 0 ==> x.flag == 0 && y.free == x.free) && (x.flag <= 1 ==> y.flag <= 1)
    ensures Tame(g, x, y)
  {
    hide Geometry.Fat, AllocTame;
  }

  /** The volume was only looked at. */
  twostate predicate Untouched(v: Volume)
    reads v, v.dev
  {
    && v.freeClst == old(v.freeClst) && v.lastClst == old(v.lastClst) && v.fsiFlag == old(v.fsiFlag)
    && (old(!v.wflag) ==> !v.wflag && v.dev.sectors == old(v.dev.sectors))
  }

  /** The FAT and everything outside of it are the same. */
  ghost predicate SameContents(g: Geometry, l: seq<Sector>, l': seq<Sector>)
    requires g.Valid() && g.volEnd <= |l| == |l'|
  {
    g.Fat(l') == g.Fat(l) && g.SameOutsideFat(l, l')
  }

  /** The directory object: a table that starts at `sclust`, or the root if that is 0. */
  class Dir {
    const vol: Volume
    const dirbase: dword
    const rootSectors: nat
    const sclust: dword
    var dptr: nat
    var clust: dword
    var sect: dword
    ghost var hop: nat

    constructor (vol: Volume, dirbase: dword, rootSectors: nat, sclust: dword)
      ensures this.vol == vol && this.dirbase == dirbase && this.rootSectors == rootSectors && this.sclust == sclust
    {
      this.vol, this.dirbase, this.rootSectors, this.sclust := vol, dirbase, rootSectors, sclust;
      dptr, clust, sect, hop := 0, 0, 0, 0;
    }

    /** The first cluster; 0 for the fixed root of FAT12 and FAT16. */
    function First(): dword {
      if sclust == 0 && vol.geo.ty == FAT32 then dirbase else sclust
    }

    /** A fixed root lies between the FAT and the data. */
    ghost predicate Placed() {
      && vol.geo.Valid() && vol.geo.ValidData()
      && (First() == 0 ==> vol.geo.fatbase + vol.geo.nFats * vol.geo.fsize <= dirbase && dirbase + rootSectors <= vol.geo.database)
    }

    ghost predicate Sound()
      reads vol`winsect, vol`wflag, vol.win, vol.dev
    {
      vol.Valid() && Placed()
    }

    ghost function Fat(): (r: seq<nat>)
      requires Sound()
      reads vol`winsect, vol`wflag, vol.win, vol.dev
      ensures |r| == vol.geo.nFatent
    {
      vol.geo.Fat(vol.Logical())
    }

    /** The table has an entry at byte `ofs`. */
    ghost predicate Exists(fat: seq<nat>, ofs: nat)
      requires |fat| == vol.geo.nFatent && vol.geo.csize > 0
    {
      && ofs < MAX_DIR
      && if First() == 0 then ofs < SS * rootSectors else ClusterAt(vol.geo, fat, First(), HopOf(vol.geo, ofs)) != 0
    }

    /** The sector of byte `ofs` of the table. */
    ghost function SectorOf(fat: seq<nat>, ofs: nat): (r: nat)
      requires Placed() && |fat| == vol.geo.nFatent && Exists(fat, ofs)
    {
      if First() == 0 then dirbase + SecNo(ofs)
      else vol.geo.Clst2Sect(ClusterAt(vol.geo, fat, First(), HopOf(vol.geo, ofs))) + SecNo(ofs - Start(vol.geo, HopOf(vol.geo, ofs)))
    }

    /** The object stands at the entry that starts at byte `ofs`. */
    ghost predicate At(fat: seq<nat>, ofs: nat)
      requires Placed() && |fat| == vol.geo.nFatent
      reads this
    {
      && dptr == ofs < MAX_DIR && ofs % SZDIRE == 0 && sect != 0
      && if First() == 0 then clust == 0 && ofs < SS * rootSectors && sect == dirbase + SecNo(ofs)
         else && clust == ClusterAt(vol.geo, fat, First(), hop) != 0
              && Start(vol.geo, hop) <= ofs < Start(vol.geo, hop) + vol.geo.Bcs()
              && sect == vol.geo.Clst2Sect(clust) + SecNo(ofs - Start(vol.geo, hop))
    }

    /** The object stands at the last entry of the last cluster of its chain, and another entry is allowed. */
    ghost predicate AtLastCluster(fat: seq<nat>)
      requires Placed() && |fat| == vol.geo.nFatent
      reads this
    {
      && sect != 0 && First() != 0 && dptr + SZDIRE == Start(vol.geo, hop + 1) && dptr + SZDIRE < MAX_DIR
      && vol.geo.IsCluster(clust) && fat[clust] >= vol.geo.nFatent
    }

    /** Where the object stands there is an entry, and it holds that entry's sector. */
    lemma AtExists(fat: seq<nat>, ofs: nat)
      requires Placed() && |fat| == vol.geo.nFatent && At(fat, ofs)
      ensures Exists(fat, ofs) && sect == SectorOf(fat, ofs)
    {
      hide Volume.Valid, Geometry.Valid, Geometry.Clst2Sect, SecNo, Start, ClusterAt;
      if First() != 0 {
        HopIs(vol.geo, hop, ofs);
      }
    }

    /** dir_sdi */
    method Sdi(ofs: dword) returns (res: FResult)
      requires Sound()
      modifies this, vol`winsect, vol`wflag, vol.win, vol.dev
      ensures Sound() && vol.Logical() == old(vol.Logical()) && Untouched(vol)
      ensures res != NO_FILE && res != DENIED && res != INVALID_NAME && (res == OK ==> At(Fat(), ofs))
      ensures vol.dev.reliable ==> (res == OK <==> ofs % SZDIRE == 0 && Exists(Fat(), ofs))
    {
      hide Volume.Valid, Volume.Logical, Volume.MirrorInSync, Geometry.Valid, Geometry.Fat, Geometry.Clst2Sect, SecNo, SecOfs, ClusterAt;
      if ofs >= MAX_DIR || ofs % SZDIRE != 0 {
        return INT_ERR;
      }
      dptr := ofs;
      ghost var fat := Fat();
      var clst := First();
      if clst == 0 {
        if ofs / SZDIRE >= 16 * rootSectors {
          return INT_ERR;
        }
        RootFits(ofs);
        clust, sect := 0, dirbase + SecNo(ofs);
        return OK;
      }
      res := FollowTo(ofs);
    }

    lemma RootFits(ofs: nat)
      requires Placed() && First() == 0 && ofs / SZDIRE < 16 * rootSectors
      ensures ofs < SS * rootSectors && 0 < dirbase + SecNo(ofs) < TWO32
    {
    }

    /** The loop of dir_sdi along the chain. */
    method FollowTo(target: dword) returns (res: FResult)
      requires Sound() && First() != 0 && target < MAX_DIR && target % SZDIRE == 0 && dptr == target
      modifies this`clust, this`sect, this`hop, vol`winsect, vol`wflag, vol.win, vol.dev
      ensures Sound() && vol.Logical() == old(vol.Logical()) && Untouched(vol)
      ensures res != NO_FILE && res != DENIED && res != INVALID_NAME && (res == OK ==> At(Fat(), target))
      ensures vol.dev.reliable ==> (res == OK <==> Exists(Fat(), target))
    {
      hide Volume.Valid, Volume.Logical, Volume.MirrorInSync, Geometry.Valid, Geometry.Fat, Geometry.Clst2Sect, SecNo, SecOfs, ClusterAt, Start;
      ghost var fat := Fat();
      var clst: dword, csz, ofs: nat := First(), vol.geo.Bcs(), target;
      hop := 0;
      StartZero(fat);
      while ofs >= csz
        invariant Sound() && vol.Logical() == old(vol.Logical()) && dptr == target && Untouched(vol)
        invariant Start(vol.geo, hop) + ofs == target
        invariant ClusterAt(vol.geo, fat, First(), hop) == if vol.geo.IsCluster(clst) then clst else 0
      {
        Later(fat, target, ofs);
        Linked(fat, hop);
        clst := vol.GetFat(clst);
        if clst == 0xFFFF_FFFF {
          return DISK_ERR;
        }
        if clst < 2 || clst >= vol.geo.nFatent {
          return INT_ERR;
        }
        StartNext(vol.geo, hop);
        ofs, hop := ofs - csz, hop + 1;
      }
      HopIs(vol.geo, hop, target);
      ClusterSector(clst);
      var top := vol.geo.Clst2Sect(clst);
      clust := clst;
      if top == 0 {
        return INT_ERR;
      }
      SecInCluster(vol.geo, ofs);
      Bounds();
      sect := top + SecNo(ofs);
      res := OK;
    }

    lemma StartZero(fat: seq<nat>)
      requires |fat| == vol.geo.nFatent
      ensures Start(vol.geo, 0) == 0
      ensures ClusterAt(vol.geo, fat, First(), 0) == if vol.geo.IsCluster(First()) then First() else 0
    {
    }

    lemma Linked(fat: seq<nat>, h: nat)
      requires |fat| == vol.geo.nFatent
      ensures var p := ClusterAt(vol.geo, fat, First(), h);
              ClusterAt(vol.geo, fat, First(), h + 1) == if p != 0 && vol.geo.IsCluster(fat[p]) then fat[p] else 0
    {
    }

    /** If the chain ends before the wanted cluster, the entry does not exist. */
    lemma Later(fat: seq<nat>, target: nat, ofs: nat)
      requires |fat| == vol.geo.nFatent && vol.geo.csize > 0 && First() != 0
      requires Start(vol.geo, hop) + ofs == target && ofs >= vol.geo.Bcs()
      ensures ClusterAt(vol.geo, fat, First(), hop + 1) == 0 ==> !Exists(fat, target)
    {
      hide ClusterAt;
      if ClusterAt(vol.geo, fat, First(), hop + 1) == 0 {
        HopAtLeast(target, hop + 1);
        EndStays(vol.geo, fat, First(), hop + 1, HopOf(vol.geo, target));
      }
    }

    lemma HopAtLeast(ofs: nat, h: nat)
      requires vol.geo.csize > 0 && ofs >= Start(vol.geo, h)
      ensures HopOf(vol.geo, ofs) >= h
    {
      var b, q := vol.geo.Bcs(), HopOf(vol.geo, ofs);
      if q < h {
        assert b * q + b <= b * h by {
          assert b * (h - q) == b * h - b * q;
          MulAtLeast(b, h - q);
        }
      }
    }

    lemma ClusterSector(c: dword)
      requires Placed()
      ensures vol.geo.Clst2Sect(c) == 0 <==> !vol.geo.IsCluster(c)
      ensures vol.geo.IsCluster(c) ==> vol.geo.database <= vol.geo.Clst2Sect(c) && vol.geo.Clst2Sect(c) + vol.geo.csize <= vol.geo.volEnd
    {
      hide Geometry.Clst2Sect, Geometry.DataEnd, Geometry.Valid, Geometry.ValidData;
      SectorZero(vol.geo, c);
    }

    /**
      * dir_clear: fills a cluster with zeros through the window.  After an error either the window could not be flushed and
      * nothing changed, or the window shows the cluster and `done` of its sectors are cleared; then the window is in step with
      * the device exactly if the first sector was cleared, or zero before.
      */
    method Clear(clst: dword) returns (res: FResult, ghost turned: bool, ghost done: nat)
      requires Sound() && vol.geo.IsCluster(clst)
      modifies vol`winsect, vol`wflag, vol.win, vol.dev
      ensures |vol.dev.sectors| == old(|vol.dev.sectors|)
      ensures vol.dev.reliable ==> res == OK
      ensures res == OK || res == DISK_ERR
      ensures res == OK ==> Sound() && Wiped(vol.geo, old(vol.Logical()), vol.Logical(), clst)
      ensures res == DISK_ERR && !turned ==> Sound() && vol.Logical() == old(vol.Logical())
      ensures res == DISK_ERR && turned ==>
        && !vol.wflag && vol.winsect == vol.geo.Clst2Sect(clst) < |vol.dev.sectors| && vol.win[..] == ZeroSector() && done < vol.geo.csize
        && PartWiped(vol.geo, old(vol.Logical()), vol.geo.Project(vol.dev.sectors), clst, done)
        && (vol.Valid() <==> done > 0 || old(vol.Logical())[vol.geo.Clst2Sect(clst)] == ZeroSector())
    {
      hide Volume.MirrorInSync, Geometry.Fat, Geometry.Clst2Sect, Geometry.Valid, Geometry.ValidData, Geometry.Project;
      ghost var l := vol.Logical();
      turned, done := false, 0;
      res := vol.SyncWindow();
      if res != OK {
        return DISK_ERR, turned, done;
      }
      ghost var v := vol.dev.sectors;
      turned := true;
      ClusterSector(clst);
      Bounds();
      var sect := vol.geo.Clst2Sect(clst);
      vol.winsect := sect;
      forall i | 0 <= i < SS {
        vol.win[i] := 0;
      }
      assert vol.win[0..0 + SS] == ZeroSector();
      var n := 0;
      while n < vol.geo.csize
        invariant 0 <= n <= vol.geo.csize && |vol.dev.sectors| == |v| && vol.win[0..0 + SS] == ZeroSector()
        invariant !vol.wflag && vol.winsect == sect
        invariant forall s :: 0 <= s < |v| ==> vol.dev.sectors[s] == if sect <= s < sect + n then ZeroSector() else v[s]
      {
        var ok := vol.dev.Write(vol.win, 0, sect + n, 1);
        if !ok {
          assert vol.win[..] == vol.win[0..0 + SS];
          Cleared(vol.geo, clst, sect, v, vol.dev.sectors, n);
          return DISK_ERR, turned, n;
        }
        n := n + 1;
      }
      Cleared(vol.geo, clst, sect, v, vol.dev.sectors, n);
      assert vol.win[..] == vol.win[0..0 + SS];
    }

    /** The part of dir_next that goes to the next cluster, or adds one. */
    method NextCluster(stretch: bool, ofs: nat) returns (res: FResult)
      requires Sound() && First() != 0 && clust == ClusterAt(vol.geo, Fat(), First(), hop) != 0
      modifies this`clust, this`sect, this`hop, vol, vol.win, vol.dev
      ensures |vol.dev.sectors| == old(|vol.dev.sectors|)
      ensures !stretch || res != DISK_ERR ==> Sound()
      ensures !stretch || old(ClusterAt(vol.geo, Fat(), First(), hop + 1) != 0) ==> Sound() && vol.Logical() == old(vol.Logical())
      ensures res == OK ==> hop == old(hop) + 1 && clust == ClusterAt(vol.geo, Fat(), First(), hop) != 0 && sect == vol.geo.Clst2Sect(clust)
      ensures res == NO_FILE ==> !stretch && sect == 0 && old(ClusterAt(vol.geo, Fat(), First(), hop + 1)) == 0
      ensures vol.dev.reliable && !stretch ==> (res == OK <==> old(ClusterAt(vol.geo, Fat(), First(), hop + 1)) != 0)
      ensures vol.dev.reliable ==> Sound() && (old(ClusterAt(vol.geo, Fat(), First(), hop + 1)) != 0 ==> res == OK)
      ensures vol.dev.reliable && res != OK ==> SameContents(vol.geo, old(vol.Logical()), vol.Logical())
      ensures res != INVALID_NAME && (res == DENIED ==> stretch && NoneLeft(vol.AllocState()))
      ensures vol.dev.reliable && old(NoBadEntry(Fat()) && (vol.geo.IsCluster(clust) ==> Fat()[clust] != 0)) ==> res == OK || res == NO_FILE || res == DENIED
      ensures !stretch ==> Untouched(vol)
      ensures vol.dev.reliable ==> Tame(vol.geo, old(StateOf(vol)), StateOf(vol))
      ensures res == OK && old(ClusterAt(vol.geo, Fat(), First(), hop + 1)) == 0 ==>
                Stretched(vol.geo, old(vol.Logical()), vol.Logical(), First(), old(hop), clust)
      ensures vol.dev.reliable && stretch && old(Fat()[clust]) >= vol.geo.nFatent ==>
                res == Granted(old(vol.AllocState()), Eoc(vol.geo.ty), old(clust))
    {
      hide Volume.Valid, Volume.Logical, Volume.MirrorInSync, Geometry.Valid, Geometry.Fat, Geometry.Clst2Sect, ClusterAt, Stretched, Wiped,
           NoneLeft, Tame;
      ghost var x := StateOf(vol);
      Linked(Fat(), hop);
      Bounds();
      OnDevice();
      var clst := vol.GetFat(clust);
      ghost var y := StateOf(vol);
      TameSame(vol.geo, x, y);
      if clst <= 1 {
        return INT_ERR;
      }
      if clst == 0xFFFF_FFFF {
        return DISK_ERR;
      }
      if clst >= vol.geo.nFatent {
        if !stretch {
          sect := 0;
          return NO_FILE;
        }
        res, clst := AddCluster();
        if vol.dev.reliable {
          TameTrans(vol.geo, x, y, StateOf(vol));
        }
        if res != OK {
          return;
        }
        Grew(old(vol.Logical()), vol.Logical(), clst);
      }
      clust, hop := clst, hop + 1;
      sect := vol.geo.Clst2Sect(clst);
      res := OK;
    }

    /** The part of dir_next that adds a cluster behind the last one and clears it. */
    method AddCluster() returns (res: FResult, clst: dword)
      requires Sound() && First() != 0 && clust == ClusterAt(vol.geo, Fat(), First(), hop) != 0 && Fat()[clust] >= vol.geo.nFatent
      modifies vol, vol.win, vol.dev
      ensures |vol.dev.sectors| == old(|vol.dev.sectors|)
      ensures res != DISK_ERR ==> Sound()
      ensures res != NO_FILE && res != INVALID_NAME
      ensures res == OK ==> Stretched(vol.geo, old(vol.Logical()), vol.Logical(), First(), hop, clst)
      ensures vol.dev.reliable ==> Sound() && (res != OK ==> SameContents(vol.geo, old(vol.Logical()), vol.Logical()))
      ensures res == DENIED ==> NoneLeft(vol.AllocState())
      ensures vol.dev.reliable && old(NoBadEntry(Fat())) ==> res == OK || res == DENIED
      ensures vol.dev.reliable ==> Tame(vol.geo, old(StateOf(vol)), StateOf(vol))
      ensures vol.dev.reliable ==> res == Granted(old(vol.AllocState()), Eoc(vol.geo.ty), old(clust))
    {
      hide Volume.Valid, Volume.Logical, Volume.MirrorInSync, Geometry.Valid, Geometry.Fat, Geometry.Clst2Sect, ClusterAt, Stretched, Wiped,
           Create, Geometry.SameOutsideFat, NoneLeft, Tame, AllocTame, NoBadEntry;
      ghost var l, x := vol.Logical(), StateOf(vol);
      ghost var a := vol.AllocState();
      Bounds();
      EndMark(vol.geo);
      CreateTame(a, Eoc(vol.geo.ty), clust);
      if NoBadEntry(a.fat) {
        CreateNotOne(a, Eoc(vol.geo.ty), clust);
      }
      Bounds();
      OnDevice();
      CreateGives(a, Eoc(vol.geo.ty), clust);
      clst := vol.CreateChain(clust);
      if clst != 0xFFFF_FFFF {
        Allocated(vol.geo, x, StateOf(vol));
      }
      if clst == 0 {
        DeniedIfFull(a, Eoc(vol.geo.ty), clust);
        return DENIED, clst;
      }
      if clst == 1 {
        return INT_ERR, clst;
      }
      if clst == 0xFFFF_FFFF {
        return DISK_ERR, clst;
      }
      ghost var m, y := vol.Logical(), StateOf(vol);
      ghost var turned, done;
      res, turned, done := Clear(clst);
      if res == OK {
        NowStretched(l, m, vol.Logical(), clst);
        ClearTame(y, StateOf(vol), clst);
        TameTrans(vol.geo, x, y, StateOf(vol));
      }
    }

    lemma ClearTame(x: VolState, y: VolState, c: dword)
      requires vol.geo.Valid() && vol.geo.ValidData() && vol.geo.volEnd <= |x.l| && vol.geo.IsCluster(c) && Wiped(vol.geo, x.l, y.l, c)
      requires y.free == x.free && y.flag == x.flag
      ensures Tame(vol.geo, x, y)
    {
      hide Geometry.Fat, Geometry.Clst2Sect, Geometry.DataEnd;
      SectorZero(vol.geo, c);
      FileState.FatSame(vol.geo, x.l, y.l);
      TameOutside(vol.geo, x, y);
    }

    lemma Grew(l: seq<Sector>, l': seq<Sector>, c: dword)
      requires vol.geo.Valid() && vol.geo.volEnd <= |l| == |l'| && Stretched(vol.geo, l, l', First(), hop, c)
      ensures vol.geo.IsCluster(c) && ClusterAt(vol.geo, vol.geo.Fat(l'), First(), hop + 1) == c
    {
    }

    lemma NowStretched(l: seq<Sector>, m: seq<Sector>, l': seq<Sector>, c: dword)
      requires vol.geo.Valid() && vol.geo.ValidData() && vol.geo.volEnd <= |l| == |m| == |l'| && vol.geo.IsCluster(c)
      requires clust == ClusterAt(vol.geo, vol.geo.Fat(l), First(), hop) != 0
      requires var fat := vol.geo.Fat(l); fat[clust] >= vol.geo.nFatent && fat[c] == 0 && vol.geo.Fat(m) == fat[c := Eoc(vol.geo.ty)][clust := c]
      requires vol.geo.SameOutsideFat(l, m) && Wiped(vol.geo, m, l', c)
      ensures Stretched(vol.geo, l, l', First(), hop, c)
    {
      hide Geometry.Fat, Geometry.Clst2Sect, ClusterAt;
      SectorZero(vol.geo, c);
      FileState.FatSame(vol.geo, m, l');
      NowLonger(vol.geo, vol.geo.Fat(l), vol.geo.Fat(l'), First(), hop, c, Eoc(vol.geo.ty));
    }

    /** dir_next */
    method Next(stretch: bool) returns (res: FResult)
      requires Sound() && (sect != 0 ==> At(Fat(), dptr))
      modifies this, vol, vol.win, vol.dev
      ensures |vol.dev.sectors| == old(|vol.dev.sectors|)
      ensures !stretch || res != DISK_ERR ==> Sound()
      ensures !stretch || old(sect == 0 || Exists(Fat(), dptr + SZDIRE)) ==> Sound() && vol.Logical() == old(vol.Logical())
      ensures old(sect) == 0 ==> res == NO_FILE
      ensures res == OK ==> At(Fat(), old(dptr) + SZDIRE)
      ensures res == NO_FILE ==> sect == 0 && (old(sect) != 0 ==> old(!Exists(Fat(), dptr + SZDIRE)))
      ensures res == NO_FILE && stretch && old(sect) != 0 ==> First() == 0 || old(dptr) + SZDIRE >= MAX_DIR
      ensures vol.dev.reliable && !stretch && old(sect) != 0 ==> (res == OK <==> old(Exists(Fat(), dptr + SZDIRE)))
      ensures vol.dev.reliable ==> Sound() && (old(sect) != 0 && old(Exists(Fat(), dptr + SZDIRE)) ==> res == OK)
      ensures vol.dev.reliable && res != OK ==> SameContents(vol.geo, old(vol.Logical()), vol.Logical())
      ensures res != INVALID_NAME && (res == DENIED ==> stretch && NoneLeft(vol.AllocState()))
      ensures vol.dev.reliable && old(NoBadEntry(Fat()) && (vol.geo.IsCluster(clust) ==> Fat()[clust] != 0)) ==> res == OK || res == NO_FILE || res == DENIED
      ensures !stretch ==> Untouched(vol)
      ensures vol.dev.reliable ==> Tame(vol.geo, old(StateOf(vol)), StateOf(vol))
      ensures res == OK && old(!Exists(Fat(), dptr + SZDIRE)) ==>
                First() != 0 && old(dptr) + SZDIRE == Start(vol.geo, hop) && hop > 0 &&
                Stretched(vol.geo, old(vol.Logical()), vol.Logical(), First(), hop - 1, clust)
      ensures vol.dev.reliable && stretch && old(AtLastCluster(Fat())) ==>
                res == Granted(old(vol.AllocState()), Eoc(vol.geo.ty), old(clust))
    {
      hide Volume.Valid, Volume.Logical, Volume.MirrorInSync, Geometry.Valid, Geometry.Fat, Geometry.Clst2Sect, SecNo, SecOfs, ClusterAt, Start,
           Stretched, Granted, Create, Eoc, NoneLeft, Tame, NoBadEntry;
      ghost var fat := Fat();
      OnDevice();
      TameSame(vol.geo, StateOf(vol), StateOf(vol));
      StartNext(vol.geo, hop);
      var ofs := dptr + SZDIRE;
      if ofs >= MAX_DIR {
        sect := 0;
      }
      if sect == 0 {
        return NO_FILE;
      }
      EntryStep(dptr);
      if clust == 0 {
        RootStep(ofs);
        if SecOfs(ofs) == 0 {
          sect := sect + 1;
          if ofs / SZDIRE >= 16 * rootSectors {
            sect := 0;
            return NO_FILE;
          }
        }
      } else if SecOfs(ofs) == 0 {
        Boundary(fat, ofs);
        OnDevice();
        sect := sect + 1;
        if SecNo(ofs) % vol.geo.csize == 0 {
          res := NextCluster(stretch, ofs);
          if res != OK {
            return;
          }
          ClusterSector(clust);
          Enter(ofs);
        }
      } else {
        Inside(fat, ofs);
      }
      dptr := ofs;
      res := OK;
    }

    /** In a fixed root the next entry is in the same sector or in the one after it. */
    lemma RootStep(ofs: nat)
      requires Placed() && First() == 0 && dptr < SS * rootSectors && dptr % SZDIRE == 0 && sect == dirbase + SecNo(dptr) && ofs == dptr + SZDIRE
      ensures SecOfs(ofs) != 0 ==> ofs < SS * rootSectors && SecNo(ofs) == SecNo(dptr)
      ensures SecOfs(ofs) == 0 ==> sect + 1 == dirbase + SecNo(ofs) < TWO32
      ensures ofs / SZDIRE >= 16 * rootSectors <==> ofs >= SS * rootSectors
    {
      hide Volume.Valid;
      EntryStep(dptr);
      Bounds();
    }

    /** At the end of a sector: the next sector of the cluster, or the end of the cluster. */
    lemma Boundary(fat: seq<nat>, ofs: nat)
      requires Placed() && |fat| == vol.geo.nFatent && At(fat, dptr) && First() != 0 && ofs == dptr + SZDIRE < MAX_DIR && SecOfs(ofs) == 0
      ensures SecNo(ofs) % vol.geo.csize == 0 <==> ofs == Start(vol.geo, hop + 1)
      ensures ofs != Start(vol.geo, hop + 1) ==> Start(vol.geo, hop) <= ofs < Start(vol.geo, hop) + vol.geo.Bcs() && Exists(fat, ofs)
      ensures ofs != Start(vol.geo, hop + 1) ==> sect + 1 == vol.geo.Clst2Sect(clust) + SecNo(ofs - Start(vol.geo, hop))
      ensures ofs == Start(vol.geo, hop + 1) ==> (Exists(fat, ofs) <==> ClusterAt(vol.geo, fat, First(), hop + 1) != 0)
      ensures sect + 1 <= vol.geo.volEnd
    {
      hide Volume.Valid, Volume.Logical, Geometry.Valid, Geometry.Fat, Geometry.Clst2Sect, SecNo, SecOfs, ClusterAt, Start;
      var r := dptr - Start(vol.geo, hop);
      StartNext(vol.geo, hop);
      AlignedByStart(vol.geo, hop, r);
      EntryStep(r);
      ShiftedByStart(vol.geo, hop, r + SZDIRE);
      RoomLeft(r);
      ClusterStep(vol.geo, hop, r + SZDIRE);
      ClusterSector(clust);
      SecInCluster(vol.geo, r);
      Bounds();
      if ofs == Start(vol.geo, hop + 1) {
        HopIs(vol.geo, hop + 1, ofs);
      } else {
        HopIs(vol.geo, hop, ofs);
      }
    }

    /** An entry ends inside its cluster. */
    lemma RoomLeft(r: nat)
      requires r < vol.geo.Bcs() && r % SZDIRE == 0
      ensures r + SZDIRE <= vol.geo.Bcs()
    {
      EntryStep(r);
      SecInCluster(vol.geo, r);
    }

    lemma OnDevice()
      requires Sound()
      ensures vol.geo.volEnd <= |vol.Logical()| && vol.geo.volEnd < TWO32
    {
    }

    lemma Bounds()
      requires Placed()
      ensures vol.geo.Valid() && vol.geo.ValidData() && vol.geo.csize > 0 && vol.geo.database < vol.geo.volEnd <= TWO32
    {
    }

    /** Inside a sector the next entry is in the same sector. */
    lemma Inside(fat: seq<nat>, ofs: nat)
      requires Placed() && |fat| == vol.geo.nFatent && At(fat, dptr) && First() != 0 && ofs == dptr + SZDIRE < MAX_DIR && SecOfs(ofs) != 0
      ensures Start(vol.geo, hop) <= ofs < Start(vol.geo, hop) + vol.geo.Bcs() && Exists(fat, ofs)
      ensures SecNo(ofs - Start(vol.geo, hop)) == SecNo(dptr - Start(vol.geo, hop))
    {
      hide Volume.Valid, Volume.Logical, Geometry.Valid, Geometry.Fat, Geometry.Clst2Sect, SecNo, SecOfs, ClusterAt, Start;
      var r := dptr - Start(vol.geo, hop);
      AlignedByStart(vol.geo, hop, r);
      EntryStep(r);
      ShiftedByStart(vol.geo, hop, r + SZDIRE);
      RoomLeft(r);
      FullIsBoundary(r + SZDIRE);
      HopIs(vol.geo, hop, ofs);
    }

    lemma FullIsBoundary(r: nat)
      ensures r == vol.geo.Bcs() ==> SecOfs(r) == 0
    {
    }

    /** The start of the next cluster. */
    lemma Enter(ofs: nat)
      requires Placed() && ofs == Start(vol.geo, hop)
      ensures SecNo(ofs - Start(vol.geo, hop)) == 0 && vol.geo.Bcs() > 0
    {
    }

    /** The entry at byte `ofs` of the table. */
    ghost function EntryAt(l: seq<Sector>, ofs: nat): Ent
      requires Placed() && vol.geo.volEnd <= |l| && ofs % SZDIRE == 0 && Exists(vol.geo.Fat(l), ofs)
    {
      EntryStep(ofs);
      SectorInside(vol.geo.Fat(l), ofs);
      l[SectorOf(vol.geo.Fat(l), ofs)][SecOfs(ofs)..SecOfs(ofs) + SZDIRE]
    }

    lemma SectorInside(fat: seq<nat>, ofs: nat)
      requires Placed() && |fat| == vol.geo.nFatent && Exists(fat, ofs)
      ensures SectorOf(fat, ofs) < vol.geo.volEnd && !vol.geo.InFatArea(SectorOf(fat, ofs))
    {
      hide Volume.Valid, Geometry.Clst2Sect, SecNo, Start, ClusterAt, HopOf;
      RootPlace(ofs);
      Bounds();
      if First() != 0 {
        ClusterSector(ClusterAt(vol.geo, fat, First(), HopOf(vol.geo, ofs)));
        HopRange(vol.geo, ofs);
        SecInCluster(vol.geo, ofs - Start(vol.geo, HopOf(vol.geo, ofs)));
      }
    }

    lemma RootPlace(ofs: nat)
      requires Placed()
      ensures First() == 0 && ofs < SS * rootSectors ==>
                dirbase + SecNo(ofs) < vol.geo.database && vol.geo.fatbase + vol.geo.nFats * vol.geo.fsize <= dirbase
      ensures forall s :: vol.geo.InFatArea(s) ==> s < vol.geo.fatbase + vol.geo.nFats * vol.geo.fsize <= vol.geo.database
    {
    }

    /** Stretching keeps every entry and adds a cluster of cleared ones. */
    lemma TableStretched(l: seq<Sector>, l': seq<Sector>, h: nat, c: dword, ofs: nat)
      requires Placed() && First() != 0 && ofs % SZDIRE == 0 && ofs < MAX_DIR
      requires vol.geo.volEnd <= |l| == |l'| && Stretched(vol.geo, l, l', First(), h, c)
      ensures ofs < Start(vol.geo, h + 1) && Exists(vol.geo.Fat(l), ofs) ==> Exists(vol.geo.Fat(l'), ofs) && EntryAt(l', ofs) == EntryAt(l, ofs)
      ensures Start(vol.geo, h + 1) <= ofs < Start(vol.geo, h + 2) ==> Exists(vol.geo.Fat(l'), ofs) && EntryAt(l', ofs) == seq(SZDIRE, _ => 0)
    {
      hide Volume.Valid, Geometry.Clst2Sect, SecNo, SecOfs, Start, ClusterAt, Geometry.Fat, Geometry.Valid, Geometry.ValidData;
      Bounds();
      var fat, fat' := vol.geo.Fat(l), vol.geo.Fat(l');
      EntryStep(ofs);
      if ofs < Start(vol.geo, h + 1) && Exists(fat, ofs) {
        var i := HopOf(vol.geo, ofs);
        HopBelow(vol.geo, ofs, h);
        assert ClusterAt(vol.geo, fat', First(), i) == ClusterAt(vol.geo, fat, First(), i) != c;
        SectorInside(fat, ofs);
        OutsideCluster(fat, ofs, c);
      } else if Start(vol.geo, h + 1) <= ofs < Start(vol.geo, h + 2) {
        StartNext(vol.geo, h + 1);
        HopIs(vol.geo, h + 1, ofs);
        SectorInside(fat', ofs);
        SecInCluster(vol.geo, ofs - Start(vol.geo, h + 1));
        assert l'[SectorOf(fat', ofs)] == ZeroSector();
      }
    }

    lemma OutsideCluster(fat: seq<nat>, ofs: nat, c: dword)
      requires Placed() && |fat| == vol.geo.nFatent && Exists(fat, ofs) && First() != 0 && vol.geo.IsCluster(c)
      requires ClusterAt(vol.geo, fat, First(), HopOf(vol.geo, ofs)) != c
      ensures !InCluster(vol.geo, c, SectorOf(fat, ofs))
    {
      hide Volume.Valid, Geometry.Clst2Sect, SecNo, Start, ClusterAt, HopOf, Geometry.Valid, Geometry.ValidData;
      Bounds();
      var d := ClusterAt(vol.geo, fat, First(), HopOf(vol.geo, ofs));
      HopRange(vol.geo, ofs);
      SecInCluster(vol.geo, ofs - Start(vol.geo, HopOf(vol.geo, ofs)));
      if c < d {
        Mount.ClustersApart(vol.geo, c, d);
      } else {
        Mount.ClustersApart(vol.geo, d, c);
      }
    }

    /**
      * The loop of dir_find, dir_read and dir_alloc without stretching: from the first entry, load the sector
      * and go to the next entry.  Whatever the FAT holds it ends, and it has seen exactly the entries of the table.
      */
    method Scan() returns (res: FResult, t: seq<Ent>)
      requires Sound()
      modifies this, vol, vol.win, vol.dev
      ensures Sound() && vol.Logical() == old(vol.Logical()) && |t| <= 0x1_0000 && res != OK
      ensures forall i :: 0 <= i < |t| ==> Exists(Fat(), SZDIRE * i) && t[i] == EntryAt(vol.Logical(), SZDIRE * i)
      ensures vol.dev.reliable || res == NO_FILE ==> !Exists(Fat(), SZDIRE * |t|)
    {
      hide Volume.Valid, Volume.Logical, Volume.MirrorInSync, Geometry.Valid, Geometry.Fat, Geometry.Clst2Sect, SecNo, SecOfs, ClusterAt, Start,
           Dir.At, Dir.Exists, Stretched, Dir.EntryAt;
      t := [];
      OnDevice();
      res := Sdi(0);
      while res == OK
        invariant Sound() && vol.geo.volEnd <= |vol.Logical()| && vol.Logical() == old(vol.Logical()) && |t| <= 0x1_0000
        invariant res == OK ==> At(Fat(), SZDIRE * |t|)
        invariant forall i :: 0 <= i < |t| ==> Exists(Fat(), SZDIRE * i) && t[i] == EntryAt(vol.Logical(), SZDIRE * i)
        invariant res != OK && (vol.dev.reliable || res == NO_FILE) ==> !Exists(Fat(), SZDIRE * |t|)
        decreases 0x1_0000 - |t|, res == OK
      {
        ghost var n := |t|;
        Here(SZDIRE * n);
        var r := vol.MoveWindow(sect);
        if r != OK {
          res := r;
          break;
        }
        t := t + [vol.win[SecOfs(dptr)..SecOfs(dptr) + SZDIRE]];
        res := Next(false);
      }
    }

    /** What the object's position says about the entry there. */
    lemma Here(ofs: nat)
      requires Sound() && At(Fat(), ofs)
      ensures dptr == ofs < MAX_DIR && ofs % SZDIRE == 0 && SecOfs(ofs) + SZDIRE <= SS && sect != 0
      ensures Exists(Fat(), ofs) && sect == SectorOf(Fat(), ofs) < |vol.dev.sectors| < TWO32 && !vol.geo.InMirror(sect)
      ensures EntryAt(vol.Logical(), ofs) == vol.Logical()[sect][SecOfs(ofs)..SecOfs(ofs) + SZDIRE]
    {
      hide Volume.Logical, Geometry.Fat, SecNo, SecOfs, Dir.SectorOf;
      AtExists(Fat(), ofs);
      EntryStep(ofs);
      SectorInside(Fat(), ofs);
    }
  }

  lemma HopRange(g: Geometry, ofs: nat)
    requires g.csize > 0
    ensures Start(g, HopOf(g, ofs)) <= ofs < Start(g, HopOf(g, ofs)) + g.Bcs()
  {
    var b := g.Bcs();
    assert ofs == b * (ofs / b) + ofs % b;
  }

  lemma HopBelow(g: Geometry, ofs: nat, h: nat)
    requires g.csize > 0 && ofs < Start(g, h + 1)
    ensures HopOf(g, ofs) <= h
  {
    hide HopOf;
    HopRange(g, ofs);
    var q := HopOf(g, ofs);
    if q > h {
      Mount.Steps(g.Bcs(), h, q);
    }
  }

  /** A sector with data. */
  function DataSector(): Sector {
    seq(SS, _ => 1)
  }

  /** The root directory of the volume of one cluster, just mounted; the cluster ends a chain and holds data. */
  ghost predicate TinyFresh(d: Dir)
    reads d.vol, d.vol.win, d.vol.dev
  {
    && d.vol.geo == Mount.TINY && d.dirbase == 2 && d.rootSectors == 1 && d.sclust == 0
    && d.vol.dev.sectors == Mount.TinyDisk(0xFF, DataSector()) && d.vol.winsect == NOSECT && !d.vol.wflag && d.vol.win.Length == SS
  }

  /** There dir_clear of the cluster may be called, and the cluster does not begin with zeros. */
  lemma TinySound(d: Dir)
    requires TinyFresh(d)
    ensures d.Sound() && d.vol.geo.IsCluster(2) && d.vol.geo.Clst2Sect(2) == 3
    ensures d.vol.Logical() == d.vol.dev.sectors && d.vol.Logical()[3] != ZeroSector()
  {
    hide Mount.TinyBootSector, Mount.TinyFatSector;
    Mount.TinyAccepted();
    DivModUnique(3, TWO32, 0, 3);
    assert DataSector()[0] != ZeroSector()[0];
  }

  /** If the write that dir_clear makes there fails, it leaves a window that disagrees with the device. */
  twostate lemma StaleWindow(d: Dir, done: nat)
    requires old(TinyFresh(d)) && d.vol.win.Length == SS && done < d.vol.geo.csize
    requires !d.vol.wflag && d.vol.winsect == 3 < |d.vol.dev.sectors| && d.vol.win[..] == ZeroSector()
    requires d.vol.geo.Valid() && d.vol.geo.volEnd <= |d.vol.dev.sectors|
    requires PartWiped(d.vol.geo, old(d.vol.dev.sectors), d.vol.geo.Project(d.vol.dev.sectors), 2, done)
    ensures old(d.Sound()) && !d.vol.Valid()
  {
    hide Mount.TinyBootSector, Mount.TinyFatSector;
    DivModUnique(3, TWO32, 0, 3);
    assert DataSector()[0] != ZeroSector()[0];
    assert d.vol.geo.Project(d.vol.dev.sectors)[3] == d.vol.dev.sectors[3] == DataSector();
  }
}
