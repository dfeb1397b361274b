/** From a formatted device to a file read back by its name. */
module FreshVolume {
  import opened Bytes
  import opened FatTable
  import opened Entries
  import opened Layout
  import opened Devices
  import opened Volumes
  import opened LongNames
  import opened Directories
  import opened Mounting
  import opened DirWalk
  import opened DirTables
  import opened Mkfs
  import opened NamedFiles
  import Chains
  import Registration
  import DirRegister
  import FileDisk
  import FileState
  import Files
  import Session
  import Mount

  /** What mounting makes of a formatted device. */
  ghost function Told(v: seq<Sector>, p: Params): Mount.Mounted
    requires p.bVol < |v|
  {
    Mount.MountVolume(Mount.Fields(v[p.bVol]), p.bVol)
  }

  /** Formatted, and with an empty root. */
  ghost predicate Fresh(v: seq<Sector>, p: Params, c: Config) {
    Formatted(v, p, c) && RootCleared(v, p, c) && InfoLeft(v, p, c) && |v| < TWO32
  }

  lemma FreshGeometry(v: seq<Sector>, p: Params, c: Config)
    requires Fresh(v, p, c)
    ensures p.bVol < |v| && Mount.CheckFs(Mount.Fields(v[p.bVol])) && Told(v, p).Volume?
    ensures var m := Told(v, p);
            && m.g.Valid() && m.g.ValidData() && m.g.volbase == p.bVol && m.g.volEnd <= |v| && m.g.ty == c.ty && m.g.csize == c.pau
            && m.g.fatbase == p.bVol + c.rsv && m.g.database == p.bVol + c.rsv + c.fat * p.nFat + c.dir && m.rootSectors == c.dir
            && (if c.ty == FAT32 then m.dirbase == 2 && c.dir == 0 else m.dirbase == p.bVol + c.rsv + c.fat * p.nFat && c.dir > 0)
            && m.g.fatbase + m.g.fsize * m.g.nFats == p.bVol + c.rsv + c.fat * p.nFat && (m.infoEnabled ==> c.ty == FAT32 && p.bVol + 1 < m.g.fatbase)
    ensures var g := Told(v, p).g; Chains.NoBadEntry(g.Fat(v)) && forall i :: 2 <= i < g.nFatent ==> (g.Fat(v)[i] == 0 <==> !(g.ty == FAT32 && i == 2))
    ensures var g := Told(v, p).g; g.ty == FAT32 ==> g.nFatent > 2 && g.Fat(v)[2] >= g.nFatent
  {
    hide Describes, Mount.MountVolume, Geometry.Fat, Mount.CheckFs, Chains.NoBadEntry, Chains.ReservedUsed, Mount.Fields, NewTable, Mount.TypeFor, SizeFor;
    FormattedMounts(v, p, c);
    Mountable(p, c, Mount.Fields(v[p.bVol]));
    Session.InfoMeans32(Mount.Fields(v[p.bVol]), p.bVol);
    var g := Told(v, p).g;
    NewVolume(g, v);
    if g.ty == FAT32 {
      Mkfs.NewEntry(g, v, 2);
    }
  }

  /** The root directory of the formatted volume; `l` is its logical disk. */
  ghost predicate IsRoot(d: Dir, v: seq<Sector>, p: Params, c: Config, l: seq<Sector>) {
    && Fresh(v, p, c) && p.bVol < |v| && Told(v, p).Volume? && Told(v, p).g.Valid() && Told(v, p).g.volEnd <= |v|
    && d.vol.geo == Told(v, p).g && d.dirbase == Told(v, p).dirbase && d.rootSectors == Told(v, p).rootSectors && d.sclust == 0
    && l == d.vol.geo.Project(v)
  }

  /** It has its place, and its FAT is that of the device. */
  lemma RootPlaced(d: Dir, v: seq<Sector>, p: Params, c: Config, l: seq<Sector>)
    requires IsRoot(d, v, p, c, l)
    ensures d.Placed() && |l| == |v| && d.vol.geo.Fat(l) == d.vol.geo.Fat(v)
    ensures d.First() == if c.ty == FAT32 then 2 else 0
  {
    hide Fresh, Told, Geometry.Fat;
    FreshGeometry(v, p, c);
    FileState.FatSame(d.vol.geo, v, l);
  }

  /** The root of a FAT32 volume is one cluster. */
  lemma {:induction false} RootChain(d: Dir, v: seq<Sector>, p: Params, c: Config, l: seq<Sector>, i: nat)
    requires IsRoot(d, v, p, c, l)
    ensures |d.vol.geo.Fat(l)| == d.vol.geo.nFatent && ClusterAt(d.vol.geo, d.vol.geo.Fat(l), d.First(), i) == if c.ty == FAT32 && i == 0 then 2 else 0
    decreases i
  {
    hide Fresh, Told, Geometry.Fat;
    FreshGeometry(v, p, c);
    RootPlaced(d, v, p, c, l);
    if i > 0 {
      RootChain(d, v, p, c, l, i - 1);
    }
  }

  /** No loop, and the cluster is in use. */
  lemma RootKept(d: Dir, v: seq<Sector>, p: Params, c: Config, l: seq<Sector>)
    requires IsRoot(d, v, p, c, l)
    ensures d.Placed() && |d.vol.geo.Fat(l)| == d.vol.geo.nFatent && Loopless(d, d.vol.geo.Fat(l)) && ChainUsed(d, d.vol.geo.Fat(l))
    ensures Chains.NoBadEntry(d.vol.geo.Fat(l))
  {
    hide Fresh, Told, Geometry.Fat, ClusterAt, Start;
    FreshGeometry(v, p, c);
    RootPlaced(d, v, p, c, l);
    var g, fat, f := d.vol.geo, d.vol.geo.Fat(l), d.First();
    forall i: nat ensures ClusterAt(g, fat, f, i) == if c.ty == FAT32 && i == 0 then 2 else 0 {
      RootChain(d, v, p, c, l, i);
    }
  }

  /** The number of entries of the empty root. */
  function RootEntries(c: Config): nat {
    16 * if c.ty == FAT32 then c.pau else c.dir
  }

  /** The root has as many entries as its sectors hold. */
  lemma RootHas(d: Dir, v: seq<Sector>, p: Params, c: Config, l: seq<Sector>, i: nat)
    requires IsRoot(d, v, p, c, l) && d.Placed() && d.vol.geo.volEnd <= |l|
    ensures Has(d, l, i) <==> i < RootEntries(c) && i < MAX_ENTRIES
  {
    hide Fresh, Told, Geometry.Fat, ClusterAt, HopOf, Start, IsRoot;
    RootPlaced(d, v, p, c, l);
    RootSizes(d, v, p, c, l);
    var g := d.vol.geo;
    var h := HopOf(g, SZDIRE * i);
    RootChain(d, v, p, c, l, h);
    FirstHop(g, SZDIRE * i);
  }

  lemma RootSizes(d: Dir, v: seq<Sector>, p: Params, c: Config, l: seq<Sector>)
    requires IsRoot(d, v, p, c, l)
    ensures d.vol.geo.csize == c.pau > 0 && d.rootSectors == c.dir
  {
    hide Fresh, Told, Geometry.Fat;
    FreshGeometry(v, p, c);
  }

  lemma FirstHop(g: Geometry, ofs: nat)
    requires g.csize > 0
    ensures HopOf(g, ofs) == 0 <==> ofs < g.csize * SS
  {
    HopRange(g, ofs);
  }

  /** The sector of a root entry is cleared. */
  lemma RootSector(d: Dir, v: seq<Sector>, p: Params, c: Config, l: seq<Sector>, i: nat)
    requires IsRoot(d, v, p, c, l) && d.Placed() && d.vol.geo.volEnd <= |l| && Has(d, l, i)
    ensures var s := d.SectorOf(d.vol.geo.Fat(l), SZDIRE * i); s < |l| && AllZero(l[s])
  {
    hide Fresh, Told, Geometry.Fat, ClusterAt, HopOf, Start, Geometry.Clst2Sect, AllZero, SecNo, IsRoot;
    RootPlaced(d, v, p, c, l);
    RootSizes(d, v, p, c, l);
    var g := d.vol.geo;
    var h, x := HopOf(g, SZDIRE * i), SZDIRE * i;
    RootChain(d, v, p, c, l, h);
    d.SectorInside(g.Fat(l), x);
    HopRange(g, x);
    if c.ty == FAT32 {
      ZeroStart(g);
      SecInCluster(g, x);
      RootZero(d, v, p, c, l, SecNo(x));
    } else {
      SecBelow(x, c.dir);
      RootZero(d, v, p, c, l, SecNo(x));
    }
  }

  lemma ZeroStart(g: Geometry)
    ensures Start(g, 0) == 0
  {
  }

  lemma SecBelow(x: nat, n: nat)
    requires x < SS * n
    ensures SecNo(x) < n
  {
  }

  /** The sectors of the root, on the logical disk. */
  lemma RootZero(d: Dir, v: seq<Sector>, p: Params, c: Config, l: seq<Sector>, r: nat)
    requires IsRoot(d, v, p, c, l) && r < if c.ty == FAT32 then c.pau else c.dir
    ensures var s := if c.ty == FAT32 then d.vol.geo.Clst2Sect(2) + r else d.dirbase + r; s < |l| && AllZero(l[s])
  {
    hide Told, Geometry.Fat, AllZero, Formatted, InfoLeft, Geometry.Clst2Sect;
    FreshGeometry(v, p, c);
    var g := d.vol.geo;
    if c.ty == FAT32 {
      Mount.SectorOfCluster(g, 2);
    }
    var s := if c.ty == FAT32 then g.Clst2Sect(2) + r else d.dirbase + r;
    assert s == p.bVol + c.rsv + c.fat * p.nFat + r;
    assert s < |v| && AllZero(v[s]);
    assert l[s] == v[s];
  }

  /** All entries of the root are clear. */
  lemma RootTable(d: Dir, v: seq<Sector>, p: Params, c: Config, l: seq<Sector>)
    requires IsRoot(d, v, p, c, l)
    ensures d.Placed() && d.vol.geo.volEnd <= |l| && |Table(d, l)| == Min(RootEntries(c), MAX_ENTRIES) > 0
    ensures forall i :: 0 <= i < |Table(d, l)| ==> Table(d, l)[i] == Registration.ClearEntry()
  {
    hide Fresh, Told, Geometry.Fat, IsRoot, Has, Slot, Table, Dir.Placed;
    RootPlaced(d, v, p, c, l);
    RootSizes(d, v, p, c, l);
    RootFits(d, v, p, c, l);
    var n := Min(RootEntries(c), MAX_ENTRIES);
    forall i | 0 <= i <= n ensures (Has(d, l, i) <==> i < n) && (i < n ==> Slot(d, l, i) == Registration.ClearEntry()) {
      RootHas(d, v, p, c, l, i);
      if i < n {
        RootSlot(d, v, p, c, l, i);
      }
    }
    TableUnique(d, l, seq(n, _ => Registration.ClearEntry()));
  }

  lemma RootFits(d: Dir, v: seq<Sector>, p: Params, c: Config, l: seq<Sector>)
    requires IsRoot(d, v, p, c, l)
    ensures d.vol.geo.volEnd <= |l| && RootEntries(c) > 0
  {
    hide Fresh, Told, Geometry.Fat;
    FreshGeometry(v, p, c);
  }

  lemma RootSlot(d: Dir, v: seq<Sector>, p: Params, c: Config, l: seq<Sector>, i: nat)
    requires IsRoot(d, v, p, c, l) && d.Placed() && d.vol.geo.volEnd <= |l| && Has(d, l, i)
    ensures Slot(d, l, i) == Registration.ClearEntry()
  {
    hide Fresh, Told, Geometry.Fat, IsRoot, Dir.SectorOf, Dir.Exists, SecOfs, Dir.Placed;
    RootSector(d, v, p, c, l, i);
    DivModUnique(SZDIRE * i, SZDIRE, i, 0);
    EntryStep(SZDIRE * i);
  }

  /** A table of clear entries is well formed, and no name leads anywhere in it. */
  lemma ClearTable(t: seq<Ent>, name: Name, m: Test)
    requires forall i :: 0 <= i < |t| ==> t[i] == Registration.ClearEntry()
    ensures Registration.WellFormed(t) && NoMatch(t, name, m)
  {
    hide Matches;
    assert forall k: nat :: k < |t| ==> t[k][0] == 0;
    forall k: nat ensures !Live(t, k) {
      assert k < |t| ==> t[0][0] == 0;
    }
  }

  /** Without a short name in the table there is a number to take. */
  lemma NoneTaken(t: seq<Ent>, u: seq<Ent>, name: Name, numbered: nat -> Sfn)
    requires (forall i :: 0 <= i < |t| ==> t[i] == Registration.ClearEntry()) && Registration.Grown(t, u)
    ensures !Registration.AllTaken(u, name, numbered)
  {
    hide NoMatch;
    forall i | 0 <= i < |u| ensures u[i] == Registration.ClearEntry() {
      assert i < |t| ==> u[i] == u[..|t|][i];
    }
    ClearTable(u, name.(sfn := numbered(1), loss := false), Never);
  }

  /** A table of `n` clear entries, or more, has room for `n`. */
  lemma HasRoom(t: seq<Ent>, u: seq<Ent>, n: nat)
    requires (forall i :: 0 <= i < |t| ==> t[i] == Registration.ClearEntry()) && Registration.Grown(t, u) && n <= |t| && n <= MAX_ENTRIES
    ensures !Registration.NoRoom(u, n)
  {
    assert Registration.AllFree(u, 0, n) by {
      forall i | 0 <= i < n ensures Unused(u[i]) {
        assert u[i] == u[..|t|][i];
      }
    }
  }

  /** The volume just mounted is in order. */
  lemma FreshOrder(v: Volume, dev: Device, p: Params, c: Config)
    requires Fresh(dev.sectors, p, c) && p.bVol < |dev.sectors| && MountedAs(v, dev, p.bVol) && dev.reliable
    ensures LaidOut(dev.sectors, p.bVol) && v.geo == Told(dev.sectors, p).g && InOrder(v.geo, StateOf(v)) && BootTells(v.geo, v.Logical(), v.fsiFlag)
  {
    hide Mount.MountVolume, Mount.CheckFs, Mount.Fields, Geometry.Fat, Formatted, RootCleared, Mount.LoadInfo, Volume.Logical;
    FreshLayout(dev.sectors, p, c);
    FreshGeometry(dev.sectors, p, c);
    MountedBoots(v, dev, p.bVol);
    FileState.FatSame(v.geo, dev.sectors, v.geo.Project(dev.sectors));
    UnknownCount(v, dev, p, c);
  }

  /** The information sector that formatting leaves tells nothing. */
  lemma UnknownCount(v: Volume, dev: Device, p: Params, c: Config)
    requires Fresh(dev.sectors, p, c) && p.bVol < |dev.sectors| && MountedAs(v, dev, p.bVol)
    ensures v.freeClst > v.geo.nFatent - 2
  {
    hide Mount.MountVolume, Mount.CheckFs, Mount.Fields, Geometry.Fat, RootCleared, Mount.LoadInfo, Volume.Logical, NewTable;
    FreshGeometry(dev.sectors, p, c);
    if v.fsiFlag == 0 {
      assert v.geo.Project(dev.sectors)[p.bVol + 1] == dev.sectors[p.bVol + 1];
    }
  }

  lemma FreshLayout(v: seq<Sector>, p: Params, c: Config)
    requires Fresh(v, p, c) && p.bVol < |v|
    ensures LaidOut(v, p.bVol)
  {
    hide Mount.MountVolume, Mount.CheckFs, Mount.Fields, Geometry.Fat, Formatted, RootCleared, Mount.LoadInfo;
    FreshGeometry(v, p, c);
  }

  /* ---- the whole way ---- */

  /** The root of the volume just mounted: sound, empty, and in order. */
  lemma FreshRoot(d: Dir, dev: Device, p: Params, c: Config)
    requires Fresh(dev.sectors, p, c) && p.bVol < |dev.sectors| && dev.reliable && d.vol.dev == dev && MountedAs(d.vol, dev, p.bVol)
    requires Told(dev.sectors, p).Volume? && d.dirbase == Told(dev.sectors, p).dirbase && d.rootSectors == Told(dev.sectors, p).rootSectors && d.sclust == 0
    ensures d.Sound() && WellKept(d) && InOrder(d.vol.geo, VolumeOf(d)) && BootTells(d.vol.geo, d.vol.Logical(), d.vol.fsiFlag)
    ensures |TableOf(d)| == Min(RootEntries(c), MAX_ENTRIES) > 0 && forall i :: 0 <= i < |TableOf(d)| ==> TableOf(d)[i] == Registration.ClearEntry()
  {
    hide Fresh, Told, Geometry.Fat, Volume.Logical, Table, Mount.MountVolume, Mount.Fields, Mount.CheckFs, Loopless, ChainUsed, BootTells, InOrder,
         FileDisk.InfoTells, Registration.WellFormed, NoMatch, Chains.NoBadEntry, RootEntries;
    FreshOrder(d.vol, dev, p, c);
    FreshGeometry(dev.sectors, p, c);
    assert IsRoot(d, dev.sectors, p, c, d.vol.Logical());
    RootTable(d, dev.sectors, p, c, d.vol.Logical());
    RootKept(d, dev.sectors, p, c, d.vol.Logical());
    ClearTable(TableOf(d), Name(seq(11, _ => 0x20), false, false, false, 0), Never);
  }

  /** f_mkfs, then mounting and f_open: the first file of a new volume. */
  method FirstFile(dev: Device, p: Params, vsn: dword, szBuf: nat, name: Name, numbered: nat -> Sfn, up: word -> word, buf: NameBuf, tm: dword,
                   ghost long: seq<word>)
    returns (settled: bool, res: FResult, fs: seq<Files.File>, ghost c: Config, ghost roots: seq<Dir>, ghost k: nat)
    requires p.Valid() && szBuf > 0 && dev.reliable && p.bVol + p.szVol <= |dev.sectors| < TWO32
    requires Registration.Proper(name.sfn) && (forall n :: Registration.Proper(numbered(n)))
    requires HoldsName(buf, long) && (name.lfn ==> Storable(long)) && (name.loss ==> name.lfn)
    modifies dev
    ensures |fs| <= 1 && (fs != [] <==> settled && res == OK)
    ensures settled ==> Consistent(p, c) && (!name.dot && DirRegister.Needed(name, long) <= Min(RootEntries(c), MAX_ENTRIES) ==> res == OK)
    ensures fs != [] ==> fresh(fs[0]) && fresh(fs[0].buf) && fresh(fs[0].fs) && fresh(fs[0].fs.win) && fs[0].fs.dev == dev && fs[0].canRead && fs[0].canWrite
    ensures fs != [] ==> Session.Usable(fs[0]) && Session.Bootable(fs[0])
    ensures fs != [] ==> Session.Abstract(fs[0]) == Session.Plain([], 0, FileState.Capacity(fs[0].fs.geo, fs[0].own))
    ensures fs != [] ==> fs[0].fs.geo.volbase == p.bVol && roots != [] && Named(fs[0], roots[0], name, Same(up, buf), k) && roots[0].sclust == 0
  {
    hide Fresh, Geometry.Fat, Volume.Logical, Table, Mount.MountVolume, Mount.Fields, Mount.CheckFs, Formatted, RootCleared, InfoLeft, Consistent,
         Session.Usable, Session.Abstract, Session.Bootable, MountedAs, LaidOut, Leads, TableApart, TableOf, Dir.Sound, InOrder, WellKept, BootTells,
         HoldsName, Storable, Registration.Proper, DirRegister.Needed, RootEntries, Registration.Grown, Registration.AllTaken, Registration.NoRoom, Full,
         NoMatch, VolumeOf, FreeOf;
    var r, ok := Format(dev, p, vsn, szBuf);
    settled, res, fs, roots, k := r.Settled?, DISK_ERR, [], [], 0;
    c := if settled then r.c else Config(FAT12, 0, 0, 0, 0, 0);
    if !settled {
      return;
    }
    NowFresh(dev.sectors, p, c);
    FreshLayout(dev.sectors, p, c);
    FreshGeometry(dev.sectors, p, c);
    var vs, m := MountAt(dev, p.bVol);
    var v := vs[0];
    var root := new Dir(v, m.dirbase, m.rootSectors, 0);
    roots := [root];
    MountedOn(v, dev, p.bVol);
    FreshRoot(root, dev, p, c);
    ghost var t, l, s0 := TableOf(root), VolumeOf(root).l, dev.sectors;
    RootBoot(root, s0, p.bVol);
    res, fs, k := CreateFile(root, name, numbered, up, buf, tm, long);
    if res == DENIED {
      NotDenied(t, TableOf(root), name, numbered, DirRegister.Needed(name, long));
    }
    ClearTable(t, name, Same(up, buf));
  }

  lemma NotDenied(t: seq<Ent>, u: seq<Ent>, name: Name, numbered: nat -> Sfn, n: nat)
    requires (forall i :: 0 <= i < |t| ==> t[i] == Registration.ClearEntry()) && Registration.Grown(t, u) && |t| <= MAX_ENTRIES
    ensures !Registration.AllTaken(u, name, numbered) && (n <= |t| ==> !Registration.NoRoom(u, n))
  {
    hide Registration.AllTaken, Registration.NoRoom, Registration.Grown;
    NoneTaken(t, u, name, numbered);
    if n <= |t| {
      HasRoom(t, u, n);
    }
  }

  lemma MountedOn(v: Volume, dev: Device, base: dword)
    requires base < |dev.sectors| && MountedAs(v, dev, base)
    ensures v.dev == dev && v.Valid() && v.geo == Mount.MountVolume(Mount.Fields(dev.sectors[base]), base).g
  {
  }

  /** The boot sector, on the logical disk. */
  lemma RootBoot(d: Dir, v: seq<Sector>, base: dword)
    requires base < |v| && d.vol.dev.sectors == v && d.Sound() && MountedAs(d.vol, d.vol.dev, base) && d.vol.geo.volbase == base
    ensures base < d.vol.geo.fatbase <= |VolumeOf(d).l| && VolumeOf(d).l[base] == v[base]
  {
    hide Mount.MountVolume, Mount.CheckFs, Mount.Fields, Geometry.Fat, FileDisk.InfoTells;
  }

  lemma NowFresh(v: seq<Sector>, p: Params, c: Config)
    requires Formatted(v, p, c) && RootCleared(v, p, c) && InfoLeft(v, p, c) && |v| < TWO32
    ensures Fresh(v, p, c) && Consistent(p, c)
  {
  }

  /**
    * From an empty device to a file read back: format it, mount it, create a file, do anything with it that ends with f_sync, forget
    * everything, and open it by its name from the device alone.  What is found is what the plain file came to.
    */
  method StoreAndRecall(dev: Device, p: Params, vsn: dword, szBuf: nat, name: Name, numbered: nat -> Sfn, up: word -> word, buf: NameBuf, tm: dword,
                        ops: seq<Session.Op>, ghost long: seq<word>)
    returns (settled: bool, res: FResult, answers: seq<Session.Answer>, ghost trace: seq<Session.Plain>, hs: seq<Files.File>, ghost c: Config)
    requires p.Valid() && szBuf > 0 && dev.reliable && p.bVol + p.szVol <= |dev.sectors| < TWO32
    requires Registration.Proper(name.sfn) && (forall n :: Registration.Proper(numbered(n)))
    requires HoldsName(buf, long) && (name.lfn ==> Storable(long)) && (name.loss ==> name.lfn)
    requires ops != [] && ops[|ops| - 1].SyncOp? && forall i :: 0 <= i < |ops| && ops[i].WriteOp? ==> |ops[i].data| < TWO32
    modifies dev
    ensures settled ==> Consistent(p, c) && (!name.dot && DirRegister.Needed(name, long) <= Min(RootEntries(c), MAX_ENTRIES) ==> res == OK)
    ensures |hs| <= 1 && (hs != [] <==> settled && res == OK)
    ensures hs != [] ==> Session.Runs(Session.Mode(true, true), trace, ops, answers) && trace[0] == Session.Plain([], 0, trace[0].room)
    ensures hs != [] ==> Session.Usable(hs[0]) && Session.Abstract(hs[0]) == trace[|ops|].(pos := 0)
  {
    hide Session.Usable, Session.Abstract, Session.Bootable, Session.Runs, Named, HoldsName, Storable, Registration.Proper, DirRegister.Needed, RootEntries,
         Consistent;
    var fs;
    ghost var roots, k;
    settled, res, fs, c, roots, k := FirstFile(dev, p, vsn, szBuf, name, numbered, up, buf, tm, long);
    answers, trace, hs := [], [], [];
    if fs == [] {
      return;
    }
    var f := fs[0];
    answers, trace := Session.Run(f, ops);
    var h := OpenByName(dev, p.bVol, 0, name, up, buf, true, true, false, f, roots[0], k);
    hs := [h];
  }
}
