/** Files by name: creating one, and finding it again after everything in memory is gone. */
module NamedFiles {
  import opened Bytes
  import opened FatTable
  import opened Entries
  import opened Layout
  import opened Devices
  import opened Volumes
  import opened LongNames
  import opened Directories
  import opened FileDisk
  import opened DirWalk
  import opened DirTables
  import Chains
  import FileState
  import Registration
  import DirRegister
  import Mount
  import opened Mounting
  import opened Files
  import opened Session

  /* ---- what a name leads to ---- */

  /** In the directory `d` of the disk `l` the name leads to entry `k` of the table, at byte `ofs` of sector `at`. */
  ghost predicate Leads(d: Dir, l: seq<Sector>, name: Name, m: Test, k: nat, at: nat, ofs: nat) {
    && d.Placed() && d.vol.geo.Valid() && d.vol.geo.volEnd <= |l| && Has(d, l, k)
    && Loopless(d, d.vol.geo.Fat(l)) && FirstMatch(Table(d, l), name, m, k)
    && d.SectorOf(d.vol.geo.Fat(l), SZDIRE * k) == at && SecOfs(SZDIRE * k) == ofs
  }

  /** The clusters of the table are not at the disposal of a file. */
  ghost predicate TableApart(d: Dir, fat: seq<nat>, own: set<nat>)
    requires |fat| == d.vol.geo.nFatent
  {
    forall i: nat :: ClusterAt(d.vol.geo, fat, d.First(), i) !in own || ClusterAt(d.vol.geo, fat, d.First(), i) == 0
  }

  /** The chain of the table is the same if the links of its clusters are. */
  lemma {:induction false} SameClusters(d: Dir, fat: seq<nat>, fat': seq<nat>, own: set<nat>, i: nat)
    requires |fat| == |fat'| == d.vol.geo.nFatent && TableApart(d, fat, own)
    requires forall c :: 0 <= c < |fat| && c !in own ==> fat'[c] == fat[c]
    ensures ClusterAt(d.vol.geo, fat', d.First(), i) == ClusterAt(d.vol.geo, fat, d.First(), i)
  {
    if i > 0 {
      SameClusters(d, fat, fat', own, i - 1);
    }
  }

  /** What a file operation leaves of a table: the chain, and all but the end of one entry. */
  lemma PlacesKept(d: Dir, l: seq<Sector>, l': seq<Sector>, own: set<nat>, at: nat, ofs: nat, i: nat)
    requires d.Placed() && Kept(d.vol.geo, own, at, ofs, l, l') && TableApart(d, d.vol.geo.Fat(l), own)
    ensures Has(d, l', i) <==> Has(d, l, i)
    ensures Has(d, l, i) ==> d.SectorOf(d.vol.geo.Fat(l'), SZDIRE * i) == d.SectorOf(d.vol.geo.Fat(l), SZDIRE * i)
  {
    hide Geometry.Fat, ClusterAt, Foreign, SameButEntry, Geometry.Clst2Sect, TableApart, SecNo, Start;
    d.Bounds();
    SameClusters(d, d.vol.geo.Fat(l), d.vol.geo.Fat(l'), own, HopOf(d.vol.geo, SZDIRE * i));
  }

  /** The sectors of a table do not belong to a file. */
  lemma TableForeign(d: Dir, l: seq<Sector>, own: set<nat>, at: nat, i: nat)
    requires d.Placed() && d.vol.geo.volEnd <= |l| && TableApart(d, d.vol.geo.Fat(l), own) && Has(d, l, i)
    ensures var s := d.SectorOf(d.vol.geo.Fat(l), SZDIRE * i);
            && s < d.vol.geo.volEnd && !FileState.OwnSector(d.vol.geo, own, s) && d.vol.geo.fatbase + d.vol.geo.fsize <= s && !d.vol.geo.InMirror(s)
            && (s == at || Foreign(d.vol.geo, own, at, s))
  {
    hide Geometry.Fat, ClusterAt, Geometry.Clst2Sect, SecNo, Start, HopOf, TableApart;
    var g, fat, h := d.vol.geo, d.vol.geo.Fat(l), HopOf(d.vol.geo, SZDIRE * i);
    d.Bounds();
    d.SectorInside(fat, SZDIRE * i);
    d.RootPlace(SZDIRE * i);
    if d.First() != 0 {
      var c := ClusterAt(g, fat, d.First(), h);
      assert c !in own by {
        NotOwned(d, fat, own, h);
      }
      d.ClusterSector(c);
      HopRange(g, SZDIRE * i);
      SecInCluster(g, SZDIRE * i - Start(g, h));
      InItsCluster(g, c, SecNo(SZDIRE * i - Start(g, h)));
    }
  }

  lemma NotOwned(d: Dir, fat: seq<nat>, own: set<nat>, i: nat)
    requires |fat| == d.vol.geo.nFatent && TableApart(d, fat, own) && ClusterAt(d.vol.geo, fat, d.First(), i) != 0
    ensures ClusterAt(d.vol.geo, fat, d.First(), i) !in own
  {
    hide ClusterAt;
  }

  lemma InItsCluster(g: Geometry, c: nat, r: nat)
    requires g.Valid() && g.ValidData() && g.IsCluster(c) && r < g.csize
    ensures g.ClusterOf(g.Clst2Sect(c) + r) == c && g.database <= g.Clst2Sect(c)
  {
    hide Geometry.Clst2Sect, Geometry.DataEnd;
    Mount.SectorOfCluster(g, c);
    DivModUnique(g.csize * (c - 2) + r, g.csize, c - 2, r);
  }

  /** An entry is the same up to its archive flag and what follows. */
  ghost predicate SameName(e: Ent, f: Ent) {
    f[..11] == e[..11] && SetArchive(f[11]) == SetArchive(e[11])
  }

  /** The archive flag does not matter to the kind of an entry. */
  lemma ArchiveBit(a: byte)
    ensures SetArchive(a) % 0x40 / AM_VOL % 2 == a % 0x40 / AM_VOL % 2
  {
    var q, r := a / 0x40, a % 0x40;
    DivModUnique(a, 0x40, q, r);
    if a / 0x20 % 2 == 0 {
      DivModUnique(a, 0x20, 2 * q, r);
      DivModUnique(a + 0x20, 0x40, q, r + 0x20);
      var u, v := r / 8, r % 8;
      DivModUnique(r + 0x20, 8, u + 4, v);
      DivModUnique(u + 4, 2, u / 2 + 2, u % 2);
    }
  }

  lemma SameKind(e: Ent, f: Ent)
    requires SameName(e, f)
    ensures SfnOf(f) == SfnOf(e) && f[0] == e[0] && (IsSfn(f) <==> IsSfn(e))
  {
    hide SetArchive;
    ArchiveBit(e[11]);
    ArchiveBit(f[11]);
    assert f[0] == f[..11][0] && e[0] == e[..11][0];
  }

  /** What a file operation leaves of the entries of a table. */
  lemma SlotsKept(d: Dir, l: seq<Sector>, l': seq<Sector>, own: set<nat>, at: nat, ofs: nat, k: nat, i: nat)
    requires d.Placed() && Kept(d.vol.geo, own, at, ofs, l, l') && TableApart(d, d.vol.geo.Fat(l), own) && Loopless(d, d.vol.geo.Fat(l))
    requires Has(d, l, i) && Has(d, l, k) && d.SectorOf(d.vol.geo.Fat(l), SZDIRE * k) == at && SecOfs(SZDIRE * k) == ofs
    ensures Has(d, l', i) && if i == k then SameName(Slot(d, l, i), Slot(d, l', i)) else Slot(d, l', i) == Slot(d, l, i)
  {
    hide Dir.Placed, Geometry.Fat, Dir.SectorOf, Loopless, SecOfs, Dir.Exists, TableApart, Foreign, Geometry.Valid;
    var g, x, y := d.vol.geo, SZDIRE * i, SZDIRE * k;
    DivModUnique(x, SZDIRE, i, 0);
    DivModUnique(y, SZDIRE, k, 0);
    EntryStep(x);
    EntryStep(y);
    PlacesKept(d, l, l', own, at, ofs, i);
    TableForeign(d, l, own, at, i);
    var s, a := d.SectorOf(g.Fat(l), x), SecOfs(x);
    if i != k {
      DirRegister.SlotsApart(d, g.Fat(l), i, k);
      DirRegister.OfsApart(i, k);
    }
    if s == at {
      EntryLeft(l[s], l'[s], ofs, a);
    }
  }

  /** The bytes of an entry in the sector of the file's own. */
  lemma EntryLeft(s: Sector, t: Sector, ofs: nat, a: nat)
    requires SameButEntry(s, t, ofs) && a + SZDIRE <= SS && (a == ofs || a + SZDIRE <= ofs || ofs + SZDIRE <= a)
    ensures a == ofs ==> SameName(s[a..a + SZDIRE], t[a..a + SZDIRE])
    ensures a != ofs ==> t[a..a + SZDIRE] == s[a..a + SZDIRE]
  {
    hide SetArchive;
    var e, f := s[a..a + SZDIRE], t[a..a + SZDIRE];
    if a == ofs {
      assert f[11] == t[ofs + 11] && e[11] == s[ofs + 11];
      assert f[..11] == e[..11];
    }
  }

  /** The table with one entry changed behind its name leads as before. */
  lemma FirstMatchKept(t: seq<Ent>, u: seq<Ent>, name: Name, m: Test, k: nat)
    requires FirstMatch(t, name, m, k) && |u| == |t| && SfnOf(u[k]) == SfnOf(t[k]) && u[k][0] == t[k][0] && IsSfn(u[k])
    requires forall i :: 0 <= i < |t| && i != k ==> u[i] == t[i]
    ensures FirstMatch(u, name, m, k)
  {
    hide IsSfn, HasLong, Matches;
    forall i | 0 <= i < k ensures !Matches(u, name, m, i) {
      Registration.SameUpTo(t, u, name, m, i);
    }
    LongAsBefore(t, u, m, k);
    MatchIs(t, name, m, k);
    MatchIs(u, name, m, k);
  }

  lemma MatchIs(t: seq<Ent>, name: Name, m: Test, k: nat)
    requires k < |t|
    ensures Matches(t, name, m, k) <==> IsSfn(t[k]) && (HasLong(t, m, 0, k) || (!name.loss && SfnOf(t[k]) == name.sfn))
  {
    hide HasLong, IsSfn;
  }

  lemma LongAsBefore(t: seq<Ent>, u: seq<Ent>, m: Test, k: nat)
    requires k < |t| == |u| && SfnOf(u[k]) == SfnOf(t[k]) && forall i :: 0 <= i < k ==> u[i] == t[i]
    ensures HasLong(t, m, 0, k) ==> HasLong(u, m, 0, k)
  {
    hide Good, IsLfn, IsLast, Order, SumOf;
    if HasLong(t, m, 0, k) {
      var b: nat :| LongAt(t, m, b, k);
      forall i | b <= i < k ensures InRun(u, m, b, i) {
        assert InRun(t, m, b, i);
      }
      assert LongAt(u, m, b, k);
    }
  }

  lemma FirstIsSfn(t: seq<Ent>, name: Name, m: Test, k: nat)
    requires FirstMatch(t, name, m, k)
    ensures k < |t| && IsSfn(t[k])
  {
  }

  /** After any file operation the name still leads to the entry of the file. */
  lemma LeadsKept(d: Dir, l: seq<Sector>, l': seq<Sector>, own: set<nat>, name: Name, m: Test, k: nat, at: nat, ofs: nat)
    requires Leads(d, l, name, m, k, at, ofs) && Kept(d.vol.geo, own, at, ofs, l, l') && TableApart(d, d.vol.geo.Fat(l), own)
    ensures Leads(d, l', name, m, k, at, ofs)
  {
    hide Dir.Placed, Geometry.Fat, Dir.SectorOf, SecOfs, Dir.Exists, TableApart, Foreign, Geometry.Valid, FirstMatch, Has, Slot, Table, SameName, Loopless,
         SameButEntry;
    var t := Table(d, l);
    Prefix(d, l, k);
    var n := |t|;
    var u := seq(n, i requires 0 <= i < n => if Has(d, l', i) then Slot(d, l', i) else t[i]);
    forall i | 0 <= i <= n ensures (Has(d, l', i) <==> Has(d, l, i)) && (i < n ==> Has(d, l', i)) {
      PlacesKept(d, l, l', own, at, ofs, i);
    }
    TableUnique(d, l', u);
    forall i | 0 <= i < n ensures if i == k then SameName(t[i], u[i]) else u[i] == t[i] {
      SlotsKept(d, l, l', own, at, ofs, k, i);
    }
    FirstIsSfn(t, name, m, k);
    SameKind(t[k], u[k]);
    FirstMatchKept(t, u, name, m, k);
    PlacesKept(d, l, l', own, at, ofs, k);
    StillLoopless(d, d.vol.geo.Fat(l), d.vol.geo.Fat(l'), own);
  }

  lemma StillLoopless(d: Dir, fat: seq<nat>, fat': seq<nat>, own: set<nat>)
    requires |fat| == |fat'| == d.vol.geo.nFatent && TableApart(d, fat, own) && Loopless(d, fat)
    requires forall c :: 0 <= c < |fat| && c !in own ==> fat'[c] == fat[c]
    ensures Loopless(d, fat')
  {
    hide ClusterAt, TableApart, Start;
    forall i: nat ensures ClusterAt(d.vol.geo, fat', d.First(), i) == ClusterAt(d.vol.geo, fat, d.First(), i) {
      SameClusters(d, fat, fat', own, i);
    }
  }

  /* ---- creating a file ---- */

  /** The sector after f_open has reset the entry at `o`: time, attributes, start cluster and size. */
  function ResetOf(ty: FatType, s: seq<byte>, o: nat, tm: dword): (r: seq<byte>)
    requires o + SZDIRE <= |s|
    ensures |r| == |s|
  {
    var s1 := PutDword(PutDword(s, o + 14, tm), o + 22, tm)[o + 11 := 0x20];
    PutDword(PutStart(ty, s1, o, 0), o + 28, 0)
  }

  /** A reset entry is that of an empty file; its name and the other entries are untouched. */
  lemma ResetFields(ty: FatType, s: Sector, o: nat, tm: dword)
    requires o + SZDIRE <= SS
    ensures var r := ResetOf(ty, s, o, tm);
            && StartOf(ty, r, o) == 0 && SizeOf(r, o) == 0 && r[o + 11] == 0x20
            && (forall k :: 0 <= k < SS && !(o + 11 <= k < o + SZDIRE) ==> r[k] == s[k])
  {
    hide ByteOf, LdWord, LdDword;
    ResetBytes(ty, s, o, tm);
    ZeroBytes();
  }

  lemma ResetBytes(ty: FatType, s: Sector, o: nat, tm: dword)
    requires o + SZDIRE <= SS
    ensures var r := ResetOf(ty, s, o, tm);
            && r[o + 26] == 0 && r[o + 27] == 0 && (ty == FAT32 ==> r[o + 20] == 0 && r[o + 21] == 0) && r[o + 11] == 0x20
            && r[o + 28] == ByteOf(0, 0) && r[o + 29] == ByteOf(0, 1) && r[o + 30] == ByteOf(0, 2) && r[o + 31] == ByteOf(0, 3)
            && (forall k :: 0 <= k < SS && !(o + 11 <= k < o + SZDIRE) ==> r[k] == s[k])
  {
    hide ByteOf;
  }

  lemma ZeroBytes()
    ensures ByteOf(0, 0) == 0 && ByteOf(0, 1) == 0 && ByteOf(0, 2) == 0 && ByteOf(0, 3) == 0 && LdWord(0, 0) == 0 && LdDword(0, 0, 0, 0) == 0
  {
  }

  method FillReset(win: array<byte>, ty: FatType, o: nat, tm: dword) returns (cl: dword)
    requires win.Length == SS && o + SZDIRE <= SS
    modifies win
    ensures win[..] == ResetOf(ty, old(win[..]), o, tm) && cl == StartOf(ty, old(win[..]), o)
  {
    hide ByteOf, LdWord;
    StoreDword(win, o + 14, tm);
    StoreDword(win, o + 22, tm);
    cl := StartOf(ty, win[..], o);
    win[o + 11] := 0x20;
    StoreWord(win, o + 26, 0);
    if ty == FAT32 {
      StoreWord(win, o + 20, 0);
    }
    StoreDword(win, o + 28, 0);
  }

  /** The part of f_open that resets the entry under the window; the start cluster it had is returned. */
  method ResetEntry(d: Dir, tm: dword, ghost k: nat) returns (cl: dword)
    requires d.Sound() && On(d, k) && Shown(d)
    modifies d.vol`wflag, d.vol.win
    ensures d.Sound() && On(d, k) && Shown(d) && d.Fat() == old(d.Fat()) && k < |TableOf(d)| == old(|TableOf(d)|)
    ensures SecOfs(d.dptr) + SZDIRE <= SS && cl == StartOf(d.vol.geo.ty, old(d.vol.win[..]), SecOfs(d.dptr))
    ensures StartOf(d.vol.geo.ty, d.vol.Logical()[d.sect], SecOfs(d.dptr)) == 0 && SizeOf(d.vol.Logical()[d.sect], SecOfs(d.dptr)) == 0
    ensures TableOf(d)[k][..11] == old(TableOf(d)[k])[..11] && TableOf(d)[k][11] == 0x20
    ensures Loopless(d, d.Fat()) ==> TableOf(d) == old(TableOf(d))[k := TableOf(d)[k]]
    ensures Kindly(d, old(VolumeOf(d)), VolumeOf(d))
  {
    hide Volume.Logical, Dir.At, Table, Geometry.Fat, SecOfs, Loopless, Dir.Placed, Kindly, ResetOf, StartOf, SizeOf;
    ghost var l, v := d.vol.Logical(), d.vol.win[..];
    DirRegister.Ready(d, k);
    StandsAt(d, k);
    ghost var o := SecOfs(d.dptr);
    cl := FillReset(d.vol.win, d.vol.geo.ty, SecOfs(d.dptr), tm);
    d.vol.wflag := true;
    d.vol.Edited();
    ResetFields(d.vol.geo.ty, v, o, tm);
    ghost var w := d.vol.win[..];
    ghost var e := w[o..o + SZDIRE];
    assert DirRegister.Put(v, w, o, e);
    assert e[..11] == v[o..o + SZDIRE][..11] && e[11] == 0x20;
    DirRegister.Changed(d, k, l, e);
  }

  /** A volume in order, on a device without faults. */
  ghost predicate InOrder(g: Geometry, x: VolState) {
    && g.Valid() && g.ValidData() && g.volEnd <= |x.l|
    && Chains.FreeKnown(Chains.Alloc(g.Fat(x.l), x.last, x.free)) && Chains.NoBadEntry(g.Fat(x.l))
    && InfoTells(g, x.l, x.free, x.flag) && InfoSafe(g, x.flag) && (x.flag <= 1 || x.flag >= 0x80)
  }

  lemma Ordered(v: Volume)
    requires v.Valid() && InOrder(v.geo, StateOf(v))
    ensures v.geo.Valid() && v.geo.ValidData() && Chains.FreeKnown(v.AllocState()) && Chains.NoBadEntry(v.AllocState().fat)
    ensures InfoTells(v.geo, v.Logical(), v.freeClst, v.fsiFlag) && InfoSafe(v.geo, v.fsiFlag) && (v.fsiFlag <= 1 || v.fsiFlag >= 0x80)
  {
    hide Geometry.Fat, Volume.Logical;
  }

  /** Directory operations keep it. */
  lemma OrderKept(d: Dir, x: VolState, y: VolState)
    requires InOrder(d.vol.geo, x) && Kindly(d, x, y)
    ensures InOrder(d.vol.geo, y)
    ensures BootTells(d.vol.geo, x.l, x.flag) ==> BootTells(d.vol.geo, y.l, y.flag)
  {
    hide Geometry.Fat, Chains.FreeKnown, Chains.NoBadEntry, Mount.LoadInfo, ChainUsed, Mount.Fields, Mount.MountVolume, Mount.CheckFs;
    assert y.flag == 0 && d.vol.geo.ty == FAT32 ==> y.l[d.vol.geo.volbase + 1] == x.l[d.vol.geo.volbase + 1];
  }

  /** The free clusters. */
  ghost function FreeOf(fat: seq<nat>): set<nat> {
    set c: nat | 2 <= c < |fat| && fat[c] == 0
  }

  lemma UsedApart(d: Dir, fat: seq<nat>)
    requires |fat| == d.vol.geo.nFatent && ChainUsed(d, fat)
    ensures TableApart(d, fat, FreeOf(fat)) && FileState.Owns(FreeOf(fat), fat, [])
  {
    hide ClusterAt;
  }

  /** A directory that is well kept: no loop, end marks at the end, different short names, and all its clusters in use. */
  ghost predicate WellKept(d: Dir)
    requires d.Sound()
    reads d.vol`winsect, d.vol`wflag, d.vol.win, d.vol.dev
  {
    DirRegister.Tidy(d) && ChainUsed(d, d.Fat())
  }

  /** f_open with FA_CREATE_NEW for reading and writing: an empty file that the name leads to; `[]` if there is none. */
  method CreateFile(d: Dir, name: Name, numbered: nat -> Sfn, up: word -> word, buf: NameBuf, tm: dword, ghost long: seq<word>)
    returns (res: FResult, fs: seq<File>, ghost k: nat)
    requires d.Sound() && d.vol.dev.reliable && WellKept(d) && InOrder(d.vol.geo, VolumeOf(d)) && TableOf(d) != []
    requires Registration.Proper(name.sfn) && (forall n :: Registration.Proper(numbered(n)))
    requires HoldsName(buf, long) && (name.lfn ==> Storable(long)) && (name.loss ==> name.lfn)
    modifies d, d.vol, d.vol.win, d.vol.dev
    ensures |fs| <= 1 && (fs != [] ==> res == OK)
    ensures res == OK || res == DENIED || res == INVALID_NAME
    ensures res == INVALID_NAME ==> name.dot
    ensures res == DENIED ==> d.Sound() && Registration.Grown(old(TableOf(d)), TableOf(d))
    ensures res == DENIED ==> (name.loss && Registration.AllTaken(TableOf(d), name, numbered)) ||
                              (Registration.NoRoom(TableOf(d), DirRegister.Needed(name, long)) && Full(d))
    ensures res == OK && fs == [] ==> !NoMatch(old(TableOf(d)), name, Same(up, buf))
    ensures fs != [] ==> fresh(fs[0]) && fresh(fs[0].buf) && fs[0].fs == d.vol && fs[0].canRead && fs[0].canWrite && Usable(fs[0])
    ensures fs != [] ==> Abstract(fs[0]) == Plain([], 0, FileState.Capacity(d.vol.geo, fs[0].own))
    ensures fs != [] ==> Leads(d, fs[0].base, name, Same(up, buf), k, fs[0].dirSect, fs[0].dirOfs)
    ensures fs != [] ==> fs[0].own == FreeOf(d.vol.geo.Fat(fs[0].base)) && TableApart(d, d.vol.geo.Fat(fs[0].base), fs[0].own)
    ensures fs != [] && old(BootTells(d.vol.geo, d.vol.Logical(), d.vol.fsiFlag)) ==> Bootable(fs[0])
    ensures fs != [] ==> BeforeFat(d.vol.geo, old(VolumeOf(d)).l, fs[0].base)
  {
    hide Dir.Sound, TableOf, On, Shown, Volume.Logical, Dir.Fat, Loopless, NoMatch, FirstMatch, HoldsName, Storable, WellKept, InOrder, Kindly,
         ChainUsed, Leads, TableApart, BootTells, Abstract, Usable, FreeOf;
    hide Registration.AllTaken, Registration.NoRoom, Full, DirRegister.Needed, Registration.Grown, Healthy;
    ghost var x, t := VolumeOf(d), TableOf(d);
    KeptWell(d);
    var existed, i;
    res, existed, i := DirRegister.Create(d, name, numbered, up, buf, long);
    k := i;
    fs := [];
    if res != OK {
      return;
    }
    if existed {
      SameTable(d);
      Registration.FirstIsMatch(t, name, Same(up, buf), k);
      return;
    }
    OrderKept(d, x, VolumeOf(d));
    StillUsed(d);
    NewEntry(d, k, name.nt);
    KindlyBefore(d, x, VolumeOf(d));
    var f := OpenNew(d, tm, k, name, Same(up, buf));
    fs := [f];
  }

  twostate lemma StillUsed(d: Dir)
    requires old(d.Sound()) && d.Sound() && Kindly(d, old(VolumeOf(d)), VolumeOf(d)) && old(ChainUsed(d, d.Fat()))
    ensures ChainUsed(d, d.Fat())
  {
    hide ChainUsed, Tame, Geometry.Fat, Volume.Logical;
  }

  /** A new entry has no clusters. */
  lemma NewEntry(d: Dir, k: nat, nt: byte)
    requires d.Sound() && On(d, k) && k < |TableOf(d)| && TableOf(d)[k] == Registration.SfnEntry(SfnOf(TableOf(d)[k]), nt)
    ensures d.sect < |d.vol.Logical()| && SecOfs(d.dptr) + SZDIRE <= SS && StartOf(d.vol.geo.ty, d.vol.Logical()[d.sect], SecOfs(d.dptr)) == 0
  {
    hide Volume.Logical, Dir.At, Table, Geometry.Fat, SecOfs;
    StandsAt(d, k);
    var s, o, e := d.vol.Logical()[d.sect], SecOfs(d.dptr), TableOf(d)[k];
    assert s[o + 26] == e[26] && s[o + 27] == e[27] && s[o + 20] == e[20] && s[o + 21] == e[21];
  }

  lemma KeptWell(d: Dir)
    requires d.Sound() && WellKept(d) && TableOf(d) != [] && InOrder(d.vol.geo, VolumeOf(d))
    ensures DirRegister.Tidy(d) && Loopless(d, d.Fat()) && ChainUsed(d, d.Fat()) && Healthy(d)
  {
    hide Loopless, ChainUsed, Table, Volume.Logical, Geometry.Fat;
  }

  /** The entry under the window is that of an empty file. */
  lemma EmptyFile(d: Dir, k: nat)
    requires d.Sound() && On(d, k) && Shown(d) && ChainUsed(d, d.Fat()) && SecOfs(d.dptr) + SZDIRE <= SS
    requires StartOf(d.vol.geo.ty, d.vol.Logical()[d.sect], SecOfs(d.dptr)) == 0 && SizeOf(d.vol.Logical()[d.sect], SecOfs(d.dptr)) == 0
    ensures TableApart(d, d.Fat(), FreeOf(d.Fat())) && FileState.Owns(FreeOf(d.Fat()), d.Fat(), [])
    ensures EntryPlaced(d.vol.geo, FreeOf(d.Fat()), d.vol.winsect, SecOfs(d.dptr))
    ensures DiskFile(d.vol.geo, d.vol.Logical(), d.vol.winsect, SecOfs(d.dptr), [], [])
  {
    hide Volume.Logical, Dir.At, Geometry.Fat, SecOfs, ChainUsed, FreeOf, TableApart, FileState.OwnSector, Foreign, StartOf, SizeOf, Dir.SectorOf, Dir.Exists,
         Chains.NoBadEntry;
    UsedApart(d, d.Fat());
    d.Here(SZDIRE * k);
    d.OnDevice();
    TableForeign(d, d.vol.Logical(), FreeOf(d.Fat()), d.vol.winsect, k);
  }

  /** The end of f_open for a new entry `k`: it is reset, and the file object is made. */
  method OpenNew(d: Dir, tm: dword, ghost k: nat, ghost name: Name, ghost m: Test) returns (f: File)
    requires d.Sound() && d.vol.dev.reliable && Loopless(d, d.Fat()) && ChainUsed(d, d.Fat()) && InOrder(d.vol.geo, VolumeOf(d))
    requires On(d, k) && Shown(d) && FirstMatch(TableOf(d), name, m, k)
    requires SecOfs(d.dptr) + SZDIRE <= SS && StartOf(d.vol.geo.ty, d.vol.Logical()[d.sect], SecOfs(d.dptr)) == 0
    modifies d.vol, d.vol.win, d.vol.dev
    ensures fresh(f) && fresh(f.buf) && f.fs == d.vol && f.canRead && f.canWrite && Usable(f)
    ensures Abstract(f) == Plain([], 0, FileState.Capacity(d.vol.geo, f.own))
    ensures d.vol.geo.Valid() && d.vol.geo.volEnd <= |f.base| && f.own == FreeOf(d.vol.geo.Fat(f.base)) && TableApart(d, d.vol.geo.Fat(f.base), f.own)
    ensures Leads(d, f.base, name, m, k, f.dirSect, f.dirOfs)
    ensures old(BootTells(d.vol.geo, d.vol.Logical(), d.vol.fsiFlag)) ==> Bootable(f)
    ensures BeforeFat(d.vol.geo, old(VolumeOf(d)).l, f.base)
  {
    hide Volume.Logical, Dir.At, Table, Geometry.Fat, SecOfs, Loopless, Dir.Placed, Kindly, StartOf, SizeOf, FirstMatch, ChainUsed, InOrder, InfoTells, BootTells;
    ghost var x, t := VolumeOf(d), TableOf(d);
    var cl := ResetEntry(d, tm, k);
    assert cl == 0;
    OrderKept(d, x, VolumeOf(d));
    Ordered(d.vol);
    EmptyFile(d, k);
    NowLeads(d, t, k, name, m);
    ghost var y := VolumeOf(d);
    f := new File.Open(d.vol, true, true, false, true, SecOfs(d.dptr), FreeOf(d.Fat()), [], []);
    NowBootable(f, y.flag);
    KindlyBefore(d, x, y);
  }

  /** The sectors before the FAT are the same. */
  ghost predicate BeforeFat(g: Geometry, l: seq<Sector>, l': seq<Sector>) {
    g.fatbase <= |l| == |l'| && forall s :: 0 <= s < g.fatbase ==> l'[s] == l[s]
  }

  lemma KindlyBefore(d: Dir, x: VolState, y: VolState)
    requires Kindly(d, x, y)
    ensures BeforeFat(d.vol.geo, x.l, y.l)
  {
  }

  lemma NowBootable(f: File, flag: byte)
    requires Usable(f) && (flag <= 1 <==> f.informed)
    ensures BootTells(f.fs.geo, f.base, flag) ==> Bootable(f)
  {
    hide Usable, BootTells, Kept;
    SinceOpened(f);
    StillBootable(f, f.base, flag);
  }

  /** The name leads to the entry, reset or not. */
  lemma NowLeads(d: Dir, t: seq<Ent>, k: nat, name: Name, m: Test)
    requires d.Sound() && On(d, k) && Loopless(d, d.Fat()) && k < |t| == |TableOf(d)| && TableOf(d) == t[k := TableOf(d)[k]] && FirstMatch(t, name, m, k)
    requires TableOf(d)[k][..11] == t[k][..11] && TableOf(d)[k][11] == 0x20
    ensures Leads(d, d.vol.Logical(), name, m, k, d.sect, SecOfs(d.dptr))
  {
    hide Volume.Logical, Dir.At, Table, Geometry.Fat, SecOfs, Loopless, FirstMatch, Dir.SectorOf, Dir.Exists, Attr, Unused;
    d.Here(SZDIRE * k);
    d.OnDevice();
    FirstIsSfn(t, name, m, k);
    ResetKind(t[k], TableOf(d)[k]);
    FirstMatchKept(t, TableOf(d), name, m, k);
  }

  lemma ResetKind(e: Ent, f: Ent)
    requires IsSfn(e) && f[..11] == e[..11] && f[11] == 0x20
    ensures SfnOf(f) == SfnOf(e) && f[0] == e[0] && IsSfn(f)
  {
    assert f[0] == f[..11][0] && e[0] == e[..11][0];
  }

  /* ---- finding a file again ---- */

  /** The same directory, through another object. */
  ghost predicate SameDir(d: Dir, e: Dir) {
    e.vol.geo == d.vol.geo && e.dirbase == d.dirbase && e.rootSectors == d.rootSectors && e.sclust == d.sclust
  }

  lemma SameSlot(d: Dir, e: Dir, l: seq<Sector>, i: nat)
    requires SameDir(d, e) && d.Placed() && d.vol.geo.volEnd <= |l|
    ensures e.Placed() && (Has(e, l, i) <==> Has(d, l, i))
    ensures Has(d, l, i) ==> Slot(e, l, i) == Slot(d, l, i) && e.SectorOf(d.vol.geo.Fat(l), SZDIRE * i) == d.SectorOf(d.vol.geo.Fat(l), SZDIRE * i)
  {
    hide Geometry.Fat, ClusterAt, HopOf, Start, SecNo, SecOfs, Geometry.Clst2Sect;
    d.Bounds();
    DivModUnique(SZDIRE * i, SZDIRE, i, 0);
  }

  lemma SameLoops(d: Dir, e: Dir, fat: seq<nat>)
    requires SameDir(d, e) && |fat| == d.vol.geo.nFatent && Loopless(d, fat)
    ensures Loopless(e, fat)
  {
    hide ClusterAt, Start;
    var g, c := d.vol.geo, d.First();
    assert e.First() == c;
    forall i: nat, j: nat | i < j && Start(g, j) < MAX_DIR && ClusterAt(g, fat, c, j) != 0 ensures ClusterAt(g, fat, c, i) != ClusterAt(g, fat, c, j) {
    }
  }

  lemma SameLeads(d: Dir, e: Dir, l: seq<Sector>, name: Name, m: Test, k: nat, at: nat, ofs: nat)
    requires SameDir(d, e) && Leads(d, l, name, m, k, at, ofs)
    ensures Leads(e, l, name, m, k, at, ofs)
  {
    hide Dir.Placed, Geometry.Fat, Dir.SectorOf, SecOfs, Dir.Exists, Geometry.Valid, FirstMatch, Has, Slot, Table, Loopless;
    var t := Table(d, l);
    SameSlot(d, e, l, k);
    SameLoops(d, e, d.vol.geo.Fat(l));
    forall i | 0 <= i <= |t| ensures (Has(e, l, i) <==> Has(d, l, i)) && (Has(d, l, i) ==> Slot(e, l, i) == Slot(d, l, i)) {
      SameSlot(d, e, l, i);
    }
    TableUnique(e, l, t);
  }

  /** There is one first match. */
  lemma OneFirst(t: seq<Ent>, name: Name, m: Test, k: nat, j: nat)
    requires FirstMatch(t, name, m, k) && FirstMatch(t, name, m, j)
    ensures k == j
  {
    hide Matches;
  }

  /** The name leads to the file on the disk as it is. */
  ghost predicate Named(f: File, d: Dir, name: Name, m: Test, k: nat) {
    && d.vol.geo == f.fs.geo && Leads(d, f.base, name, m, k, f.dirSect, f.dirOfs) && TableApart(d, d.vol.geo.Fat(f.base), f.own)
    && f.fs.geo.volbase < |f.base| && f.fs.geo.volbase < TWO32
    && var r := Mount.MountVolume(Mount.Fields(f.base[f.fs.geo.volbase]), f.fs.geo.volbase);
       r.Volume? && d.dirbase == r.dirbase && d.rootSectors == r.rootSectors
  }

  /** What the device alone tells of a synced file and its name. */
  lemma NameOnDevice(f: File, d: Dir, name: Name, m: Test, k: nat)
    requires Usable(f) && f.Synced() && Named(f, d, name, m, k)
    ensures f.fs.geo.Valid() && f.fs.geo.volEnd <= |f.fs.dev.sectors| && Leads(d, f.fs.geo.Project(f.fs.dev.sectors), name, m, k, f.dirSect, f.dirOfs)
    ensures f.fs.geo.volbase < |f.fs.dev.sectors| && f.fs.dev.sectors[f.fs.geo.volbase] == f.base[f.fs.geo.volbase]
  {
    hide Kept, Leads, TableApart, Volume.Logical, File.Synced, Usable, Geometry.Project, EntryPlaced, Mount.MountVolume, Mount.Fields, Abstract;
    SinceOpened(f);
    Remounted(f);
    LeadsKept(d, f.base, f.fs.Logical(), f.own, name, m, k, f.dirSect, f.dirOfs);
    BootKept(f.fs.geo, f.own, f.dirSect, f.dirOfs, f.base, f.fs.Logical());
    BootProjects(f.fs.geo, f.fs.dev.sectors);
  }

  /**
    * After f_sync all memory may be lost: from the device, the start of the volume, the directory's first cluster (0 for the root)
    * and the name, mounting, finding and opening give the same file and the same room.
    */
  method OpenByName(dev: Device, start: dword, sclust: dword, name: Name, up: word -> word, buf: NameBuf,
                    canRead: bool, canWrite: bool, append: bool, ghost f: File, ghost d: Dir, ghost k: nat)
    returns (h: File)
    requires Usable(f) && f.Synced() && Bootable(f) && Named(f, d, name, Same(up, buf), k)
    requires dev == f.fs.dev && start == f.fs.geo.volbase && d.sclust == sclust
    modifies dev
    ensures Usable(h) && fresh(h) && fresh(h.fs) && h.canRead == canRead && h.canWrite == canWrite
    ensures Abstract(h) == old(Abstract(f)).(pos := if append then |old(f.Contents())| else 0)
  {
    hide Volume.Logical, Geometry.Fat, Geometry.Valid, Geometry.ValidData, FileState.OwnSector, Chains.FreeKnown, Chains.NoBadEntry, FileState.Owns, DiskFile;
    hide FileState.Content, FileState.Placed, FileState.Core, File.Room, Geometry.InMirror, Kept, InfoTells, MountedAs, LaidOut, BootTells, Recorded, Booted;
    hide Leads, TableApart, On, Shown, Dir.At, FirstMatch, Table, Mount.MountVolume, Mount.Fields, Mount.CheckFs, Geometry.Project;
    ghost var c, g, free, flag, s0 := f.Contents(), f.fs.geo, f.fs.freeClst, f.fs.fsiFlag, f.fs.dev.sectors;
    Remounted(f);
    LeavesRecord(f);
    NameOnDevice(f, d, name, Same(up, buf), k);
    var vs, r := MountAt(dev, start);
    var v := vs[0];
    NewVolume(v, dev, g, free, flag);
    var e := new Dir(v, r.dirbase, r.rootSectors, sclust);
    SameLeads(d, e, v.Logical(), name, Same(up, buf), k, f.dirSect, f.dirOfs);
    LeadsPlaced(e, v.Logical(), name, Same(up, buf), k, f.dirSect, f.dirOfs);
    var res, j := FindLed(e, name, up, buf, k, f.dirSect, f.dirOfs);
    h := new File.Open(v, canRead, canWrite, append, false, SecOfs(e.dptr), f.own, f.chain, c);
    assert h.Room() == f.Room() by {
      SameRoom(f, h);
    }
  }

  lemma LeadsPlaced(d: Dir, l: seq<Sector>, name: Name, m: Test, k: nat, at: nat, ofs: nat)
    requires Leads(d, l, name, m, k, at, ofs)
    ensures d.Placed()
  {
  }

  /** dir_find of a name that leads somewhere stands at that entry, with its sector in the window. */
  method FindLed(d: Dir, name: Name, up: word -> word, buf: NameBuf, ghost k: nat, ghost at: nat, ghost ofs: nat) returns (res: FResult, j: nat)
    requires d.Sound() && d.vol.dev.reliable && Leads(d, d.vol.Logical(), name, Same(up, buf), k, at, ofs)
    modifies d, d.vol, d.vol.win, d.vol.dev
    ensures d.Sound() && d.vol.Logical() == old(d.vol.Logical()) && Untouched(d.vol)
    ensures res == OK && j == k && d.vol.winsect == d.sect == at && SecOfs(d.dptr) == ofs
  {
    hide Volume.Logical, Dir.At, Table, Geometry.Fat, SecOfs, FirstMatch, NoMatch, Dir.SectorOf, Dir.Exists, Has, Loopless, Volume.Valid;
    var blk;
    res, j, blk := Find(d, name, false, up, buf);
    if res != OK {
      Registration.FirstIsMatch(TableOf(d), name, Same(up, buf), k);
    }
    OneFirst(TableOf(d), name, Same(up, buf), k, j);
    d.Here(SZDIRE * k);
  }
}
