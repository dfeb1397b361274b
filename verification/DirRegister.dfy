/** Registering names in a directory table on a volume. */
module DirRegister {
  import opened Bytes
  import opened FatTable
  import opened Entries
  import opened Layout
  import opened Devices
  import opened Volumes
  import opened LongNames
  import opened Directories
  import opened Registration
  import opened DirWalk
  import opened DirTables
  import FileState
  import Mount

  /* ---- storing an entry through the window ---- */

  /** Different entries of a table without loops have different places. */
  lemma SlotsApart(d: Dir, fat: seq<nat>, i: nat, k: nat)
    requires d.Placed() && |fat| == d.vol.geo.nFatent && Loopless(d, fat) && i != k
    requires d.Exists(fat, SZDIRE * i) && d.Exists(fat, SZDIRE * k)
    ensures d.SectorOf(fat, SZDIRE * i) != d.SectorOf(fat, SZDIRE * k) || SecOfs(SZDIRE * i) != SecOfs(SZDIRE * k)
  {
    hide Dir.Placed, ClusterAt, HopOf, Start, SecNo, SecOfs, Geometry.Clst2Sect;
    var g, x, y := d.vol.geo, SZDIRE * i, SZDIRE * k;
    if d.First() == 0 {
      SecParts(x, y);
    } else {
      d.Bounds();
      var a, b := HopOf(g, x), HopOf(g, y);
      HopRange(g, x);
      HopRange(g, y);
      if a == b {
        ShiftedByStart(g, a, x - Start(g, a));
        ShiftedByStart(g, a, y - Start(g, a));
        SecParts(x - Start(g, a), y - Start(g, a));
      } else {
        OtherCluster(d, fat, x, y);
      }
    }
  }

  lemma SecParts(x: nat, y: nat)
    requires x != y
    ensures SecNo(x) != SecNo(y) || SecOfs(x) != SecOfs(y)
  {
  }

  lemma OtherCluster(d: Dir, fat: seq<nat>, x: nat, y: nat)
    requires d.Placed() && |fat| == d.vol.geo.nFatent && Loopless(d, fat) && d.vol.geo.csize > 0
    requires d.Exists(fat, x) && d.Exists(fat, y) && d.First() != 0 && HopOf(d.vol.geo, x) != HopOf(d.vol.geo, y)
    ensures d.SectorOf(fat, x) != d.SectorOf(fat, y)
  {
    hide Dir.Placed, ClusterAt, HopOf, Start, SecNo, Geometry.Clst2Sect;
    var g := d.vol.geo;
    d.Bounds();
    HopRange(g, x);
    HopRange(g, y);
    var c, e := ClusterAt(g, fat, d.First(), HopOf(g, x)), ClusterAt(g, fat, d.First(), HopOf(g, y));
    assert c != e;
    d.OutsideCluster(fat, x, e);
    SecInCluster(g, y - Start(g, HopOf(g, y)));
  }

  /** The sector `w` is `v` with entry `e` at byte `ofs`. */
  ghost predicate Put(v: Sector, w: Sector, ofs: nat, e: Ent) {
    && ofs + SZDIRE <= SS && w[ofs..ofs + SZDIRE] == e
    && forall i :: 0 <= i < SS && !(ofs <= i < ofs + SZDIRE) ==> w[i] == v[i]
  }

  /** Entries `i` and `k` lie in the same place, as they do if the chain has a loop. */
  ghost predicate SamePlace(d: Dir, l: seq<Sector>, i: nat, k: nat)
    requires d.Placed() && d.vol.geo.volEnd <= |l| && Has(d, l, i) && Has(d, l, k)
  {
    d.SectorOf(d.vol.geo.Fat(l), SZDIRE * i) == d.SectorOf(d.vol.geo.Fat(l), SZDIRE * k) && SecOfs(SZDIRE * i) == SecOfs(SZDIRE * k)
  }

  /** The table `u` is the table of `l` with `e` stored in the place of entry `k`. */
  ghost predicate StoredAt(d: Dir, l: seq<Sector>, u: seq<Ent>, k: nat, e: Ent)
    requires d.Placed() && d.vol.geo.volEnd <= |l|
  {
    var t := Table(d, l);
    && k < |t| == |u| && u[k] == e
    && forall i :: 0 <= i < |t| ==> u[i] == if SamePlace(d, l, i, k) then e else t[i]
  }

  /** Storing an entry changes all entries in that place of the table and nothing else; without a loop there is only the one. */
  lemma EntryStored(d: Dir, l: seq<Sector>, l': seq<Sector>, s: nat, k: nat, e: Ent)
    requires d.Placed() && d.vol.geo.volEnd <= |l| && d.vol.geo.Valid()
    requires Has(d, l, k) && s == d.SectorOf(d.vol.geo.Fat(l), SZDIRE * k) < |l| == |l'|
    requires Put(l[s], l'[s], SecOfs(SZDIRE * k), e) && forall i :: 0 <= i < |l| && i != s ==> l'[i] == l[i]
    ensures d.vol.geo.Fat(l') == d.vol.geo.Fat(l)
    ensures StoredAt(d, l, Table(d, l'), k, e)
  {
    hide Dir.Placed, Has, Slot, Table, Geometry.Fat, Dir.SectorOf, SecOfs, Put, SamePlace;
    StoredOutside(d, l, s, k);
    FileState.FatSame(d.vol.geo, l, l');
    Prefix(d, l, k);
    var n := |Table(d, l)|;
    var t := seq(n, i requires 0 <= i < n => if SamePlace(d, l, i, k) then e else Slot(d, l, i));
    forall i | 0 <= i <= n
      ensures (Has(d, l', i) <==> Has(d, l, i)) && (Has(d, l, i) ==> Slot(d, l', i) == if SamePlace(d, l, i, k) then e else Slot(d, l, i))
    {
      SlotStored(d, l, l', s, k, e, i);
    }
    TableUnique(d, l', t);
    ItsOwnPlace(d, l, k);
  }

  lemma ItsOwnPlace(d: Dir, l: seq<Sector>, k: nat)
    requires d.Placed() && d.vol.geo.volEnd <= |l| && Has(d, l, k)
    ensures SamePlace(d, l, k, k)
  {
  }

  /** An entry that is changed is the only one to change exactly if no other entry lies in its place. */
  lemma OnlyOneChanges(d: Dir, l: seq<Sector>, u: seq<Ent>, k: nat, e: Ent)
    requires d.Placed() && d.vol.geo.volEnd <= |l| && StoredAt(d, l, u, k, e) && e != Table(d, l)[k]
    ensures u == Table(d, l)[k := e] <==> forall i :: 0 <= i < |u| && i != k ==> !SamePlace(d, l, i, k)
  {
    hide Dir.Placed, Has, Slot, Table, SamePlace;
    var t := Table(d, l);
    forall i | 0 <= i < |t| && SamePlace(d, l, i, k) ensures t[i] == t[k] {
      SameEntry(d, l, i, k);
    }
  }

  lemma SameEntry(d: Dir, l: seq<Sector>, i: nat, k: nat)
    requires d.Placed() && d.vol.geo.volEnd <= |l| && Has(d, l, i) && Has(d, l, k) && SamePlace(d, l, i, k)
    ensures Slot(d, l, i) == Slot(d, l, k)
  {
    hide Dir.Placed, Geometry.Fat, Dir.SectorOf, Dir.Exists, SecOfs;
    DivModUnique(SZDIRE * i, SZDIRE, i, 0);
    DivModUnique(SZDIRE * k, SZDIRE, k, 0);
  }

  /** A directory in the only cluster of a volume, whose FAT entry leads back to itself, as that volume mounts. */
  ghost predicate TinyLoop(d: Dir, l: seq<Sector>) {
    d.vol.geo == Mount.TINY && d.dirbase == 2 && d.rootSectors == 1 && d.sclust == 2 && l == Mount.TinyDisk(2, DataSector())
  }

  /** Entries 0 and 16 of its table lie in the same place. */
  lemma LoopedPlaces(d: Dir, l: seq<Sector>)
    requires TinyLoop(d, l)
    ensures d.Placed() && |l| == 4 && Has(d, l, 0) && Has(d, l, 16) && SamePlace(d, l, 0, 16) && SamePlace(d, l, 16, 0)
    ensures d.SectorOf(d.vol.geo.Fat(l), SZDIRE * 0) == 3
  {
    hide Mount.TinyBootSector, Mount.TinyFatSector, Geometry.Fat;
    var g, fat := Mount.TINY, Mount.TINY.Fat(l);
    Mount.TinyAccepted();
    Mount.TinyEntry(2, DataSector());
    assert ClusterAt(g, fat, 2, 0) == 2 && ClusterAt(g, fat, 2, 1) == 2;
    assert g.Bcs() == SS && HopOf(g, 0) == 0 && HopOf(g, SZDIRE * 16) == 1;
    assert Start(g, 0) == 0 && Start(g, 1) == SS;
    assert SecNo(0) == 0 && SecOfs(0) == 0 && SecOfs(SZDIRE * 16) == 0;
    DivModUnique(3, TWO32, 0, 3);
  }

  /** So storing entry 0 there changes entry 16 as well. */
  lemma LoopedStore(d: Dir, l: seq<Sector>, w: Sector, e: Ent)
    requires TinyLoop(d, l) && Put(l[3], w, 0, e) && e != l[3][0..SZDIRE]
    ensures d.Placed() && |l| == 4 && 16 < |Table(d, l)| == |Table(d, l[3 := w])|
    ensures Table(d, l[3 := w])[16] == Table(d, l[3 := w])[0] == e != Table(d, l)[16]
    ensures Table(d, l[3 := w]) != Table(d, l)[0 := e]
  {
    hide Mount.TinyDisk, Geometry.Fat, Table, Has, Slot, SamePlace, Dir.SectorOf, Put, Dir.Exists;
    LoopedPlaces(d, l);
    Mount.TinyAccepted();
    assert SecOfs(SZDIRE * 0) == 0;
    EntryStored(d, l, l[3 := w], 3, 0, e);
    Prefix(d, l, 16);
    SameEntry(d, l, 0, 16);
    FirstSlot(d, l);
    var t, u := Table(d, l), Table(d, l[3 := w]);
    assert t[16] == Slot(d, l, 16) == Slot(d, l, 0);
    assert u[16] == e != t[0 := e][16];
  }

  lemma FirstSlot(d: Dir, l: seq<Sector>)
    requires d.Placed() && d.vol.geo.volEnd <= |l| && Has(d, l, 0) && d.SectorOf(d.vol.geo.Fat(l), SZDIRE * 0) == 3 < |l|
    ensures Slot(d, l, 0) == l[3][0..SZDIRE]
  {
  }

  /** In a table without loops only the one entry changes. */
  lemma StoredAlone(d: Dir, l: seq<Sector>, u: seq<Ent>, k: nat, e: Ent)
    requires d.Placed() && d.vol.geo.volEnd <= |l| && StoredAt(d, l, u, k, e) && Loopless(d, d.vol.geo.Fat(l))
    ensures u == Table(d, l)[k := e]
  {
    hide Slot, Table, Loopless, Geometry.Fat, Dir.SectorOf, Dir.Exists, SecOfs;
    forall i | 0 <= i < |u| && i != k ensures !SamePlace(d, l, i, k) {
      assert Has(d, l, i) && Has(d, l, k);
      SlotsApart(d, d.vol.geo.Fat(l), i, k);
    }
  }

  lemma StoredOutside(d: Dir, l: seq<Sector>, s: nat, k: nat)
    requires d.Placed() && d.vol.geo.volEnd <= |l| && d.vol.geo.Valid()
    requires Has(d, l, k) && s == d.SectorOf(d.vol.geo.Fat(l), SZDIRE * k)
    ensures !d.vol.geo.InFatArea(s) && !d.vol.geo.InFat1(s)
  {
    hide Dir.Placed, Geometry.Fat, Dir.SectorOf;
    d.SectorInside(d.vol.geo.Fat(l), SZDIRE * k);
  }

  lemma SlotStored(d: Dir, l: seq<Sector>, l': seq<Sector>, s: nat, k: nat, e: Ent, i: nat)
    requires d.Placed() && d.vol.geo.volEnd <= |l| && d.vol.geo.Valid()
    requires Has(d, l, k) && s == d.SectorOf(d.vol.geo.Fat(l), SZDIRE * k) < |l| == |l'| && d.vol.geo.Fat(l') == d.vol.geo.Fat(l)
    requires Put(l[s], l'[s], SecOfs(SZDIRE * k), e) && forall j :: 0 <= j < |l| && j != s ==> l'[j] == l[j]
    ensures Has(d, l', i) <==> Has(d, l, i)
    ensures Has(d, l, i) ==> Slot(d, l', i) == if SamePlace(d, l, i, k) then e else Slot(d, l, i)
  {
    hide Dir.Placed, Geometry.Fat, Dir.SectorOf, SecOfs, Dir.Exists, Geometry.Valid;
    DivModUnique(SZDIRE * i, SZDIRE, i, 0);
    DivModUnique(SZDIRE * k, SZDIRE, k, 0);
    if Has(d, l, i) {
      var fat, x, y := d.vol.geo.Fat(l), SZDIRE * i, SZDIRE * k;
      d.SectorInside(fat, x);
      EntryStep(x);
      EntryStep(y);
      if !SamePlace(d, l, i, k) {
        OfsApart(i, k);
        var a, b := SecOfs(x), l'[d.SectorOf(fat, x)];
        assert b[a..a + SZDIRE] == l[d.SectorOf(fat, x)][a..a + SZDIRE];
      }
    }
  }

  /** The places of entries in a sector do not overlap. */
  lemma OfsApart(i: nat, k: nat)
    ensures var a, b := SecOfs(SZDIRE * i), SecOfs(SZDIRE * k); a == b || a + SZDIRE <= b || b + SZDIRE <= a
  {
    DivModUnique(SZDIRE * i, SS, i / 16, SZDIRE * (i % 16));
    DivModUnique(SZDIRE * k, SS, k / 16, SZDIRE * (k % 16));
  }

  /** What changing the entry at the object's position in the window comes to. */
  lemma Changed(d: Dir, k: nat, l: seq<Sector>, e: Ent)
    requires d.Sound() && d.vol.geo.volEnd <= |l| && d.At(d.vol.geo.Fat(l), SZDIRE * k) && d.sect < |l|
    requires d.vol.Logical() == l[d.sect := d.vol.win[..]] && Put(l[d.sect], d.vol.win[..], SecOfs(d.dptr), e)
    ensures On(d, k) && d.Fat() == d.vol.geo.Fat(l) && StoredAt(d, l, TableOf(d), k, e)
    ensures Loopless(d, d.Fat()) ==> TableOf(d) == Table(d, l)[k := e]
    ensures Kindly(d, VolumeOf(d).(l := l), VolumeOf(d))
  {
    hide Volume.Logical, Dir.At, Table, Geometry.Fat, SecOfs, Put, Loopless, Dir.Exists, Dir.SectorOf, StoredAt, Kindly;
    ghost var fat := d.vol.geo.Fat(l);
    d.AtExists(fat, SZDIRE * k);
    AtOfs(d, fat, SZDIRE * k);
    EntryStored(d, l, d.vol.Logical(), d.sect, k, e);
    BehindFat(d, l, k);
    KindlyStore(d, VolumeOf(d).(l := l), VolumeOf(d), d.sect);
    if Loopless(d, fat) {
      StoredAlone(d, l, TableOf(d), k, e);
    }
  }

  lemma BehindFat(d: Dir, l: seq<Sector>, k: nat)
    requires d.Placed() && d.vol.geo.volEnd <= |l| && Has(d, l, k)
    ensures d.vol.geo.Valid() && d.vol.geo.fatbase <= d.SectorOf(d.vol.geo.Fat(l), SZDIRE * k)
  {
    hide Geometry.Fat, Geometry.Clst2Sect, ClusterAt, HopOf, Start, SecNo;
    if d.First() != 0 {
      d.ClusterSector(ClusterAt(d.vol.geo, d.vol.geo.Fat(l), d.First(), HopOf(d.vol.geo, SZDIRE * k)));
    }
  }

  /** Storing in a sector behind the FAT. */
  lemma KindlyStore(d: Dir, x: VolState, y: VolState, s: nat)
    requires d.vol.geo.Valid() && d.vol.geo.volEnd <= |x.l| == |y.l| && d.vol.geo.Fat(y.l) == d.vol.geo.Fat(x.l)
    requires y.free == x.free && y.flag == x.flag && d.vol.geo.fatbase <= s && forall i :: 0 <= i < |x.l| && i != s ==> y.l[i] == x.l[i]
    ensures Kindly(d, x, y)
  {
    hide Geometry.Fat, ChainUsed, Tame;
    TameOutside(d.vol.geo, x, y);
  }

  lemma AtOfs(d: Dir, fat: seq<nat>, ofs: nat)
    requires d.Placed() && |fat| == d.vol.geo.nFatent && d.At(fat, ofs)
    ensures d.dptr == ofs
  {
  }

  /** One turn of the loop of dir_register that stores the parts: put_lfn on the entry in the window. */
  method PutPart(d: Dir, buf: NameBuf, ord: nat, sum: byte, ghost k: nat, ghost long: seq<word>) returns (res: FResult)
    requires d.Sound() && On(d, k)
    requires HoldsName(buf, long) && Storable(long) && 1 <= ord <= EntryCount(|long|)
    modifies d.vol`winsect, d.vol`wflag, d.vol.win, d.vol.dev
    ensures d.Sound() && On(d, k) && d.Fat() == old(d.Fat()) && k < |TableOf(d)| == old(|TableOf(d)|)
    ensures res == OK || (res == DISK_ERR && !d.vol.dev.reliable && TableOf(d) == old(TableOf(d)))
    ensures res == OK ==> HoldsPart(TableOf(d)[k], long, ord, sum)
    ensures Loopless(d, d.Fat()) ==> forall i :: 0 <= i < |TableOf(d)| && i != k ==> TableOf(d)[i] == old(TableOf(d))[i]
    ensures Kindly(d, old(VolumeOf(d)), VolumeOf(d))
  {
    hide Volume.Logical, Dir.At, Table, Geometry.Fat, SecOfs, Loopless, HoldsPart, HoldsName, Storable, EntryCount, Dir.Placed, Volume.MirrorInSync, Kindly;
    var e;
    res, e := Load(d, k);
    SameTable(d);
    Sizes(d);
    KindlySame(d, old(VolumeOf(d)), VolumeOf(d));
    if res == OK {
      ghost var l, v := d.vol.Logical(), d.vol.win[..];
      Ready(d, k);
      label L:
      PutLfn(buf, d.vol.win, SecOfs(d.dptr), ord, sum, long);
      d.vol.wflag := true;
      d.vol.Edited@L();
      ghost var o := SecOfs(d.dptr);
      ghost var part := d.vol.win[o..o + SZDIRE];
      assert Put(v, d.vol.win[..], o, part);
      Changed(d, k, l, part);
    }
  }

  /** The entry is inside the window. */
  lemma Ready(d: Dir, k: nat)
    requires d.Sound() && On(d, k)
    ensures SecOfs(d.dptr) + SZDIRE <= SS == d.vol.win.Length && d.vol.geo.volEnd <= |d.vol.Logical()|
  {
    hide Volume.Logical, Dir.At, Geometry.Fat, SecOfs;
    d.Here(SZDIRE * k);
  }

  /** dir_sdi to an entry of the table. */
  method SeekTo(d: Dir, k: nat) returns (res: FResult)
    requires d.Sound() && k < |TableOf(d)|
    modifies d, d.vol`winsect, d.vol`wflag, d.vol.win, d.vol.dev
    ensures d.Sound() && d.vol.Logical() == old(d.vol.Logical()) && Untouched(d.vol) && res != NO_FILE && res != DENIED && res != INVALID_NAME
    ensures (res == OK ==> On(d, k)) && (d.vol.dev.reliable ==> res == OK)
  {
    hide Volume.Valid, Volume.Logical, Dir.At, Table, Geometry.Fat, Dir.Placed, Dir.Exists;
    d.OnDevice();
    assert Has(d, d.vol.Logical(), k);
    DivModUnique(SZDIRE * k, SZDIRE, k, 0);
    res := d.Sdi(SZDIRE * k);
  }

  /** The part of dir_register that stores the parts of the long name, the last part first; the object stands at the entry behind them. */
  method PutParts(d: Dir, start: nat, count: nat, buf: NameBuf, sum: byte, ghost long: seq<word>) returns (res: FResult)
    requires d.Sound() && start + count < |TableOf(d)|
    requires count == EntryCount(|long|) && HoldsName(buf, long) && Storable(long)
    modifies d, d.vol, d.vol.win, d.vol.dev
    ensures d.Sound() && d.Fat() == old(d.Fat()) && |TableOf(d)| == old(|TableOf(d)|)
    ensures res != INVALID_NAME && (d.vol.dev.reliable ==> res == OK)
    ensures res == OK ==> On(d, start + count) && (Loopless(d, d.Fat()) ==> Stored(TableOf(d), start, start + count, long, sum))
    ensures Loopless(d, d.Fat()) ==> forall i :: 0 <= i < |TableOf(d)| && !(start <= i < start + count) ==> TableOf(d)[i] == old(TableOf(d))[i]
    ensures Kindly(d, old(VolumeOf(d)), VolumeOf(d))
  {
    hide Dir.Sound, TableOf, On, Volume.Logical, Dir.Fat, Loopless, HoldsPart, HoldsName, EntryCount, Volume.Valid, Kindly, VolumeOf;
    CountCovers(|long|);
    PartBounds(|long|, count);
    ghost var t := TableOf(d);
    res := SeekTo(d, start);
    SameTable(d);
    KindlyLooked(d);
    var n, i := count, start;
    while res == OK && n > 0
      invariant 0 <= n <= count && i == start + count - n && d.Sound() && d.Fat() == old(d.Fat()) && |TableOf(d)| == |t|
      invariant Kindly(d, old(VolumeOf(d)), VolumeOf(d))
      invariant res == OK ==> On(d, i)
      invariant res != INVALID_NAME && (d.vol.dev.reliable ==> res == OK)
      invariant res == OK && Loopless(d, d.Fat()) ==> forall k :: start <= k < i ==> HoldsPart(TableOf(d)[k], long, start + count - k, sum)
      invariant Loopless(d, d.Fat()) ==> forall k :: 0 <= k < |t| && !(start <= k < start + count) ==> TableOf(d)[k] == t[k]
      decreases n, res == OK
    {
      ghost var y := VolumeOf(d);
      res := PutPart(d, buf, n, sum, i, long);
      KindlyTrans(d, old(VolumeOf(d)), y, VolumeOf(d));
      if res == OK {
        y := VolumeOf(d);
        label L:
        res := Advance(d, i);
        SameTable@L(d);
        KindlyLooked@L(d);
        KindlyTrans(d, old(VolumeOf(d)), y, VolumeOf(d));
        n, i := n - 1, i + 1;
      }
    }
  }

  /** The end of dir_register: the short name and its flags, in the entry in the window. */
  method PutName(d: Dir, sfn: Sfn, nt: byte, ghost k: nat) returns (res: FResult)
    requires d.Sound() && On(d, k)
    modifies d.vol`winsect, d.vol`wflag, d.vol.win, d.vol.dev
    ensures d.Sound() && On(d, k) && d.Fat() == old(d.Fat()) && k < |TableOf(d)| == old(|TableOf(d)|)
    ensures res == OK || (res == DISK_ERR && !d.vol.dev.reliable && TableOf(d) == old(TableOf(d)))
    ensures res == OK ==> TableOf(d)[k] == SfnEntry(sfn, nt) && Shown(d)
    ensures res == OK && Loopless(d, d.Fat()) ==> TableOf(d) == old(TableOf(d))[k := SfnEntry(sfn, nt)]
    ensures Kindly(d, old(VolumeOf(d)), VolumeOf(d))
  {
    hide Volume.Logical, Dir.At, Table, Geometry.Fat, SecOfs, Loopless, Dir.Placed, Volume.MirrorInSync, Kindly;
    var e;
    res, e := Load(d, k);
    SameTable(d);
    Sizes(d);
    KindlySame(d, old(VolumeOf(d)), VolumeOf(d));
    if res == OK {
      ghost var l, v := d.vol.Logical(), d.vol.win[..];
      Ready(d, k);
      label L:
      FillName(d.vol.win, SecOfs(d.dptr), sfn, nt);
      d.vol.wflag := true;
      d.vol.Edited@L();
      Changed(d, k, l, SfnEntry(sfn, nt));
    }
  }

  /** memset and memcpy of the short name into the entry at `o`. */
  method FillName(win: array<byte>, o: nat, sfn: Sfn, nt: byte)
    requires win.Length == SS && o + SZDIRE <= SS
    modifies win
    ensures Put(old(win[..]), win[..], o, SfnEntry(sfn, nt))
  {
    forall i | o <= i < o + SZDIRE {
      win[i] := 0;
    }
    forall i | 0 <= i < 11 {
      win[o + i] := sfn[i];
    }
    win[o + 12] := nt;
    assert win[..][o..o + SZDIRE] == SfnEntry(sfn, nt);
  }

  /** The search of dir_register for a numbered short name that is not in use. */
  method NumberedName(d: Dir, name: Name, numbered: nat -> Sfn, up: word -> word, buf: NameBuf) returns (res: FResult, sfn: Sfn)
    requires d.Sound() && forall n :: Proper(numbered(n))
    modifies d, d.vol, d.vol.win, d.vol.dev
    ensures d.Sound() && d.vol.Logical() == old(d.vol.Logical()) && Untouched(d.vol) && res != NO_FILE && res != INVALID_NAME
    ensures res == OK ==> Proper(sfn) && NoMatch(TableOf(d), name.(sfn := sfn, loss := false), Never)
    ensures res == OK ==> exists n :: FirstNumber(TableOf(d), name, numbered, n) && sfn == numbered(n)
    ensures res == DENIED ==> AllTaken(TableOf(d), name, numbered)
    ensures d.vol.dev.reliable && old(Healthy(d)) ==> res == OK || res == DENIED
  {
    hide Dir.Sound, TableOf, On, Volume.Logical, NoMatch, FirstMatch, Proper, BlockIs, HasLong, LongAt, Healthy;
    ghost var t, healthy := TableOf(d), Healthy(d);
    sfn := name.sfn;
    SameTable(d);
    for n := 1 to 100
      invariant d.Sound() && d.vol.Valid() && d.vol.Logical() == old(d.vol.Logical()) && TableOf(d) == t && Untouched(d.vol) && Healthy(d) == healthy
      invariant forall i :: 1 <= i < n ==> !NoMatch(t, name.(sfn := numbered(i), loss := false), Never)
    {
      sfn := numbered(n);
      var k, blk;
      res, k, blk := Find(d, name.(sfn := sfn, loss := false), true, up, buf);
      SameTable(d);
      if res == NO_FILE {
        assert FirstNumber(t, name, numbered, n);
        return OK, sfn;
      }
      if res != OK {
        return;
      }
      FirstIsMatch(t, name.(sfn := sfn, loss := false), Never, k);
    }
    res := DENIED;
  }

  /** The number of entries that the name takes. */
  function Needed(name: Name, long: seq<word>): nat {
    if name.lfn then EntryCount(|long|) + 1 else 1
  }

  /** Where the new name goes: `n` entries from `start` on, the first such room in the stretched table. */
  ghost predicate FirstRoom(grown: seq<Ent>, name: Name, long: seq<word>, start: nat, n: nat) {
    && n == Needed(name, long) && start + n <= |grown| <= MAX_ENTRIES
    && AllFree(grown, start, n) && NoRoomBelow(grown, n, start)
  }

  /** The second half of dir_register: the object stands at the last of the `n` entries found, and the name is stored in them. */
  method PutBlock(d: Dir, start: nat, n: nat, sfn: Sfn, nt: byte, buf: NameBuf, ghost long: seq<word>) returns (res: FResult)
    requires d.Sound() && n >= 1 && start + n <= |TableOf(d)| && On(d, start + n - 1)
    requires n > 1 ==> n - 1 == EntryCount(|long|) && HoldsName(buf, long) && Storable(long)
    modifies d, d.vol, d.vol.win, d.vol.dev
    ensures d.Sound() && d.Fat() == old(d.Fat()) && |TableOf(d)| == old(|TableOf(d)|) && (d.vol.dev.reliable ==> res == OK) && res != INVALID_NAME
    ensures res == OK ==> On(d, start + n - 1) && Shown(d) && TableOf(d)[start + n - 1] == SfnEntry(sfn, nt)
    ensures res == OK && Loopless(d, d.Fat()) ==> Written(old(TableOf(d)), TableOf(d), start, n, long, sfn, nt)
    ensures Kindly(d, old(VolumeOf(d)), VolumeOf(d))
  {
    hide Dir.Sound, TableOf, On, Volume.Logical, Dir.Fat, Loopless, HoldsName, Storable, EntryCount, Written, Stored, SumOf, SfnEntry, Kindly, VolumeOf, Shown;
    ghost var t := TableOf(d);
    if n > 1 {
      var sum := SumSfn(sfn);
      assert sfn[..11] == sfn;
      res := PutParts(d, start, n - 1, buf, sum, long);
      if res != OK {
        return;
      }
    }
    ghost var parts, y := TableOf(d), VolumeOf(d);
    res := PutName(d, sfn, nt, start + n - 1);
    if n > 1 {
      KindlyTrans(d, old(VolumeOf(d)), y, VolumeOf(d));
    }
    if res == OK && Loopless(d, d.Fat()) {
      BlockWritten(t, parts, TableOf(d), start, n, long, sfn, nt);
    }
  }

  /**
    * dir_register on a volume.  Without faults it fails only for a bad name, if all numbered names are taken, if there is no room and
    * the table cannot grow, or because of a broken chain; then nothing was written to the table.  In a table whose chain has a loop an
    * entry is also changed wherever its place occurs again.
    */
  method Register(d: Dir, name: Name, numbered: nat -> Sfn, up: word -> word, buf: NameBuf, ghost long: seq<word>)
    returns (res: FResult, ghost grown: seq<Ent>, start: nat, n: nat, sfn: Sfn)
    requires d.Sound() && Proper(name.sfn) && (forall n :: Proper(numbered(n)))
    requires HoldsName(buf, long) && (name.lfn ==> Storable(long)) && (name.loss ==> name.lfn)
    modifies d, d.vol, d.vol.win, d.vol.dev
    ensures res == OK || d.vol.dev.reliable ==> d.Sound() && Grown(old(TableOf(d)), grown) && (old(Loopless(d, d.Fat())) ==> Loopless(d, d.Fat()))
    ensures res == OK ==> FirstRoom(grown, name, long, start, n) && On(d, start + n - 1) && Shown(d)
    ensures res == OK ==> |TableOf(d)| == |grown| && TableOf(d)[start + n - 1] == SfnEntry(sfn, name.nt)
    ensures res == OK && old(Loopless(d, d.Fat())) ==> Written(grown, TableOf(d), start, n, long, sfn, name.nt)
    ensures res == OK ==> Proper(sfn) && (!name.loss ==> sfn == name.sfn)
    ensures res == OK && name.loss ==> NoMatch(old(TableOf(d)), name.(sfn := sfn, loss := false), Never)
    ensures res == OK && name.loss ==> exists i :: FirstNumber(old(TableOf(d)), name, numbered, i) && sfn == numbered(i)
    ensures d.vol.dev.reliable && res != OK ==> TableOf(d) == grown
    ensures d.vol.dev.reliable && res == DENIED ==>
      (name.loss && AllTaken(grown, name, numbered)) || (NoRoom(grown, Needed(name, long)) && Full(d))
    ensures res == INVALID_NAME <==> name.dot
    ensures d.vol.dev.reliable ==> Kindly(d, old(VolumeOf(d)), VolumeOf(d))
    ensures d.vol.dev.reliable && old(Healthy(d)) ==> res == OK || res == DENIED || res == INVALID_NAME
  {
    hide Dir.Sound, TableOf, On, Volume.Logical, Dir.Fat, Loopless, NoMatch, HoldsName, Storable, AllFree, NoRoomBelow, NoRoom, AllTaken, FirstNumber, EntryCount,
         Proper, Grown, Full, Written, Stored, SfnEntry, Kindly, VolumeOf, Shown, Healthy;
    grown, start, n, sfn := TableOf(d), 0, 0, name.sfn;
    GrownSame(grown);
    KindlyLooked(d);
    if name.dot {
      return INVALID_NAME, grown, start, n, sfn;
    }
    var len := Length(buf, long);
    if name.loss {
      res, sfn := NumberedName(d, name, numbered, up, buf);
      SameTable(d);
      KindlyLooked(d);
      if res != OK {
        return;
      }
    }
    n := if name.lfn then EntryCount(len) + 1 else 1;
    var k;
    ghost var y := VolumeOf(d);
    res, k := Alloc(d, n);
    if d.vol.dev.reliable {
      KindlyTrans(d, old(VolumeOf(d)), y, VolumeOf(d));
    }
    if res != OK {
      if d.vol.dev.reliable {
        grown := TableOf(d);
      }
      return;
    }
    grown := TableOf(d);
    start := k + 1 - n;
    y := VolumeOf(d);
    res := PutBlock(d, start, n, sfn, name.nt, buf, long);
    if d.vol.dev.reliable {
      KindlyTrans(d, old(VolumeOf(d)), y, VolumeOf(d));
    }
  }

  /** A table without loops, with its end marks at the end and different short names. */
  ghost predicate Tidy(d: Dir)
    requires d.Sound()
    reads d.vol`winsect, d.vol`wflag, d.vol.win, d.vol.dev
  {
    Loopless(d, d.Fat()) && WellFormed(TableOf(d))
  }

  /**
    * The way f_open creates a name: look for it, and register it if it is not there.  In a table without loops a search then finds the
    * new entry exactly if the table had room with no end mark before it; in a tidy table it always does, and the table stays tidy.
    */
  method Create(d: Dir, name: Name, numbered: nat -> Sfn, up: word -> word, buf: NameBuf, ghost long: seq<word>)
    returns (res: FResult, existed: bool, k: nat)
    requires d.Sound() && Proper(name.sfn) && (forall n :: Proper(numbered(n)))
    requires HoldsName(buf, long) && (name.lfn ==> Storable(long)) && (name.loss ==> name.lfn)
    modifies d, d.vol, d.vol.win, d.vol.dev
    ensures res == OK || d.vol.dev.reliable ==> d.Sound() && (old(Tidy(d)) ==> Tidy(d))
    ensures res == OK ==> On(d, k) && Shown(d) && k < |TableOf(d)|
    ensures existed ==> res == OK && d.vol.Logical() == old(d.vol.Logical()) && FirstMatch(TableOf(d), name, Same(up, buf), k)
    ensures d.vol.dev.reliable && res != OK ==> Grown(old(TableOf(d)), TableOf(d))
    ensures d.vol.dev.reliable && res == DENIED ==>
      (name.loss && AllTaken(TableOf(d), name, numbered)) || (NoRoom(TableOf(d), Needed(name, long)) && Full(d))
    ensures res == INVALID_NAME ==> name.dot
    ensures res == OK && !existed ==> NoMatch(old(TableOf(d)), name, Same(up, buf)) && Listed(TableOf(d)[k])
    ensures res == OK && !existed ==> TableOf(d)[k] == SfnEntry(SfnOf(TableOf(d)[k]), name.nt)
    ensures res == OK && !existed && old(Loopless(d, d.Fat())) ==>
      (FirstMatch(TableOf(d), name, Same(up, buf), k) <==> MarksBehind(old(TableOf(d)), Needed(name, long)))
    ensures res == OK && !existed && old(Tidy(d)) ==> FirstMatch(TableOf(d), name, Same(up, buf), k)
    ensures res == OK && !existed && old(Loopless(d, d.Fat())) ==> UsedSame(old(TableOf(d)), TableOf(d)) && LongStored(TableOf(d), name, long, k)
    ensures d.vol.dev.reliable ==> Kindly(d, old(VolumeOf(d)), VolumeOf(d))
    ensures d.vol.dev.reliable && old(Healthy(d)) ==> res == OK || res == DENIED || res == INVALID_NAME
  {
    hide Dir.Sound, TableOf, On, Volume.Logical, Dir.Fat, Loopless, NoMatch, FirstMatch, HoldsName, Storable, AllFree, NoRoomBelow, EntryCount, Proper,
         WellFormed, Listed, Stored, SumOf, Unused, Written, Grown, NoRoom, AllTaken, Full, BlockIs, HasLong, LongAt, SfnEntry, MarksBehind,
         UsedSame, LongStored, Kindly, VolumeOf, Shown, Healthy;
    ghost var t := TableOf(d);
    GrownSame(t);
    var blk;
    res, k, blk := Find(d, name, false, up, buf);
    SameTable(d);
    KindlyLooked(d);
    ghost var y := VolumeOf(d);
    existed := res == OK;
    if res != NO_FILE {
      if existed {
        StillOn(d, k);
      }
      return;
    }
    ghost var grown;
    var start, n, sfn;
    res, grown, start, n, sfn := Register(d, name, numbered, up, buf, long);
    if d.vol.dev.reliable {
      KindlyTrans(d, old(VolumeOf(d)), y, VolumeOf(d));
    }
    if (res == OK || d.vol.dev.reliable) && WellFormed(t) {
      StretchedKeeps(t, grown);
    }
    if res == OK {
      SfnEntryKind(sfn, name.nt);
      TakesEntries(name, long);
      k := start + n - 1;
      if old(Loopless(d, d.Fat())) {
        RegisteredIsFound(t, grown, TableOf(d), name, up, buf, start, n, long, sfn, name.nt);
        NowStored(t, grown, TableOf(d), name, long, start, n, sfn);
        if WellFormed(t) {
          Created(t, grown, TableOf(d), name, up, buf, long, start, n, sfn);
        }
      }
    }
  }

  lemma StillOn(d: Dir, k: nat)
    requires d.Sound() && On(d, k)
    ensures k < |TableOf(d)|
  {
    hide Dir.At, Table, Volume.Logical;
    StandsAt(d, k);
  }

  /** The long name stands before its entry. */
  ghost predicate LongStored(t: seq<Ent>, name: Name, long: seq<word>, k: nat) {
    k < |t| && (name.lfn ==> EntryCount(|long|) <= k && Stored(t, k - EntryCount(|long|), k, long, SumOf(SfnOf(t[k]))))
  }

  lemma NowStored(t: seq<Ent>, grown: seq<Ent>, u: seq<Ent>, name: Name, long: seq<word>, start: nat, n: nat, sfn: Sfn)
    requires Grown(t, grown) && FirstRoom(grown, name, long, start, n) && Written(grown, u, start, n, long, sfn, name.nt)
    requires name.lfn ==> n > 1
    ensures LongStored(u, name, long, start + n - 1) && UsedSame(t, u)
  {
    hide Stored, SumOf, AllFree, NoRoomBelow, Grown, SfnEntry, EntryCount, Unused;
    UsedKept(t, grown, u, start, n, long, sfn, name.nt);
  }

  /** Entries that were in use are the same. */
  ghost predicate UsedSame(t: seq<Ent>, u: seq<Ent>) {
    |t| <= |u| && forall i :: 0 <= i < |t| && !Unused(t[i]) ==> u[i] == t[i]
  }
}
