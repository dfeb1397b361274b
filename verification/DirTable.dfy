/** Finding, reading and allocating entries of a directory table on a volume. */
module DirTables {
  import opened Bytes
  import opened Entries
  import opened Layout
  import opened Devices
  import opened Volumes
  import opened LongNames
  import opened Directories
  import opened Registration
  import opened DirWalk
  import opened FatTable
  import Mount
  import Chains

  /* ---- the table that a directory object walks through ---- */

  /** The table has an entry `i`. */
  ghost predicate Has(d: Dir, l: seq<Sector>, i: nat)
    requires d.Placed() && d.vol.geo.volEnd <= |l|
  {
    d.Exists(d.vol.geo.Fat(l), SZDIRE * i)
  }

  ghost function Slot(d: Dir, l: seq<Sector>, i: nat): Ent
    requires d.Placed() && d.vol.geo.volEnd <= |l| && Has(d, l, i)
  {
    DivModUnique(SZDIRE * i, SZDIRE, i, 0);
    d.EntryAt(l, SZDIRE * i)
  }

  /** The first entry from `i` on that the table does not have. */
  ghost function EndFrom(d: Dir, l: seq<Sector>, i: nat): (n: nat)
    requires d.Placed() && d.vol.geo.volEnd <= |l| && i <= MAX_ENTRIES
    ensures i <= n <= MAX_ENTRIES && !Has(d, l, n) && forall k :: i <= k < n ==> Has(d, l, k)
    decreases MAX_ENTRIES - i
  {
    NotBeyond(d, l);
    if Has(d, l, i) then EndFrom(d, l, i + 1) else i
  }

  lemma NotBeyond(d: Dir, l: seq<Sector>)
    requires d.Placed() && d.vol.geo.volEnd <= |l|
    ensures !Has(d, l, MAX_ENTRIES)
  {
  }

  ghost function Table(d: Dir, l: seq<Sector>): (t: seq<Ent>)
    requires d.Placed() && d.vol.geo.volEnd <= |l|
    ensures IsTable(d, l, t)
  {
    var n := EndFrom(d, l, 0);
    seq(n, i requires 0 <= i < n => Slot(d, l, i))
  }

  /** The entries are those of the table, and there are no more. */
  ghost predicate IsTable(d: Dir, l: seq<Sector>, t: seq<Ent>)
    requires d.Placed() && d.vol.geo.volEnd <= |l|
  {
    && |t| <= MAX_ENTRIES && !Has(d, l, |t|)
    && forall i :: 0 <= i < |t| ==> Has(d, l, i) && t[i] == Slot(d, l, i)
  }

  /** There is only one such table. */
  lemma TableUnique(d: Dir, l: seq<Sector>, t: seq<Ent>)
    requires d.Placed() && d.vol.geo.volEnd <= |l| && IsTable(d, l, t)
    ensures t == Table(d, l)
  {
    hide Dir.Placed, Has, Slot, Table;
    var u := Table(d, l);
  }

  /** The table of the directory as the volume stands. */
  ghost function TableOf(d: Dir): (t: seq<Ent>)
    requires d.Sound()
    reads d.vol`winsect, d.vol`wflag, d.vol.win, d.vol.dev
    ensures |t| <= MAX_ENTRIES
  {
    d.OnDevice();
    Table(d, d.vol.Logical())
  }

  /** The entry `e` stands at byte `ofs` of sector `at`. */
  ghost predicate InView(l: seq<Sector>, at: nat, ofs: nat, e: Ent) {
    at < |l| && ofs + SZDIRE <= SS && l[at][ofs..ofs + SZDIRE] == e
  }

  /** What the object's position says about the table. */
  lemma StandsAt(d: Dir, k: nat)
    requires d.Sound() && d.At(d.Fat(), SZDIRE * k)
    ensures k < |TableOf(d)| && d.dptr == SZDIRE * k && d.sect < |d.vol.dev.sectors| < TWO32 && d.sect != 0
    ensures !d.vol.geo.InFatArea(d.sect)
    ensures InView(d.vol.Logical(), d.sect, SecOfs(d.dptr), TableOf(d)[k])
  {
    hide Geometry.Fat, Dir.SectorOf, SecNo, SecOfs, Volume.Logical, Table, Dir.At, Dir.EntryAt, Volume.Valid, Dir.Placed, Dir.Exists;
    d.Here(SZDIRE * k);
    d.OnDevice();
    d.SectorInside(d.Fat(), SZDIRE * k);
    OnePlace(d, d.vol.Logical(), k);
  }

  lemma OnePlace(d: Dir, l: seq<Sector>, k: nat)
    requires d.Placed() && d.vol.geo.volEnd <= |l| && d.Exists(d.vol.geo.Fat(l), SZDIRE * k)
    ensures k < |Table(d, l)| && (SZDIRE * k) % SZDIRE == 0 && Table(d, l)[k] == d.EntryAt(l, SZDIRE * k)
  {
    hide Dir.EntryAt, Dir.Placed, Dir.Exists, Table;
    Prefix(d, l, k);
    DivModUnique(SZDIRE * k, SZDIRE, k, 0);
    var t := Table(d, l);
    assert t[k] == Slot(d, l, k);
  }

  /** An entry that exists has its place in the table: those before it exist too. */
  lemma Prefix(d: Dir, l: seq<Sector>, k: nat)
    requires d.Placed() && d.vol.geo.volEnd <= |l| && Has(d, l, k)
    ensures k < |Table(d, l)|
  {
    hide Dir.Placed, Has, Slot, Table;
    var n := |Table(d, l)|;
    if n <= k {
      HasBelow(d, l, n, k);
    }
  }

  lemma HasBelow(d: Dir, l: seq<Sector>, n: nat, k: nat)
    requires d.Placed() && d.vol.geo.volEnd <= |l| && Has(d, l, k) && n <= k
    ensures Has(d, l, n)
  {
    hide Geometry.Fat, ClusterAt, HopOf;
    var g, fat, c := d.vol.geo, d.vol.geo.Fat(l), d.First();
    if c != 0 {
      HopMono(g, SZDIRE * n, SZDIRE * k);
      if ClusterAt(g, fat, c, HopOf(g, SZDIRE * n)) == 0 {
        EndStays(g, fat, c, HopOf(g, SZDIRE * n), HopOf(g, SZDIRE * k));
      }
    }
  }

  lemma HopMono(g: Geometry, a: nat, b: nat)
    requires g.csize > 0 && a <= b
    ensures HopOf(g, a) <= HopOf(g, b)
  {
    hide HopOf;
    HopRange(g, a);
    StartNext(g, HopOf(g, b));
    HopRange(g, b);
    var q, r := HopOf(g, a), HopOf(g, b);
    if r < q {
      Mount.Steps(g.Bcs(), r, q);
    }
  }

  /** The table ends with entry `n - 1`. */
  lemma EndsAt(d: Dir, l: seq<Sector>, n: nat)
    requires d.Placed() && d.vol.geo.volEnd <= |l| && n <= |Table(d, l)| && !d.Exists(d.vol.geo.Fat(l), SZDIRE * n)
    ensures |Table(d, l)| == n
  {
    hide Dir.Placed, Slot, Table, Dir.Exists;
    var t := Table(d, l);
    assert n < |t| ==> Has(d, l, n);
  }

  /** The object stands at entry `k`. */
  ghost predicate On(d: Dir, k: nat)
    requires d.Sound()
    reads d, d.vol`winsect, d.vol`wflag, d.vol.win, d.vol.dev
  {
    d.At(d.Fat(), SZDIRE * k)
  }

  /** The clusters of the table are in use. */
  ghost predicate ChainUsed(d: Dir, fat: seq<nat>)
    requires |fat| == d.vol.geo.nFatent
  {
    forall i: nat :: ClusterAt(d.vol.geo, fat, d.First(), i) != 0 ==> fat[ClusterAt(d.vol.geo, fat, d.First(), i)] != 0
  }

  /** A directory without broken links: it has entries, its clusters are in use, and no entry of the FAT is 1. */
  ghost predicate Healthy(d: Dir)
    requires d.Sound()
    reads d.vol`winsect, d.vol`wflag, d.vol.win, d.vol.dev
  {
    TableOf(d) != [] && ChainUsed(d, d.Fat()) && Chains.NoBadEntry(d.Fat())
  }

  /** There the cluster that the object is in has a successor or ends the chain. */
  lemma LinkHere(d: Dir, k: nat)
    requires d.Sound() && On(d, k) && Healthy(d)
    ensures Chains.NoBadEntry(d.Fat()) && (d.vol.geo.IsCluster(d.clust) ==> d.Fat()[d.clust] != 0)
  {
    hide Volume.Logical, Geometry.Fat, ClusterAt, Table;
  }

  /** dir_sdi to the first entry. */
  method Rewind(d: Dir) returns (res: FResult)
    requires d.Sound()
    modifies d, d.vol`winsect, d.vol`wflag, d.vol.win, d.vol.dev
    ensures d.Sound() && d.vol.Logical() == old(d.vol.Logical()) && Untouched(d.vol) && res != NO_FILE && res != DENIED && res != INVALID_NAME
    ensures res == OK ==> On(d, 0) && 0 < |TableOf(d)|
    ensures d.vol.dev.reliable && res != OK ==> TableOf(d) == []
  {
    hide Volume.Valid, Volume.Logical, Dir.At, Dir.Exists, Table, Geometry.Fat, Geometry.Valid, Geometry.ValidData;
    d.OnDevice();
    res := d.Sdi(0);
    if res == OK {
      StandsAt(d, 0);
    } else if d.vol.dev.reliable {
      EndsAt(d, d.vol.Logical(), 0);
    }
  }

  /** dir_next without stretching. */
  method Advance(d: Dir, ghost k: nat) returns (res: FResult)
    requires d.Sound() && On(d, k)
    modifies d, d.vol, d.vol.win, d.vol.dev
    ensures d.Sound() && d.vol.Logical() == old(d.vol.Logical()) && Untouched(d.vol) && k < |TableOf(d)|
    ensures res == OK ==> On(d, k + 1)
    ensures res != OK && (d.vol.dev.reliable || res == NO_FILE) ==> |TableOf(d)| == k + 1
    ensures res != DENIED && res != INVALID_NAME && (d.vol.dev.reliable && old(Healthy(d)) ==> res == OK || res == NO_FILE)
  {
    hide Volume.Valid, Volume.Logical, Dir.At, Dir.Exists, Table, Geometry.Fat, Geometry.Valid, Geometry.ValidData, Stretched, ChainUsed, Chains.NoBadEntry;
    StandsAt(d, k);
    if Healthy(d) {
      LinkHere(d, k);
    }
    d.OnDevice();
    res := d.Next(false);
    if res != OK && (d.vol.dev.reliable || res == NO_FILE) {
      EndsAt(d, d.vol.Logical(), k + 1);
    }
  }

  /** The window shows the sector of the entry that the object stands at. */
  ghost predicate Shown(d: Dir)
    requires d.Sound()
    reads d, d.vol`winsect, d.vol`wflag, d.vol.win, d.vol.dev
  {
    && d.vol.winsect == d.sect < |d.vol.dev.sectors| && !d.vol.geo.InFatArea(d.sect)
    && d.vol.win[..] == d.vol.Logical()[d.sect]
  }

  /** The entry that the object stands at, through the window. */
  method Load(d: Dir, ghost k: nat) returns (res: FResult, e: Ent)
    requires d.Sound() && On(d, k)
    modifies d.vol`winsect, d.vol`wflag, d.vol.win, d.vol.dev
    ensures d.Sound() && d.vol.Logical() == old(d.vol.Logical()) && Untouched(d.vol) && On(d, k)
    ensures res == OK || res == DISK_ERR
    ensures d.vol.dev.reliable ==> res == OK
    ensures k < |TableOf(d)| && (res == OK ==> e == TableOf(d)[k] && Shown(d))
  {
    hide Volume.Valid, Volume.Logical, Dir.At, Dir.Placed, Table, SecOfs, Geometry.Fat, Volume.MirrorInSync;
    StandsAt(d, k);
    e := ClearEntry();
    res := d.vol.MoveWindow(d.sect);
    if res == OK {
      InWindow(d);
      e := d.vol.win[SecOfs(d.dptr)..SecOfs(d.dptr) + SZDIRE];
    }
  }

  lemma InWindow(d: Dir)
    requires d.Sound() && !d.vol.geo.InFatArea(d.sect)
    ensures d.vol.win.Length == SS && !d.vol.geo.InMirror(d.sect)
  {
  }

  /**
    * dir_find on a volume: from the first entry on, load the sector and go to the next entry.  It reports the first entry
    * before the end mark that the name leads to, and the place of its long name; without faults it fails only if there is none.
    */
  method Find(d: Dir, name: Name, noLfn: bool, up: word -> word, buf: NameBuf) returns (res: FResult, k: nat, blk: int)
    requires d.Sound()
    modifies d, d.vol, d.vol.win, d.vol.dev
    ensures d.Sound() && d.vol.Logical() == old(d.vol.Logical()) && Untouched(d.vol) && res != DENIED && res != INVALID_NAME
    ensures res == OK ==> On(d, k) && Shown(d) && FirstMatch(TableOf(d), name, TestFor(noLfn, up, buf), k)
    ensures res == OK ==> BlockIs(TableOf(d), TestFor(noLfn, up, buf), k, blk)
    ensures res == OK && HasLong(TableOf(d), TestFor(noLfn, up, buf), 0, k) ==> blk >= 0 && LongAt(TableOf(d), TestFor(noLfn, up, buf), blk, k)
    ensures res == NO_FILE || (d.vol.dev.reliable && res != OK) ==> NoMatch(TableOf(d), name, TestFor(noLfn, up, buf))
    ensures d.vol.dev.reliable && old(Healthy(d)) ==> res == OK || res == NO_FILE
  {
    hide Dir.Sound, TableOf, On, Volume.Logical, Volume.Valid, Shown, Scanned, FirstMatch, BlockIs, HasLong, LongAt, TestFor, NoMatch, Healthy;
    ghost var healthy := Healthy(d);
    ghost var t, m := TableOf(d), TestFor(noLfn, up, buf);
    var ord: byte, sum: byte := 0xFF, 0xFF;
    k, blk := 0, NO_BLOCK;
    res := Rewind(d);
    ScannedAll(t, name, m, 0, ord, sum, blk);
    SameTable(d);
    NotEmpty(d);
    while res == OK
      invariant d.Sound() && d.vol.Valid() && d.vol.Logical() == old(d.vol.Logical()) && TableOf(d) == t && res != DENIED && res != INVALID_NAME
      invariant Untouched(d.vol) && Healthy(d) == healthy
      invariant d.vol.dev.reliable && healthy ==> res == OK || res == NO_FILE
      invariant k <= |t| && Scanned(t, name, m, k, ord, sum, blk) && (res == OK ==> On(d, k))
      invariant res != OK && (d.vol.dev.reliable || res == NO_FILE) ==> NoMatch(t, name, m)
      decreases MAX_ENTRIES - k, res == OK
    {
      var e;
      res, e := Load(d, k);
      SameTable(d);
      if res != OK {
        return;
      }
      if e[0] == 0 {
        ScannedAll(t, name, m, k, ord, sum, blk);
        return NO_FILE, k, blk;
      }
      var stop;
      stop, ord, sum, blk := ScanTurn(e, k, name, noLfn, up, buf, ord, sum, blk, t);
      if stop {
        return;
      }
      res := Advance(d, k);
      SameTable(d);
      k := k + 1;
      ScannedAll(t, name, m, k, ord, sum, blk);
    }
  }

  lemma NotEmpty(d: Dir)
    requires d.Sound()
    ensures Healthy(d) ==> TableOf(d) != []
  {
  }

  twostate lemma SameTable(d: Dir)
    requires old(d.Sound()) && d.Sound() && d.vol.Logical() == old(d.vol.Logical())
    ensures Healthy(d) == old(Healthy(d))
    ensures TableOf(d) == old(TableOf(d)) && d.Fat() == old(d.Fat()) && d.vol.Valid() && old(d.vol.Valid())
  {
    hide Table, Volume.Logical, Dir.Placed, Volume.Valid;
  }

  /**
    * dir_read on a volume: the next entry to report from the position on, which is entry `lo`, and where its long name starts,
    * if it has one.  A stored name that lies ahead is rebuilt in the buffer exactly.
    */
  method Read(d: Dir, buf: array<word>, ghost lo: nat, ghost b: nat, ghost j: nat, ghost name: seq<word>)
    returns (res: FResult, k: nat, blk: int)
    requires d.Sound() && (d.sect != 0 ==> On(d, lo)) && buf.Length == MAX_LFN + 1
    modifies d, d.vol, d.vol.win, d.vol.dev, buf
    ensures d.Sound() && d.vol.Logical() == old(d.vol.Logical())
    ensures old(d.sect) == 0 ==> res == NO_FILE
    ensures res != OK ==> d.sect == 0
    ensures res == OK ==> lo <= k < |TableOf(d)| && On(d, k) && Listed(TableOf(d)[k]) && NoneListed(TableOf(d), lo, k)
    ensures res == OK ==> (blk != NO_BLOCK <==> HasLong(TableOf(d), Readable, lo, k))
    ensures res == OK && blk != NO_BLOCK ==> blk >= 0 && LongAt(TableOf(d), Readable, blk, k)
    ensures res == OK && k == j && lo <= b && Stored(TableOf(d), b, j, name, SumOf(SfnOf(TableOf(d)[j]))) ==> blk == b && HoldsName(buf[..], name)
    ensures old(d.sect) != 0 && (res == NO_FILE || (d.vol.dev.reliable && res != OK)) ==>
      lo <= k <= |TableOf(d)| && NoneListed(TableOf(d), lo, k) && (k < |TableOf(d)| ==> TableOf(d)[k][0] == 0)
  {
    hide Dir.Sound, TableOf, On, Volume.Logical, Volume.Valid, Shown, Healthy, Tracks, HasLong, LongAt, Stored, HoldsTail, HoldsName, Rebuilding, SumOf,
         Listed;
    ghost var t := TableOf(d);
    var ord: byte, sum: byte := 0xFF, 0xFF;
    res, k, blk := NO_FILE, d.dptr / SZDIRE, NO_BLOCK;
    ReadStart(t, lo, b, j, name, buf[..]);
    if d.sect != 0 {
      PlaceOf(d, lo);
    }
    SameTable(d);
    while d.sect != 0
      invariant d.Sound() && d.vol.Valid() && d.vol.Logical() == old(d.vol.Logical()) && TableOf(d) == t
      invariant d.sect != 0 ==> On(d, k)
      invariant old(d.sect) == 0 ==> d.sect == 0 && res == NO_FILE
      invariant old(d.sect) != 0 ==> d.sect != 0 && lo <= k <= |t| && NoneListed(t, lo, k) && Tracks(t, Readable, lo, k, ord, sum, blk)
      invariant old(d.sect) != 0 && lo <= b ==> Rebuilding(t, k, b, j, name, buf[..])
      decreases MAX_ENTRIES - k
    {
      var e;
      res, e := Load(d, k);
      SameTable(d);
      if res == OK && e[0] == 0 {
        res := NO_FILE;
      }
      if res != OK {
        break;
      }
      var stop;
      stop, ord, sum, blk := ReadStep(e, k, buf, ord, sum, blk, t, lo, b, j, name);
      if stop {
        ReadDone(t, lo, k, b, j, name, buf[..], blk);
        return;
      }
      res := Advance(d, k);
      SameTable(d);
      k := k + 1;
      if res != OK {
        break;
      }
      PlaceOf(d, k);
    }
    d.sect := 0;
  }

  lemma PlaceOf(d: Dir, k: nat)
    requires d.Sound() && On(d, k)
    ensures d.dptr == SZDIRE * k && d.sect != 0 && k < |TableOf(d)|
  {
    hide Dir.At, Table, Volume.Logical;
    StandsAt(d, k);
  }

  /** Reading from the start of a stored name reports its short entry next and rebuilds the name. */
  method ReadStored(d: Dir, buf: array<word>, ghost b: nat, ghost j: nat, ghost name: seq<word>) returns (res: FResult, k: nat, blk: int)
    requires d.Sound() && d.sect != 0 && On(d, b) && buf.Length == MAX_LFN + 1
    requires b < j < |TableOf(d)| && Listed(TableOf(d)[j]) && Stored(TableOf(d), b, j, name, SumOf(SfnOf(TableOf(d)[j])))
    modifies d, d.vol, d.vol.win, d.vol.dev, buf
    ensures d.Sound() && d.vol.Logical() == old(d.vol.Logical()) && (d.vol.dev.reliable ==> res == OK)
    ensures res == OK ==> On(d, j) && k == j && blk == b && HoldsName(buf[..], name)
  {
    hide Dir.Sound, TableOf, On, Volume.Logical, HasLong, LongAt, HoldsName, SumOf, HoldsPart, Storable, EntryCount, Attr, IsLabel;
    ghost var t := TableOf(d);
    forall i | b <= i < j ensures t[i][0] != 0 && !Listed(t[i]) {
      assert HoldsPart(t[i], name, j - i, SumOf(SfnOf(t[j])));
      PartIsLfn(t[i], name, j - i, SumOf(SfnOf(t[j])));
    }
    res, k, blk := Read(d, buf, b, b, j, name);
    SameTable(d);
  }

  /* ---- a table that grows ---- */

  /** A table that was stretched by a cluster got cleared entries. */
  lemma TableGrown(d: Dir, l: seq<Sector>, l': seq<Sector>, h: nat, c: dword)
    requires d.Placed() && d.First() != 0 && d.vol.geo.volEnd <= |l| == |l'| && Stretched(d.vol.geo, l, l', d.First(), h, c)
    requires SZDIRE * |Table(d, l)| == Start(d.vol.geo, h + 1)
    ensures Grown(Table(d, l), Table(d, l'))
  {
    hide Dir.Placed, Has, Slot, Table, Stretched, Start;
    var t, u := Table(d, l), Table(d, l');
    forall i | 0 <= i < |t| ensures Has(d, l', i) && Slot(d, l', i) == t[i] {
      SlotKept(d, l, l', h, c, i);
    }
    forall i | |t| <= i < |u| ensures u[i] == ClearEntry() {
      SlotNew(d, l, l', h, c, i);
    }
    assert u[..|t|] == t;
  }

  lemma SlotKept(d: Dir, l: seq<Sector>, l': seq<Sector>, h: nat, c: dword, i: nat)
    requires d.Placed() && d.First() != 0 && d.vol.geo.volEnd <= |l| == |l'| && Stretched(d.vol.geo, l, l', d.First(), h, c)
    requires Has(d, l, i) && SZDIRE * i < Start(d.vol.geo, h + 1)
    ensures Has(d, l', i) && Slot(d, l', i) == Slot(d, l, i)
  {
    hide Dir.Placed, Stretched, Start, Dir.EntryAt, ClusterAt, HopOf;
    DivModUnique(SZDIRE * i, SZDIRE, i, 0);
    d.Bounds();
    d.TableStretched(l, l', h, c, SZDIRE * i);
  }

  lemma SlotNew(d: Dir, l: seq<Sector>, l': seq<Sector>, h: nat, c: dword, i: nat)
    requires d.Placed() && d.First() != 0 && d.vol.geo.volEnd <= |l| == |l'| && Stretched(d.vol.geo, l, l', d.First(), h, c)
    requires Has(d, l', i) && Start(d.vol.geo, h + 1) <= SZDIRE * i
    ensures Slot(d, l', i) == ClearEntry()
  {
    hide Dir.Placed, Start, Dir.EntryAt, ClusterAt, HopOf, Geometry.Fat;
    DivModUnique(SZDIRE * i, SZDIRE, i, 0);
    d.Bounds();
    var g, fat := d.vol.geo, d.vol.geo.Fat(l');
    if SZDIRE * i >= Start(g, h + 2) {
      d.HopAtLeast(SZDIRE * i, h + 2);
      EndStays(g, fat, d.First(), h + 2, HopOf(g, SZDIRE * i));
    }
    d.TableStretched(l, l', h, c, SZDIRE * i);
  }

  lemma TableSame(d: Dir, l: seq<Sector>, l': seq<Sector>)
    requires d.Placed() && d.vol.geo.volEnd <= |l| == |l'| && d.vol.geo.Valid() && SameContents(d.vol.geo, l, l')
    ensures Table(d, l') == Table(d, l)
  {
    hide Dir.Placed, Has, Slot, Table, SameContents, Geometry.Valid;
    var t := Table(d, l);
    forall i | 0 <= i <= |t| ensures (Has(d, l', i) <==> Has(d, l, i)) && (Has(d, l, i) ==> Slot(d, l', i) == Slot(d, l, i)) {
      SlotSame(d, l, l', i);
    }
    TableUnique(d, l', t);
  }

  lemma SlotSame(d: Dir, l: seq<Sector>, l': seq<Sector>, i: nat)
    requires d.Placed() && d.vol.geo.volEnd <= |l| == |l'| && d.vol.geo.Valid() && SameContents(d.vol.geo, l, l')
    ensures Has(d, l', i) <==> Has(d, l, i)
    ensures Has(d, l, i) ==> Slot(d, l', i) == Slot(d, l, i)
  {
    hide Dir.Placed, Dir.Exists, Dir.SectorOf, Geometry.Fat, Geometry.Valid;
    DivModUnique(SZDIRE * i, SZDIRE, i, 0);
    if Has(d, l, i) {
      d.SectorInside(d.vol.geo.Fat(l), SZDIRE * i);
      EntryStep(SZDIRE * i);
    }
  }

  /** No cluster occurs twice in the table. */
  ghost predicate Loopless(d: Dir, fat: seq<nat>)
    requires |fat| == d.vol.geo.nFatent
  {
    forall i: nat, j: nat :: i < j && Start(d.vol.geo, j) < MAX_DIR && ClusterAt(d.vol.geo, fat, d.First(), j) != 0 ==>
      ClusterAt(d.vol.geo, fat, d.First(), i) != ClusterAt(d.vol.geo, fat, d.First(), j)
  }

  /** A chain that ends before the limit of a table is reached has no loop. */
  lemma ShortIsLoopless(d: Dir, l: seq<Sector>)
    requires d.Placed() && d.vol.geo.volEnd <= |l| && |Table(d, l)| < MAX_ENTRIES
    ensures Loopless(d, d.vol.geo.Fat(l))
  {
    hide Table, Slot, ClusterAt, Geometry.Fat;
    var g, fat, c, n := d.vol.geo, d.vol.geo.Fat(l), d.First(), |Table(d, l)|;
    assert !Has(d, l, n);
    forall i: nat, j: nat | i < j && Start(g, j) < MAX_DIR && ClusterAt(g, fat, c, j) != 0
      ensures ClusterAt(g, fat, c, i) != ClusterAt(g, fat, c, j)
    {
      if ClusterAt(g, fat, c, i) == ClusterAt(g, fat, c, j) {
        LoopGoesOn(g, fat, c, i, j, HopOf(g, SZDIRE * n));
        FirstIsCluster(g, fat, c, j);
      }
    }
  }

  lemma FirstIsCluster(g: Geometry, fat: seq<nat>, c: nat, j: nat)
    requires |fat| == g.nFatent && ClusterAt(g, fat, c, j) != 0
    ensures c != 0
  {
    if c == 0 {
      EndStays(g, fat, c, 0, j);
    }
  }

  lemma {:induction false} LoopGoesOn(g: Geometry, fat: seq<nat>, c: nat, i: nat, j: nat, m: nat)
    requires |fat| == g.nFatent && i < j && ClusterAt(g, fat, c, i) == ClusterAt(g, fat, c, j) != 0
    ensures ClusterAt(g, fat, c, m) != 0
    ensures m >= j ==> ClusterAt(g, fat, c, m) == ClusterAt(g, fat, c, m - (j - i))
    decreases m
  {
    if m <= j {
      if ClusterAt(g, fat, c, m) == 0 {
        EndStays(g, fat, c, m, j);
      }
    } else {
      LoopGoesOn(g, fat, c, i, j, m - 1);
      LoopGoesOn(g, fat, c, i, j, m - (j - i));
    }
  }

  /** Stretching keeps that. */
  lemma ChainUsedKept(d: Dir, x: VolState, y: VolState, h: nat, c: dword)
    requires d.Placed() && d.vol.geo.volEnd <= |x.l| == |y.l| && Stretched(d.vol.geo, x.l, y.l, d.First(), h, c)
    requires Tame(d.vol.geo, x, y) && ChainUsed(d, d.vol.geo.Fat(x.l))
    ensures ChainUsed(d, d.vol.geo.Fat(y.l))
  {
    hide ClusterAt, Geometry.Fat, Start, InCluster;
    var g, fat, fat', f := d.vol.geo, d.vol.geo.Fat(x.l), d.vol.geo.Fat(y.l), d.First();
    forall i: nat | ClusterAt(g, fat', f, i) != 0 ensures fat'[ClusterAt(g, fat', f, i)] != 0 {
      if i >= h + 2 {
        EndStays(g, fat', f, h + 2, i);
      }
      assert i <= h ==> ClusterAt(g, fat', f, i) == ClusterAt(g, fat, f, i);
    }
  }

  /** What the operations on directories keep. */
  ghost predicate Kindly(d: Dir, x: VolState, y: VolState) {
    Tame(d.vol.geo, x, y) && (ChainUsed(d, d.vol.geo.Fat(x.l)) ==> ChainUsed(d, d.vol.geo.Fat(y.l)))
  }

  lemma KindlyTrans(d: Dir, x: VolState, y: VolState, z: VolState)
    requires Kindly(d, x, y) && Kindly(d, y, z)
    ensures Kindly(d, x, z)
  {
    hide Tame, ChainUsed;
    TameTrans(d.vol.geo, x, y, z);
    TameSizes(d.vol.geo, x, y);
    TameSizes(d.vol.geo, y, z);
  }

  lemma TameSizes(g: Geometry, x: VolState, y: VolState)
    requires Tame(g, x, y)
    ensures g.Valid() && g.volEnd <= |x.l| == |y.l|
  {
  }

  lemma KindlySame(d: Dir, x: VolState, y: VolState)
    requires d.vol.geo.Valid() && d.vol.geo.volEnd <= |x.l| && y.l == x.l && y.free == x.free && y.flag == x.flag
    ensures Kindly(d, x, y)
  {
    hide ChainUsed;
    TameSame(d.vol.geo, x, y);
  }

  /** The state of the volume that the directory is on. */
  ghost function VolumeOf(d: Dir): VolState
    requires d.Sound()
    reads d.vol, d.vol.win, d.vol.dev
  {
    StateOf(d.vol)
  }

  twostate lemma KindlyLooked(d: Dir)
    requires old(d.Sound()) && d.Sound() && d.vol.Logical() == old(d.vol.Logical()) && Untouched(d.vol)
    ensures Kindly(d, old(VolumeOf(d)), VolumeOf(d))
  {
    hide Kindly, Volume.Logical;
    Sizes(d);
    KindlySame(d, old(VolumeOf(d)), VolumeOf(d));
  }

  lemma Sizes(d: Dir)
    requires d.Sound()
    ensures d.vol.geo.Valid() && d.vol.Valid() && d.vol.geo.volEnd <= |d.vol.Logical()| && VolumeOf(d) == StateOf(d.vol)
  {
  }

  /** Stretching does not make a loop. */
  lemma LooplessKept(d: Dir, l: seq<Sector>, l': seq<Sector>, h: nat, c: dword)
    requires d.Placed() && d.vol.geo.volEnd <= |l| == |l'| && Stretched(d.vol.geo, l, l', d.First(), h, c) && Loopless(d, d.vol.geo.Fat(l))
    ensures Loopless(d, d.vol.geo.Fat(l'))
  {
    hide ClusterAt, Geometry.Fat, Start, InCluster;
    var g, fat, fat', f := d.vol.geo, d.vol.geo.Fat(l), d.vol.geo.Fat(l'), d.First();
    forall i: nat, j: nat | i < j && Start(g, j) < MAX_DIR && ClusterAt(g, fat', f, j) != 0
      ensures ClusterAt(g, fat', f, i) != ClusterAt(g, fat', f, j)
    {
      if j >= h + 2 {
        EndStays(g, fat', f, h + 2, j);
      }
      assert ClusterAt(g, fat', f, i) == ClusterAt(g, fat, f, i) != c;
    }
  }

  /** Why a table cannot grow: it is a fixed root, it has reached its limit, or no cluster is free. */
  ghost predicate Full(d: Dir)
    requires d.Sound()
    reads d.vol, d.vol.win, d.vol.dev
  {
    d.First() == 0 || |TableOf(d)| == MAX_ENTRIES || NoneLeft(d.vol.AllocState())
  }

  lemma StillHealthy(d: Dir, t: seq<Ent>, x: VolState, y: VolState)
    requires d.Sound() && y == StateOf(d.vol) && Kindly(d, x, y) && t != [] && Grown(t, TableOf(d)) && ChainUsed(d, d.vol.geo.Fat(x.l))
    requires Chains.NoBadEntry(d.vol.geo.Fat(x.l))
    ensures Healthy(d)
  {
    hide ChainUsed, Geometry.Fat, Volume.Logical, Table, Chains.NoBadEntry, Chains.FreeKnown;
  }

  /** dir_next with stretching. */
  method Extend(d: Dir, ghost k: nat) returns (res: FResult)
    requires d.Sound() && On(d, k)
    modifies d, d.vol, d.vol.win, d.vol.dev
    ensures k < old(|TableOf(d)|)
    ensures res == OK || d.vol.dev.reliable ==> d.Sound() && Grown(old(TableOf(d)), TableOf(d)) && (old(Loopless(d, d.Fat())) ==> Loopless(d, d.Fat()))
    ensures res == OK ==> On(d, k + 1) && k + 1 < |TableOf(d)|
    ensures d.vol.dev.reliable && res != OK ==> TableOf(d) == old(TableOf(d)) && |TableOf(d)| == k + 1
    ensures d.vol.dev.reliable ==> Kindly(d, old(VolumeOf(d)), VolumeOf(d))
    ensures res != INVALID_NAME && (d.vol.dev.reliable && (res == DENIED || res == NO_FILE) ==> Full(d))
    ensures d.vol.dev.reliable && old(Healthy(d)) ==> Healthy(d) && (res == OK || res == NO_FILE || res == DENIED)
  {
    hide Volume.Valid, Volume.Logical, Dir.At, Dir.Exists, Table, Geometry.Fat, Geometry.Valid, Geometry.ValidData, Stretched, Granted, Start,
         Grown, Dir.AtLastCluster, NoneLeft, Loopless, Geometry.SameOutsideFat, Tame, ChainUsed, Chains.NoBadEntry;
    ghost var l, t, x, healthy := d.vol.Logical(), TableOf(d), StateOf(d.vol), Healthy(d);
    StandsAt(d, k);
    if healthy {
      LinkHere(d, k);
    }
    d.OnDevice();
    d.Bounds();
    GrownSame(t);
    if !d.Exists(d.Fat(), d.dptr + SZDIRE) {
      EndsAt(d, l, k + 1);
    }
    res := d.Next(true);
    if res == OK || d.vol.dev.reliable {
      d.OnDevice();
      if res != OK {
        TableSame(d, l, d.vol.Logical());
      } else if |t| == k + 1 && d.vol.Logical() != l {
        TableGrown(d, l, d.vol.Logical(), d.hop - 1, d.clust);
        if Loopless(d, d.vol.geo.Fat(l)) {
          LooplessKept(d, l, d.vol.Logical(), d.hop - 1, d.clust);
        }
        if d.vol.dev.reliable && ChainUsed(d, d.vol.geo.Fat(l)) {
          ChainUsedKept(d, x, StateOf(d.vol), d.hop - 1, d.clust);
        }
      }
      if res == OK {
        StandsAt(d, k + 1);
      }
      if d.vol.dev.reliable && healthy {
        StillHealthy(d, t, x, StateOf(d.vol));
      }
    }
  }

  /** dir_alloc on a volume: the first `n` free entries in a row, in a table that is stretched as needed; the object ends at the last of them. */
  method Alloc(d: Dir, n: nat) returns (res: FResult, k: nat)
    requires d.Sound() && n >= 1
    modifies d, d.vol, d.vol.win, d.vol.dev
    ensures res == OK || d.vol.dev.reliable ==> d.Sound() && Grown(old(TableOf(d)), TableOf(d)) && (old(Loopless(d, d.Fat())) ==> Loopless(d, d.Fat()))
    ensures res == OK ==> On(d, k) && k < |TableOf(d)| && n <= k + 1
    ensures res == OK ==> AllFree(TableOf(d), k + 1 - n, n) && NoRoomBelow(TableOf(d), n, k + 1 - n)
    ensures res != NO_FILE && (d.vol.dev.reliable && res != OK ==> NoRoom(TableOf(d), n))
    ensures d.vol.dev.reliable ==> Kindly(d, old(VolumeOf(d)), VolumeOf(d))
    ensures res != INVALID_NAME && (d.vol.dev.reliable && res == DENIED ==> Full(d))
    ensures d.vol.dev.reliable && old(Healthy(d)) ==> Healthy(d) && (res == OK || res == DENIED)
  {
    hide Dir.Sound, TableOf, On, Volume.Logical, Unused, Grown, Full, Seen, AllFree, NoRoomBelow, NoRoom, Loopless, Dir.Fat, Kindly, Healthy,
         Shown, Volume.Valid;
    ghost var t0, x0, healthy := TableOf(d), VolumeOf(d), Healthy(d);
    NotEmpty(d);
    k := 0;
    Sizes(d);
    res := Rewind(d);
    SameTable(d);
    Sizes(d);
    KindlySame(d, x0, VolumeOf(d));
    GrownSame(t0);
    SeenNothing(t0, n);
    var free := 0;
    while res == OK
      invariant res == OK || d.vol.dev.reliable ==> d.Sound() && Grown(t0, TableOf(d)) && (old(Loopless(d, d.Fat())) ==> Loopless(d, d.Fat()))
      invariant res == OK ==> On(d, k) && Seen(TableOf(d), n, k, free)
      invariant d.vol.dev.reliable ==> Kindly(d, x0, VolumeOf(d))
      invariant d.vol.dev.reliable && healthy ==> Healthy(d) && (res == OK || res == NO_FILE || res == DENIED)
      invariant d.vol.dev.reliable && res != OK ==> NoRoom(TableOf(d), n)
      invariant res != INVALID_NAME && (d.vol.dev.reliable && (res == DENIED || res == NO_FILE) ==> Full(d))
      decreases MAX_ENTRIES - k, res == OK
    {
      ghost var t := TableOf(d);
      label L:
      var e;
      res, e := Load(d, k);
      SameTable@L(d);
      if res != OK {
        return;
      }
      SeenBlock(t, n, k, free);
      if Unused(e) {
        free := free + 1;
        if free == n {
          return;
        }
      } else {
        free := 0;
      }
      Sizes(d);
      ghost var y := VolumeOf(d);
      res := Extend(d, k);
      if d.vol.dev.reliable {
        Sizes(d);
        KindlyTrans(d, x0, y, VolumeOf(d));
      }
      k := k + 1;
      if res == OK || d.vol.dev.reliable {
        GrownMore(t0, t, TableOf(d));
        SeenNext(t, TableOf(d), n, k, free);
      }
    }
    if res == NO_FILE {
      res := DENIED;
    }
  }

  /** The search stands at entry `k`. */
  ghost predicate Seen(t: seq<Ent>, n: nat, k: nat, free: nat) {
    k < |t| && Passed(t, n, k, free)
  }

  /** The search has passed the entries below `k`: the last `free` of them are free, and there is no room before those. */
  ghost predicate Passed(t: seq<Ent>, n: nat, k: nat, free: nat) {
    && free <= k <= |t| && free < n && AllFree(t, k - free, free) && NoRoomBelow(t, n, k - free)
    && (free < k ==> !Unused(t[k - free - 1]))
  }

  lemma SeenNothing(t: seq<Ent>, n: nat)
    requires n >= 1
    ensures t == [] ==> NoRoom(t, n)
    ensures t != [] ==> Seen(t, n, 0, 0)
  {
    hide Unused;
  }

  lemma SeenBlock(t: seq<Ent>, n: nat, k: nat, free: nat)
    requires Seen(t, n, k, free)
    ensures Unused(t[k]) && free + 1 == n ==> n <= k + 1 && AllFree(t, k + 1 - n, n) && NoRoomBelow(t, n, k + 1 - n)
    ensures !(Unused(t[k]) && free + 1 == n) ==> Passed(t, n, k + 1, if Unused(t[k]) then free + 1 else 0)
  {
    hide Unused;
    if !Unused(t[k]) {
      Blocked(t, n, k - free, k);
    }
  }

  lemma SeenNext(t: seq<Ent>, u: seq<Ent>, n: nat, k: nat, free: nat)
    requires Passed(t, n, k, free) && Grown(t, u)
    ensures k < |u| ==> Seen(u, n, k, free)
    ensures k == |t| ==> NoRoom(t, n)
  {
    hide Unused;
    FreeKept(t, u, k - free, free);
    RoomKept(t, u, n, k - free);
    if k == |t| {
      NoRoomAtEnd(t, n, k - free, k);
    }
  }

  lemma FreeKept(t: seq<Ent>, u: seq<Ent>, lo: nat, n: nat)
    requires Grown(t, u) && AllFree(t, lo, n)
    ensures AllFree(u, lo, n) && (0 < lo <= |t| ==> u[lo - 1] == t[lo - 1])
  {
    hide Unused;
    forall i | 0 <= i < |t| ensures u[i] == t[i] {
      assert u[i] == u[..|t|][i];
    }
  }
}
