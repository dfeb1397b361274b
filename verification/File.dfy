/** Open files: a pointer, a one-sector write-back buffer and direct transfers over a cluster chain. */
module Files {
  import opened Bytes
  import opened FatTable
  import opened Entries
  import opened Layout
  import opened Devices
  import opened Chains
  import opened ChainSet
  import opened Volumes
  import opened FileSpace
  import opened FileState
  import opened FileDisk
  import Mount

  /** The byte count f_write settles on: a file cannot reach 4 GiB, tested by 32-bit wrap-around. */
  function ClippedLength(fptr: dword, btw: dword): (r: dword)
    ensures r == Min(btw, 0xFFFF_FFFF - fptr)
  {
    WrapTest(fptr, btw);
    if (fptr + btw) % TWO32 < fptr then 0xFFFF_FFFF - fptr else btw
  }

  lemma WrapTest(a: dword, b: dword)
    ensures (a + b) % TWO32 < a <==> a + b >= TWO32
  {
    if a + b >= TWO32 {
      DivModUnique(a + b, TWO32, 1, a + b - TWO32);
    } else {
      DivModUnique(a + b, TWO32, 0, a + b);
    }
  }

  /** Writing the FAT32 information sector, unless disabled, spares the FAT. */
  predicate InfoSafe(g: Geometry, fsiFlag: byte) {
    g.ty == FAT32 && fsiFlag / 0x80 == 0 ==> g.volbase + 1 < g.fatbase
  }

  class File {
    const fs: Volume
    const buf: array<byte>
    const canRead: bool
    const canWrite: bool
    const dirSect: dword
    const dirOfs: nat
    var sclust: dword
    var objsize: dword
    var fptr: dword
    var clust: dword
    var sect: dword
    var modified: bool
    var dirty: bool
    var err: FResult
    /** The clusters of the file, in order. */
    ghost var chain: seq<nat>
    /** The clusters at the disposal of the file: its own and the free ones. */
    ghost const own: set<nat>
    /** The logical disk as it was when the file was opened. */
    ghost const base: seq<Sector>
    /** Whether the information sector is in use. */
    ghost const informed: bool

    ghost predicate Env()
      reads fs, fs.win, fs.dev
    {
      && fs.Valid() && fs.geo.ValidData() && fs.dev.reliable
      && buf.Length == SS && buf != fs.win
      && FreeKnown(fs.AllocState())
      && (fs.winsect == NOSECT || !OwnSector(fs.geo, own, fs.winsect))
      && EntryPlaced(fs.geo, own, dirSect, dirOfs) && InfoSafe(fs.geo, fs.fsiFlag)
      && Kept(fs.geo, own, dirSect, dirOfs, base, fs.Logical()) && InfoTells(fs.geo, fs.Logical(), fs.freeClst, fs.fsiFlag)
      && (if informed then fs.fsiFlag <= 1 else fs.fsiFlag >= 0x80)
    }

    ghost function State(): (st: Snap)
      requires Env()
      reads this, buf, fs, fs.win, fs.dev
    {
      Snap(fs.Logical(), chain, sclust, objsize, fptr, clust, sect, dirty, buf[..])
    }

    ghost predicate Ok()
      reads this, buf, fs, fs.win, fs.dev
    {
      Env() && Core(fs.geo, own, State())
    }

    /** The invariant between operations. */
    ghost predicate Valid()
      reads this, buf, fs, fs.win, fs.dev
    {
      Ok() && Placed(fs.geo, State()) && (modified || Synced())
    }

    /** Nothing is waiting to be written. */
    ghost predicate Quiet()
      reads this`dirty, fs`wflag, fs`fsiFlag
    {
      !dirty && !fs.wflag && fs.fsiFlag != 1
    }

    /** The device alone holds the file. */
    ghost predicate Synced()
      requires Ok()
      reads this, buf, fs, fs.win, fs.dev
    {
      Quiet() && DiskFile(fs.geo, fs.dev.sectors, dirSect, dirOfs, chain, Contents())
    }

    /** The contents of the file, whatever is still in the buffers. */
    ghost function Contents(): (r: seq<byte>)
      requires Ok()
      reads this, buf, fs, fs.win, fs.dev
      ensures |r| == objsize
    {
      Content(fs.geo, State())
    }

    ghost function Room(): int
    {
      Capacity(fs.geo, own)
    }

    /** A buffered sector is a data sector outside the window. */
    lemma OwnOutsideWindow(s: int)
      requires Env() && OwnSector(fs.geo, own, s)
      ensures fs.geo.database <= s < |fs.dev.sectors| && fs.winsect != s
    {
    }

    /** Changes that keep to the file keep the invariant about the rest of the disk. */
    lemma Carried(l: seq<Sector>, free: dword, flag: byte)
      requires fs.Valid() && Kept(fs.geo, own, dirSect, dirOfs, base, l) && Kept(fs.geo, own, dirSect, dirOfs, l, fs.Logical())
      requires InfoTells(fs.geo, l, free, flag) && InfoSafe(fs.geo, fs.fsiFlag)
      requires fs.fsiFlag == 0 ==> flag == 0 && fs.freeClst == free
      requires fs.geo.volbase + 1 < fs.geo.fatbase && fs.geo.volbase + 1 < |l| && |fs.Logical()| == |l| ==> fs.Logical()[fs.geo.volbase + 1] == l[fs.geo.volbase + 1]
      ensures Kept(fs.geo, own, dirSect, dirOfs, base, fs.Logical()) && InfoTells(fs.geo, fs.Logical(), fs.freeClst, fs.fsiFlag)
    {
      hide Kept, InfoTells, Volume.Logical;
      KeptTrans(fs.geo, own, dirSect, dirOfs, base, l, fs.Logical());
      KeptLength(fs.geo, own, dirSect, dirOfs, l, fs.Logical());
      if fs.fsiFlag == 0 {
        InfoStays(fs.geo, l, fs.Logical(), free, flag);
      } else {
        InfoPending(fs.geo, fs.Logical(), fs.freeClst, fs.fsiFlag);
      }
    }

    /** What was kept since the file was opened was kept by the last operation. */
    lemma Between(l: seq<Sector>)
      requires Env() && Kept(fs.geo, own, dirSect, dirOfs, base, l)
      ensures Kept(fs.geo, own, dirSect, dirOfs, l, fs.Logical())
    {
      hide Kept, Volume.Logical;
      KeptBetween(fs.geo, own, dirSect, dirOfs, base, l, fs.Logical());
    }

    /** Write back the buffer if it is dirty. */
    method FlushBuffer() returns (ok: bool)
      requires Ok()
      modifies this`dirty, fs.dev
      ensures Ok() && ok
      ensures State() == old(State().(l := View(State()), dirty := false))
      ensures old(!dirty) ==> fs.dev.sectors == old(fs.dev.sectors)
    {
      hide Kept, InfoTells, Volume.Valid, Volume.Logical, Volume.MirrorInSync, Geometry.Fat, Geometry.Valid, Geometry.ValidData;
      hide ChainOk, Owns, NoBadEntry, OwnSector, FileSector, FreeKnown, SizeOk, DiskOk, RunWritten;
      ok := true;
      ghost var st := State();
      if dirty {
        FlushCore(fs.geo, own, st);
        OwnOutsideWindow(sect);
        ok := fs.WriteData(buf, 0, sect, 1);
        dirty := false;
        assert buf[0..0 + SS * 1] == buf[..];
        RunOfOne(st.l, fs.Logical(), sect, buf[..]);
        OwnWritten(st.l);
      }
    }

    /** Data written to sectors at the file's disposal. */
    lemma OwnWritten(l: seq<Sector>)
      requires fs.Valid() && fs.geo.ValidData() && EntryPlaced(fs.geo, own, dirSect, dirOfs) && InfoSafe(fs.geo, fs.fsiFlag)
      requires Kept(fs.geo, own, dirSect, dirOfs, base, l) && InfoTells(fs.geo, l, fs.freeClst, fs.fsiFlag)
      requires |l| == |fs.Logical()| && forall s :: 0 <= s < |l| && !OwnSector(fs.geo, own, s) ==> fs.Logical()[s] == l[s]
      ensures Kept(fs.geo, own, dirSect, dirOfs, base, fs.Logical()) && InfoTells(fs.geo, fs.Logical(), fs.freeClst, fs.fsiFlag)
    {
      hide Kept, InfoTells, Volume.Logical, OwnSector;
      KeptOwn(fs.geo, own, dirSect, dirOfs, l, fs.Logical());
      Carried(l, fs.freeClst, fs.fsiFlag);
    }

    /** Write back the buffer if it is dirty: the contents stay. */
    method WriteBack()
      requires Ok() && Placed(fs.geo, State())
      modifies this`dirty, fs.dev
      ensures Ok() && Placed(fs.geo, State()) && !dirty && Contents() == old(Contents())
      ensures State() == old(State().(l := View(State()), dirty := false))
      ensures old(!dirty) ==> fs.dev.sectors == old(fs.dev.sectors)
    {
      hide Kept, InfoTells, Volume.Valid, Volume.Logical, Volume.MirrorInSync, OwnSector, FreeKnown, FileBytes, Core, Placed;
      ghost var st := State();
      FlushCore(fs.geo, own, st);
      var _ := FlushBuffer();
      PlacedKept(fs.geo, st, State());
    }

    /** FAT accesses leave the window outside the file's sectors. */
    lemma WindowStaysOut(ws: dword)
      requires fs.Valid() && fs.geo.ValidData() && (ws == NOSECT || !OwnSector(fs.geo, own, ws))
      requires fs.winsect == ws || fs.geo.InFat1(fs.winsect) || fs.winsect == NOSECT
      ensures fs.winsect == NOSECT || !OwnSector(fs.geo, own, fs.winsect)
    {
      if fs.geo.InFat1(fs.winsect) {
        FatNotOwn(fs.geo, own, fs.winsect);
      }
    }

    lemma AllocFacts()
      requires Ok()
      ensures var a := fs.AllocState();
              && 3 <= |a.fat| <= Eoc(fs.geo.ty) && NoBadEntry(a.fat) && FreeKnown(a)
              && (chain == [] || IsChain(a.fat, chain))
    {
      hide Kept, InfoTells, Volume.Logical, Geometry.Fat, OwnSector, FileSector, IsChain, FreeKnown;
    }

    /** create_chain for this file after cluster `c`, the one before position `i`: follow the chain or stretch it; 0 if full. */
    method FollowChain(c: dword, ghost i: nat) returns (clst: dword)
      requires Ok() && BeforePos(chain, c, i)
      modifies this`sclust, this`chain, fs, fs.win, fs.dev
      ensures Ok() && Contents() == old(Contents())
      ensures clst == 0 ==> chain == old(chain) && i == |chain| && ClusterStart(fs.geo, i) == Room()
      ensures clst != 0 ==> i < |chain| && chain[i] == clst && chain == if i < |old(chain)| then old(chain) else old(chain) + [clst]
      ensures clst != 1 && clst != 0xFFFF_FFFF
      ensures old(Quiet()) && chain == old(chain) ==> Quiet() && fs.dev.sectors == old(fs.dev.sectors)
    {
      hide Kept, InfoTells, Volume.Valid, Volume.Logical, Volume.MirrorInSync, Geometry.Fat, Geometry.Valid, Geometry.ValidData;
      hide OwnSector, FileSector, FreeKnown, Create, Content, FileBytes, Core, ClusterStart, Capacity, NoBadEntry, IsChain;
      ghost var st, a, ws := State(), fs.AllocState(), fs.winsect;
      AllocFacts();
      StartCluster(fs.geo, own, st);
      FollowOrStretch(a, Eoc(fs.geo.ty), chain, c, i);
      if 0 < i < |chain| {
        Follow(a.fat, chain, i - 1);
      }
      clst := fs.CreateChain(c);
      WindowStaysOut(ws);
      if i < |chain| || clst == 0 {
        TableKept(st.l, old(fs.freeClst), old(fs.fsiFlag));
      } else {
        Stretched(a, Eoc(fs.geo.ty), chain, clst);
        ChainKept(st, old(fs.freeClst), old(fs.fsiFlag), chain + [clst]);
      }
      if i < |chain| || clst == 0 {
        KeepCore(fs.geo, own, st, fs.Logical());
      } else {
        GrowCore(fs.geo, own, st, fs.Logical(), a, fs.AllocState(), Eoc(fs.geo.ty), clst);
        chain := chain + [clst];
      }
      if c == 0 {
        sclust := clst;
      }
      if clst == 0 {
        FullCapacity(fs.geo, own, State());
      }
    }

    /** Table entries of other clusters stay. */
    lemma TableKept(l: seq<Sector>, free: dword, flag: byte)
      requires fs.Valid() && EntryPlaced(fs.geo, own, dirSect, dirOfs) && InfoSafe(fs.geo, fs.fsiFlag)
      requires Kept(fs.geo, own, dirSect, dirOfs, base, l) && InfoTells(fs.geo, l, free, flag)
      requires fs.geo.SameOutsideFat(l, fs.Logical()) && (fs.fsiFlag == 0 ==> flag == 0 && fs.freeClst == free)
      requires forall c :: 0 <= c < fs.geo.nFatent && c !in own ==> fs.geo.Fat(fs.Logical())[c] == fs.geo.Fat(l)[c]
      ensures Kept(fs.geo, own, dirSect, dirOfs, base, fs.Logical()) && InfoTells(fs.geo, fs.Logical(), fs.freeClst, fs.fsiFlag)
    {
      hide Kept, InfoTells, Volume.Logical, Geometry.Fat;
      KeptFat(fs.geo, own, dirSect, dirOfs, l, fs.Logical());
      Carried(l, free, flag);
    }

    /** A change of the file's chain. */
    lemma ChainKept(st: Snap, free: dword, flag: byte, t: seq<nat>)
      requires fs.Valid() && EntryPlaced(fs.geo, own, dirSect, dirOfs) && InfoSafe(fs.geo, fs.fsiFlag) && Core(fs.geo, own, st)
      requires Kept(fs.geo, own, dirSect, dirOfs, base, st.l) && InfoTells(fs.geo, st.l, free, flag)
      requires fs.geo.SameOutsideFat(st.l, fs.Logical()) && (fs.fsiFlag == 0 ==> flag == 0 && fs.freeClst == free)
      requires TurnsInto(fs.geo.Fat(st.l), fs.geo.Fat(fs.Logical()), st.chain, t)
      ensures Kept(fs.geo, own, dirSect, dirOfs, base, fs.Logical()) && InfoTells(fs.geo, fs.Logical(), fs.freeClst, fs.fsiFlag)
    {
      hide Kept, InfoTells, Volume.Logical, Geometry.Fat, Owns, TurnsInto, IsChain, CacheOk, SizeOk;
      TurnsKept(own, fs.geo.Fat(st.l), fs.geo.Fat(fs.Logical()), st.chain, t);
      TableKept(st.l, free, flag);
    }

    /** f_write at the start of cluster `i`: the cluster to write to, 0 if the volume is full. */
    method EnterWriteCluster(ghost i: nat) returns (clst: dword)
      requires Ok() && Placed(fs.geo, State()) && fptr == ClusterStart(fs.geo, i)
      modifies this`clust, this`sclust, this`chain, fs, fs.win, fs.dev
      ensures Ok() && Contents() == old(Contents())
      ensures clst == 0 ==> fptr == Room() && Placed(fs.geo, State())
      ensures clst != 0 ==> i < |chain| && chain[i] == clust
      ensures clst != 1 && clst != 0xFFFF_FFFF
    {
      hide Kept, InfoTells, Volume.Valid, Volume.Logical, Volume.MirrorInSync, Geometry.Fat, Geometry.Valid, Geometry.ValidData;
      hide OwnSector, FileSector, FreeKnown, Content, FileBytes, Core, ClusterStart, Capacity, Placed;
      ghost var st := State();
      StartCluster(fs.geo, own, st);
      BoundaryCluster(fs.geo, own, st, i);
      if fptr == 0 {
        clst := sclust;
        if clst == 0 {
          clst := FollowChain(0, 0);
        }
      } else {
        clst := FollowChain(clust, i);
      }
      if clst == 0 {
        PlacedKept(fs.geo, st, State());
        return;
      }
      AnyCluster(fs.geo, own, State(), clst);
      clust := clst;
    }

    /** The run of sectors of a direct transfer avoids the window. */
    lemma RunOutsideWindow(m: nat, cc: nat)
      requires Ok() && ClusterAt(fs.geo, chain, m, clust) && 0 < cc && m % fs.geo.csize + cc <= fs.geo.csize
      ensures var s := FileSector(fs.geo, chain, m);
              && fs.geo.Clst2Sect(clust) != 0 && fs.geo.Clst2Sect(clust) + m % fs.geo.csize == s
              && fs.geo.database <= s && s + cc <= |fs.dev.sectors| < TWO32 && !(s <= fs.winsect < s + cc)
    {
      hide Kept, InfoTells, Volume.Logical, Geometry.Fat, ChainOk, Owns, FileSector, Geometry.Clst2Sect;
      var s := FileSector(fs.geo, chain, m);
      CurrentSector(fs.geo, own, fs.Logical(), chain, sclust, m, clust);
      RunIsOwn(fs.geo, own, fs.Logical(), chain, sclust, m, cc, s);
      RunIsOwn(fs.geo, own, fs.Logical(), chain, sclust, m, cc, s + cc - 1);
      if s <= fs.winsect < s + cc {
        RunIsOwn(fs.geo, own, fs.Logical(), chain, sclust, m, cc, fs.winsect);
      }
    }

    /** Refill the sector buffer if a direct write of `cc` sectors at `s` went over it. */
    method RefillBuffer(src: array<byte>, off: nat, s: dword, cc: nat)
      requires buf.Length == SS && src != buf && off + SS * cc <= src.Length && s + cc <= TWO32 && !dirty
      modifies this`dirty, buf
      ensures !dirty
      ensures buf[..] == if s <= sect < s + cc then Chunk(src[off..off + SS * cc], sect - s) else old(buf[..])
    {
      hide Kept, InfoTells, Sub32, Chunk;
      if s <= sect < s + cc {
        ChunkOfSlice(src[..], off, cc, sect - s);
      }
      Sub32InRange(sect, s, cc);
      if Sub32(sect, s) < cc {
        CopyBytes(buf, 0, src, off + (sect - s) * SS, SS);
        dirty := false;
      }
    }

    /** f_write: whole sectors straight from the caller's buffer, and the sector buffer refilled if it was overwritten. */
    method WriteDirect(src: array<byte>, off: nat, ghost m: nat, csect: nat, cc: nat)
      requires Ok() && !dirty && src != buf && src != fs.win
      requires fptr == SS * m && csect == m % fs.geo.csize && ClusterAt(fs.geo, chain, m, clust)
      requires 0 < cc && csect + cc <= fs.geo.csize && off + SS * cc <= src.Length && fptr + SS * cc < TWO32
      modifies this`fptr, this`objsize, this`dirty, buf, fs.dev
      ensures Ok() && Placed(fs.geo, State())
      ensures fptr == old(fptr) + SS * cc
      ensures Contents() == Splice(old(Contents()), old(fptr), src[off..off + SS * cc])
    {
      hide Kept, InfoTells, Volume.Valid, Volume.Logical, Volume.MirrorInSync, Geometry.Fat, Geometry.Valid, Geometry.ValidData, Geometry.Clst2Sect;
      hide OwnSector, FileSector, FreeKnown, Core, FileBytes, Chunk, RunWritten, ClusterAt, Placed, Splice;
      ghost var st := State();
      ghost var d := src[off..off + SS * cc];
      RunOutsideWindow(m, cc);
      var s := fs.geo.Clst2Sect(clust) + csect;
      var _ := fs.WriteData(src, off, s, cc);
      RefillBuffer(src, off, s, cc);
      RunKept(st, m, cc, d);
      DirectCore(fs.geo, own, st, fs.Logical(), buf[..], m, cc, d);
      fptr := fptr + SS * cc;
      objsize := if fptr > objsize then fptr else objsize;
    }

    lemma RunKept(st: Snap, m: nat, cc: nat, d: seq<byte>)
      requires fs.Valid() && fs.geo.ValidData() && EntryPlaced(fs.geo, own, dirSect, dirOfs) && InfoSafe(fs.geo, fs.fsiFlag)
      requires Kept(fs.geo, own, dirSect, dirOfs, base, st.l) && InfoTells(fs.geo, st.l, fs.freeClst, fs.fsiFlag)
      requires Core(fs.geo, own, st) && ClusterAt(fs.geo, st.chain, m, clust) && 0 < cc && m % fs.geo.csize + cc <= fs.geo.csize
      requires RunWritten(st.l, fs.Logical(), FileSector(fs.geo, st.chain, m), cc, d)
      ensures Kept(fs.geo, own, dirSect, dirOfs, base, fs.Logical()) && InfoTells(fs.geo, fs.Logical(), fs.freeClst, fs.fsiFlag)
    {
      hide Kept, InfoTells, Volume.Logical, OwnSector, Geometry.Fat, Geometry.Valid, Geometry.ValidData, DiskOk, ChainOk, Owns, FileSector, Chunk;
      var s := FileSector(fs.geo, st.chain, m);
      forall t | s <= t < s + cc ensures OwnSector(fs.geo, own, t) {
        RunIsOwn(fs.geo, own, st.l, st.chain, st.sclust, m, cc, t);
      }
      OwnWritten(st.l);
    }

    /** What the buffer holds of the sector the pointer is in. */
    lemma BufferShows(m: nat, o: nat)
      requires Ok() && fptr == SS * m + o && o < SS && ClusterAt(fs.geo, chain, m, clust)
      ensures HasSector(fs.geo, chain, m) && (o != 0 ==> sect == FileSector(fs.geo, chain, m))
      ensures sect == FileSector(fs.geo, chain, m) ==> sect < |fs.Logical()| && buf[..] == View(State())[sect]
      ensures sect == FileSector(fs.geo, chain, m) ==> Loaded(fs.geo, State(), buf[..], m, o)
    {
      hide Kept, InfoTells, Volume.Valid, Volume.Logical, Geometry.Fat, Geometry.Valid, ChainOk, Owns, OwnSector, FileSector, FreeKnown;
      DivModUnique(fptr, SS, m, o);
      FileSectorIsOwn(fs.geo, own, fs.Logical(), chain, sclust, m);
    }

    lemma SectorOutsideWindow(m: nat)
      requires Ok() && ClusterAt(fs.geo, chain, m, clust)
      ensures HasSector(fs.geo, chain, m)
      ensures var s := FileSector(fs.geo, chain, m);
              && fs.geo.csize > 0 && fs.geo.Clst2Sect(clust) != 0 && fs.geo.Clst2Sect(clust) + m % fs.geo.csize == s
              && fs.geo.database <= s && s + 1 <= |fs.dev.sectors| < TWO32 && s != fs.winsect
    {
      hide Kept, InfoTells, Volume.Logical, Geometry.Fat, ChainOk, Owns, FileSector, Geometry.Clst2Sect;
      assert m % fs.geo.csize + 1 <= fs.geo.csize;
      RunOutsideWindow(m, 1);
    }

    /** f_write at a sector boundary: make the buffer the current sector, filled only if the file has data there. */
    method LoadForWrite(csect: nat, ghost m: nat)
      requires Ok() && fptr == SS * m && !dirty && ClusterAt(fs.geo, chain, m, clust) && csect == m % fs.geo.csize
      modifies this`sect, buf
      ensures Env() && fs.Logical() == old(fs.Logical())
      ensures sect == FileSector(fs.geo, chain, m) && Loaded(fs.geo, old(State()), buf[..], m, 0)
    {
      hide Kept, InfoTells, Volume.Valid, Volume.Logical, Volume.MirrorInSync, Geometry.Fat, Geometry.Valid, Geometry.ValidData, Geometry.Clst2Sect;
      hide OwnSector, FileSector, FreeKnown, Core, Content, ClusterAt;
      BufferShows(m, 0);
      SectorOutsideWindow(m);
      var s := fs.geo.Clst2Sect(clust) + csect;
      if sect != s && fptr < objsize {
        var _ := fs.ReadData(buf, 0, s, 1);
        LoadedSector(old(buf[..]), buf[..], fs.Logical(), s);
      }
      sect := s;
    }

    /** f_write: up to a sector through the buffer. */
    method WriteBuffered(src: array<byte>, off: nat, n: nat, csect: nat, ghost m: nat, o: nat)
      requires Ok() && src != buf && src != fs.win
      requires fptr == SS * m + o && o < SS && (o == 0 ==> !dirty && csect == m % fs.geo.csize) && ClusterAt(fs.geo, chain, m, clust)
      requires 0 < n <= SS - o && off + n <= src.Length && fptr + n < TWO32
      modifies this`fptr, this`objsize, this`dirty, this`sect, buf
      ensures Ok() && Placed(fs.geo, State())
      ensures fptr == old(fptr) + n
      ensures Contents() == Splice(old(Contents()), old(fptr), src[off..off + n])
    {
      hide Kept, InfoTells, Volume.Valid, Volume.Logical, Volume.MirrorInSync, Geometry.Fat, Geometry.Valid, Geometry.ValidData;
      hide EntryPlaced, InfoSafe, DiskFile, OwnSector, FileSector, FreeKnown, Core, Content, ClusterAt, Placed, Splice;
      ghost var st := State();
      BufferShows(m, o);
      if o == 0 {
        LoadForWrite(csect, m);
      }
      ghost var w := buf[..];
      CopyBytes(buf, o, src, off, n);
      dirty := true;
      PatchCore(fs.geo, own, st, w, m, o, src[off..off + n]);
      fptr := fptr + n;
      objsize := if fptr > objsize then fptr else objsize;
    }

    lemma Bounds()
      requires Ok()
      ensures fs.geo.csize > 0 && fptr <= objsize
    {
    }

    /** f_write at a sector boundary: enter the next cluster if needed and write back the buffer; false if the volume is full. */
    method EnterWriteSector(csect: nat, ghost m: nat) returns (more: bool)
      requires Ok() && Placed(fs.geo, State()) && fptr == SS * m && fs.geo.csize > 0 && csect == m % fs.geo.csize
      modifies this`clust, this`sclust, this`chain, this`dirty, fs, fs.win, fs.dev
      ensures Ok() && Contents() == old(Contents())
      ensures !more ==> Placed(fs.geo, State()) && fptr == Room()
      ensures more ==> !dirty && ClusterAt(fs.geo, chain, m, clust)
    {
      hide Kept, InfoTells, Volume.Valid, Volume.Logical, Volume.MirrorInSync, Geometry.Fat, Geometry.Valid, Geometry.ValidData;
      hide OwnSector, FileSector, FreeKnown, Core, FileBytes, Placed, Capacity, View, ClusterStart;
      if csect == 0 {
        DivModUnique(fptr, SS, m, 0);
        AtBoundary(fs.geo, fptr);
        var clst := EnterWriteCluster(m / fs.geo.csize);
        if clst == 0 {
          return false;
        }
      } else {
        InsideCluster(fs.geo, State(), m, 0);
      }
      ghost var st := State();
      var _ := FlushBuffer();
      FlushCore(fs.geo, own, st);
      more := true;
    }

    /** One turn of the f_write loop: the number of bytes written, 0 if the volume is full. */
    method WriteStep(src: array<byte>, off: nat, btw: nat) returns (wcnt: nat)
      requires Ok() && Placed(fs.geo, State()) && src != buf && src != fs.win
      requires 0 < btw && off + btw <= src.Length && fptr + btw < TWO32
      modifies this`clust, this`sclust, this`chain, this`dirty, this`sect, this`fptr, this`objsize, buf, fs, fs.win, fs.dev
      ensures Ok() && Placed(fs.geo, State())
      ensures wcnt <= btw && fptr == old(fptr) + wcnt
      ensures wcnt == 0 ==> fptr == Room()
      ensures Contents() == Splice(old(Contents()), old(fptr), src[off..off + wcnt])
    {
      hide Kept, InfoTells, Volume.Valid, Volume.Logical, Volume.MirrorInSync, Geometry.Fat, Geometry.Valid, Geometry.ValidData;
      hide EntryPlaced, InfoSafe, DiskFile, OwnSector, FileSector, FreeKnown, Core, Content, Placed, Capacity, ClusterAt, Splice, SecNo, SecOfs;
      Bounds();
      var csize := fs.geo.csize;
      var csect := 0;
      var m, o := SecNo(fptr), SecOfs(fptr);
      if o == 0 {
        csect := m % csize;
        var more := EnterWriteSector(csect, m);
        if !more {
          SpliceNothing(Contents(), fptr, src[off..off + 0]);
          return 0;
        }
        var cc := btw / SS;
        if cc > 0 {
          if csect + cc > csize {
            cc := csize - csect;
          }
          WriteDirect(src, off, m, csect, cc);
          return SS * cc;
        }
      } else {
        InsideCluster(fs.geo, State(), m, o);
      }
      wcnt := SS - o;
      if wcnt > btw {
        wcnt := btw;
      }
      WriteBuffered(src, off, wcnt, csect, m, o);
    }

    lemma InsideRoom()
      requires Ok()
      ensures fptr <= objsize <= Room()
    {
      hide Kept, InfoTells, Volume.Logical, Geometry.Fat, ChainOk, Owns, CacheOk, DiskOk;
      WithinCapacity(fs.geo, own, State());
    }

    /** The f_write loop: all of `total` bytes, or as many as there is room for. */
    method WriteAll(src: array<byte>, total: nat) returns (bw: nat)
      requires Ok() && Placed(fs.geo, State()) && src != buf && src != fs.win
      requires total <= src.Length && fptr + total < TWO32
      modifies this`clust, this`sclust, this`chain, this`dirty, this`sect, this`fptr, this`objsize, buf, fs, fs.win, fs.dev
      ensures Ok() && Placed(fs.geo, State())
      ensures bw == Min(total, Room() - old(fptr)) && fptr == old(fptr) + bw
      ensures Contents() == Splice(old(Contents()), old(fptr), src[..bw])
    {
      hide Kept, InfoTells, Volume.Valid, Volume.Logical, Volume.MirrorInSync, Geometry.Fat, Geometry.Valid, Geometry.ValidData;
      hide OwnSector, FileSector, FreeKnown, Core, Content, Placed, Capacity, ClusterAt, Splice, File.Room;
      InsideRoom();
      bw := 0;
      ghost var c0, p0 := Contents(), fptr;
      SpliceNothing(c0, p0, src[..0]);
      while bw < total
        invariant Ok() && Placed(fs.geo, State())
        invariant bw <= total && fptr == p0 + bw && fptr <= Room()
        invariant Contents() == Splice(c0, p0, src[..bw])
      {
        var wcnt := WriteStep(src, bw, total - bw);
        if wcnt == 0 {
          SpliceNothing(Splice(c0, p0, src[..bw]), fptr, src[bw..bw + 0]);
          return;
        }
        InsideRoom();
        SpliceNext(c0, p0, src[..], bw, wcnt);
        bw := bw + wcnt;
      }
    }

    /** f_write */
    method Write(src: array<byte>, len: dword) returns (res: FResult, bw: nat)
      requires Valid() && len <= src.Length && src != buf && src != fs.win
      modifies this, buf, fs, fs.win, fs.dev
      ensures Valid() && err == old(err)
      ensures Kept(fs.geo, own, dirSect, dirOfs, old(fs.Logical()), fs.Logical())
      ensures res == if err != OK then err else if !canWrite then DENIED else OK
      ensures res != OK ==> bw == 0
      ensures res == OK ==> bw == Min(Min(len, 0xFFFF_FFFF - old(fptr)), Room() - old(fptr))
      ensures fptr == old(fptr) + bw && Contents() == Splice(old(Contents()), old(fptr), src[..bw])
    {
      hide Kept, InfoTells, Volume.Valid, Volume.Logical, Volume.MirrorInSync, Geometry.Fat, Geometry.Valid, Geometry.ValidData;
      hide OwnSector, FileSector, FreeKnown, Core, Content, Placed, Capacity, ClusterAt, Splice, File.Room, ClippedLength;
      bw := 0;
      Bounds();
      SpliceNothing(Contents(), fptr, src[..0]);
      if err != OK {
        Between(old(fs.Logical()));
        return err, bw;
      }
      if !canWrite {
        Between(old(fs.Logical()));
        return DENIED, bw;
      }
      var btw := ClippedLength(fptr, len);
      bw := WriteAll(src, btw);
      modified := true;
      res := OK;
      Between(old(fs.Logical()));
    }

    /** f_read at the start of cluster `i`, before the end of the file: follow the chain. */
    method EnterReadCluster(ghost i: nat) returns (clst: dword)
      requires Ok() && Placed(fs.geo, State()) && fptr == ClusterStart(fs.geo, i) && fptr < objsize
      modifies this`clust, fs, fs.win, fs.dev
      ensures Ok() && Contents() == old(Contents()) && fs.freeClst == old(fs.freeClst)
      ensures i < |chain| && chain[i] == clust == clst && 2 <= clst < 0xFFFF_FFFF
      ensures old(Quiet()) ==> Quiet() && fs.dev.sectors == old(fs.dev.sectors)
    {
      hide Kept, InfoTells, Volume.Valid, Volume.Logical, Volume.MirrorInSync, Geometry.Fat, Geometry.Valid, Geometry.ValidData;
      hide OwnSector, FileSector, FreeKnown, Content, FileBytes, Core, ClusterStart, Placed, IsChain;
      ghost var st, ws := State(), fs.winsect;
      NextInChain(i);
      if fptr == 0 {
        clst := sclust;
      } else {
        clst := fs.GetFat(clust);
      }
      WindowStaysOut(ws);
      AnyCluster(fs.geo, own, State(), clst);
      clust := clst;
    }

    lemma NextInChain(i: nat)
      requires Ok() && Placed(fs.geo, State()) && fptr == ClusterStart(fs.geo, i) && fptr < objsize
      ensures i < |chain| && 2 <= chain[i] < 0xFFFF_FFFF
      ensures if fptr == 0 then sclust == chain[i] else fs.geo.IsCluster(clust) && fs.geo.Fat(fs.Logical())[clust] == chain[i]
    {
      hide Kept, InfoTells, Volume.Logical, Geometry.Fat, OwnSector, FileSector, FreeKnown, Placed, IsChain, CacheOk, Owns;
      var g, st := fs.geo, State();
      StartCluster(g, own, st);
      BoundaryCluster(g, own, st, i);
      if i >= |chain| {
        MulMono(g.csize, |chain|, i);
      }
      Follow(g.Fat(st.l), chain, i);
      if i > 0 {
        Follow(g.Fat(st.l), chain, i - 1);
      }
    }

    /** f_read: whole sectors straight into the caller's buffer, with the dirty sector laid over them. */
    method ReadDirect(dst: array<byte>, off: nat, ghost m: nat, csect: nat, cc: nat)
      requires Ok() && dst != buf && dst != fs.win
      requires fptr == SS * m && csect == m % fs.geo.csize && ClusterAt(fs.geo, chain, m, clust)
      requires 0 < cc && csect + cc <= fs.geo.csize && off + SS * cc <= dst.Length && fptr + SS * cc <= objsize
      modifies this`fptr, dst
      ensures Ok() && Placed(fs.geo, State()) && Contents() == old(Contents())
      ensures fptr == old(fptr) + SS * cc
      ensures dst[..] == Splice(old(dst[..]), off, Contents()[old(fptr)..fptr])
    {
      hide Kept, InfoTells, Volume.Valid, Volume.Logical, Volume.MirrorInSync, Geometry.Fat, Geometry.Valid, Geometry.ValidData, Geometry.Clst2Sect;
      hide EntryPlaced, InfoSafe, DiskFile, OwnSector, FileSector, FreeKnown, Core, Content, FileBytes, RunData, Sub32, Placed, Splice, SecNo, SecOfs;
      ghost var st, b := State(), dst[..];
      RunOutsideWindow(m, cc);
      RunIsContent(fs.geo, own, st, m, cc);
      var s := fs.geo.Clst2Sect(clust) + csect;
      var _ := fs.ReadData(dst, off, s, cc);
      Sub32InRange(sect, s, cc);
      if dirty && Sub32(sect, s) < cc {
        PatchRun(st.l, s, cc, sect, buf[..], b, off);
        CopyBytes(dst, off + (sect - s) * SS, buf, 0, SS);
        assert buf[0..0 + SS] == buf[..];
      } else {
        SameRunData(View(st), st.l, s, cc);
      }
      ReadMoved(m, cc);
      fptr := fptr + SS * cc;
    }

    lemma ReadMoved(m: nat, cc: nat)
      requires Ok() && fptr == SS * m && ClusterAt(fs.geo, chain, m, clust)
      requires 0 < cc && m % fs.geo.csize + cc <= fs.geo.csize && fptr + SS * cc <= objsize
      ensures var st := State().(fptr := fptr + SS * cc);
              Core(fs.geo, own, st) && Placed(fs.geo, st) && Content(fs.geo, st) == Contents()
    {
      hide Kept, InfoTells, Volume.Valid, Volume.Logical, Volume.MirrorInSync, Geometry.Fat, Geometry.Valid, Core, Content, FileSector, FreeKnown;
      DivModUnique(fptr + SS * cc, SS, m + cc, 0);
      RunEnd(fs.geo, chain, m, cc, clust, fptr + SS * cc);
      MoveCore(fs.geo, own, State(), fptr + SS * cc);
    }

    /** Make the buffer the current sector: write it back if dirty, then load. */
    method LoadSector(s: dword, ghost m: nat)
      requires Ok() && HasSector(fs.geo, chain, m) && s == FileSector(fs.geo, chain, m) && SecOfs(fptr) == 0
      requires s != sect && fs.geo.database <= s < |fs.dev.sectors| && s != fs.winsect
      modifies this`dirty, this`sect, buf, fs.dev
      ensures Ok() && sect == s && Contents() == old(Contents()) && !dirty
      ensures old(Quiet()) ==> Quiet() && fs.dev.sectors == old(fs.dev.sectors)
    {
      hide Kept, InfoTells, Volume.Valid, Volume.Logical, Volume.MirrorInSync, Geometry.Fat, Geometry.Valid, Geometry.ValidData;
      hide OwnSector, FileSector, FreeKnown, Core, FileBytes, Splice, RunData, View, HasSector, SecOfs;
      FlushCore(fs.geo, own, State());
      var _ := FlushBuffer();
      ghost var st, b := State(), buf[..];
      LoadCore(fs.geo, own, st, m);
      var _ := fs.ReadData(buf, 0, s, 1);
      LoadedSector(b, buf[..], fs.Logical(), s);
      sect := s;
    }

    /** f_read: part of a sector out of the buffer. */
    method ReadBuffered(dst: array<byte>, off: nat, n: nat, csect: nat, ghost m: nat, o: nat)
      requires Ok() && dst != buf && dst != fs.win
      requires fptr == SS * m + o && o < SS && (o == 0 ==> csect == m % fs.geo.csize) && ClusterAt(fs.geo, chain, m, clust)
      requires 0 < n <= SS - o && off + n <= dst.Length && fptr + n <= objsize
      modifies this`fptr, this`dirty, this`sect, buf, dst, fs.dev
      ensures Ok() && Placed(fs.geo, State()) && Contents() == old(Contents())
      ensures fptr == old(fptr) + n && (dirty ==> old(dirty))
      ensures dst[..] == Splice(old(dst[..]), off, Contents()[old(fptr)..fptr])
      ensures old(Quiet()) ==> Quiet() && fs.dev.sectors == old(fs.dev.sectors)
    {
      hide Kept, InfoTells, Volume.Valid, Volume.Logical, Volume.MirrorInSync, Geometry.Fat, Geometry.Valid, Geometry.ValidData, Geometry.Clst2Sect;
      hide OwnSector, FileSector, FreeKnown, Core, Content, Placed, Splice, View, ClusterAt, HasSector, Loaded;
      DivModUnique(fptr, SS, m, o);
      if o == 0 {
        SectorOutsideWindow(m);
        var s := fs.geo.Clst2Sect(clust) + csect;
        if sect != s {
          LoadSector(s, m);
        }
      }
      BufferShows(m, o);
      SectorIsContent(fs.geo, own, State(), m, o, n);
      CopyBytes(dst, off, buf, o, n);
      BufferMoved(m, o, n);
      fptr := fptr + n;
    }

    lemma BufferMoved(m: nat, o: nat, n: nat)
      requires Ok() && fptr == SS * m + o && ClusterAt(fs.geo, chain, m, clust) && sect == FileSector(fs.geo, chain, m)
      requires 0 < n && o + n <= SS && fptr + n <= objsize
      ensures var st := State().(fptr := fptr + n);
              Core(fs.geo, own, st) && Placed(fs.geo, st) && Content(fs.geo, st) == Contents()
    {
      hide Kept, InfoTells, Volume.Valid, Volume.Logical, Volume.MirrorInSync, Geometry.Fat, Geometry.Valid, Core, Content, FileSector, FreeKnown;
      if o + n < SS {
        DivModUnique(fptr + n, SS, m, o + n);
      } else {
        DivModUnique(fptr + n, SS, m + 1, 0);
      }
      assert m % fs.geo.csize + 1 <= fs.geo.csize;
      RunEnd(fs.geo, chain, m, 1, clust, fptr + n);
      MoveCore(fs.geo, own, State(), fptr + n);
    }

    /** f_read at a sector boundary: the current cluster becomes the one the pointer is in. */
    method EnterReadSector(csect: nat, ghost m: nat)
      requires Ok() && Placed(fs.geo, State()) && fptr == SS * m && fptr < objsize && fs.geo.csize > 0 && csect == m % fs.geo.csize
      modifies this`clust, fs, fs.win, fs.dev
      ensures Ok() && Contents() == old(Contents()) && ClusterAt(fs.geo, chain, m, clust)
      ensures old(Quiet()) ==> Quiet() && fs.dev.sectors == old(fs.dev.sectors)
    {
      hide Kept, InfoTells, Volume.Valid, Volume.Logical, Volume.MirrorInSync, Geometry.Fat, Geometry.Valid, Geometry.ValidData;
      hide OwnSector, FileSector, FreeKnown, Core, Content, Placed, ClusterStart;
      if csect == 0 {
        DivModUnique(fptr, SS, m, 0);
        AtBoundary(fs.geo, fptr);
        var clst := EnterReadCluster(m / fs.geo.csize);
      } else {
        InsideCluster(fs.geo, State(), m, 0);
      }
    }

    /** One turn of the f_read loop. */
    method ReadStep(dst: array<byte>, off: nat, btr: nat) returns (rcnt: nat)
      requires Ok() && Placed(fs.geo, State()) && dst != buf && dst != fs.win
      requires 0 < btr && off + btr <= dst.Length && fptr + btr <= objsize
      modifies this`clust, this`dirty, this`sect, this`fptr, buf, dst, fs, fs.win, fs.dev
      ensures Ok() && Placed(fs.geo, State()) && Contents() == old(Contents())
      ensures 0 < rcnt <= btr && fptr == old(fptr) + rcnt && (dirty ==> old(dirty))
      ensures dst[..] == Splice(old(dst[..]), off, Contents()[old(fptr)..fptr])
      ensures old(Quiet()) ==> Quiet() && fs.dev.sectors == old(fs.dev.sectors)
    {
      hide Kept, InfoTells, Volume.Valid, Volume.Logical, Volume.MirrorInSync, Geometry.Fat, Geometry.Valid, Geometry.ValidData;
      hide OwnSector, FileSector, FreeKnown, Core, Content, Placed, ClusterAt, Splice, SecNo, SecOfs;
      Bounds();
      var csize := fs.geo.csize;
      var csect := 0;
      var m, o := SecNo(fptr), SecOfs(fptr);
      if o == 0 {
        csect := m % csize;
        EnterReadSector(csect, m);
        var cc := btr / SS;
        if cc > 0 {
          if csect + cc > csize {
            cc := csize - csect;
          }
          ReadDirect(dst, off, m, csect, cc);
          return SS * cc;
        }
      } else {
        InsideCluster(fs.geo, State(), m, o);
      }
      rcnt := SS - o;
      if rcnt > btr {
        rcnt := btr;
      }
      ReadBuffered(dst, off, rcnt, csect, m, o);
    }

    /** The f_read loop. */
    method ReadAll(dst: array<byte>, total: nat)
      requires Ok() && Placed(fs.geo, State()) && dst != buf && dst != fs.win
      requires total <= dst.Length && fptr + total <= objsize
      modifies this`clust, this`dirty, this`sect, this`fptr, buf, dst, fs, fs.win, fs.dev
      ensures Ok() && Placed(fs.geo, State()) && Contents() == old(Contents()) && fptr == old(fptr) + total
      ensures dst[..] == Splice(old(dst[..]), 0, Contents()[old(fptr)..fptr])
      ensures old(Quiet()) ==> Quiet() && fs.dev.sectors == old(fs.dev.sectors)
    {
      hide Kept, InfoTells, Volume.Valid, Volume.Logical, Volume.MirrorInSync, Geometry.Fat, Geometry.Valid, Geometry.ValidData;
      hide EntryPlaced, InfoSafe, OwnSector, FileSector, FreeKnown, Core, Content, Placed, ClusterAt, Splice;
      var br := 0;
      ghost var c0, p0, d0 := Contents(), fptr, dst[..];
      SpliceNothing(d0, 0, c0[p0..p0]);
      while br < total
        invariant Ok() && Placed(fs.geo, State()) && Contents() == c0
        invariant br <= total && fptr == p0 + br && p0 + total <= objsize == |c0|
        invariant dst[..] == Splice(d0, 0, c0[p0..p0 + br])
        invariant old(Quiet()) ==> Quiet() && fs.dev.sectors == old(fs.dev.sectors)
      {
        var rcnt := ReadStep(dst, br, total - br);
        ReadNext(d0, c0, p0, br, rcnt);
        br := br + rcnt;
      }
    }

    /** f_read */
    method Read(dst: array<byte>, len: dword) returns (res: FResult, br: nat)
      requires Valid() && len <= dst.Length && dst != buf && dst != fs.win
      modifies this`clust, this`dirty, this`sect, this`fptr, buf, dst, fs, fs.win, fs.dev
      ensures Valid() && err == old(err) && Contents() == old(Contents())
      ensures Kept(fs.geo, own, dirSect, dirOfs, old(fs.Logical()), fs.Logical())
      ensures res == if err != OK then err else if !canRead then DENIED else OK
      ensures br == if res == OK then Min(len, |Contents()| - old(fptr)) else 0
      ensures fptr == old(fptr) + br && dst[..] == Splice(old(dst[..]), 0, Contents()[old(fptr)..fptr])
    {
      hide Kept, InfoTells, Volume.Valid, Volume.Logical, Volume.MirrorInSync, Geometry.Fat, Geometry.Valid, Geometry.ValidData;
      hide EntryPlaced, InfoSafe, DiskFile, OwnSector, FileSector, FreeKnown, Core, Content, Placed, ClusterAt, Splice;
      Bounds();
      br := 0;
      SpliceNothing(dst[..], 0, Contents()[fptr..fptr]);
      if err != OK {
        Between(old(fs.Logical()));
        return err, br;
      }
      if !canRead {
        Between(old(fs.Logical()));
        return DENIED, br;
      }
      var remain := objsize - fptr;
      br := len;
      if br > remain {
        br := remain;
      }
      ReadAll(dst, br);
      res := OK;
      Between(old(fs.Logical()));
    }

    lemma ReadNext(d: seq<byte>, c: seq<byte>, p: nat, i: nat, n: nat)
      requires p + i + n <= |c| && i + n <= |d|
      ensures Splice(Splice(d, 0, c[p..p + i]), i, c[p + i..p + i + n]) == Splice(d, 0, c[p..p + (i + n)])
    {
      SpliceSplit(d, 0, c[p..p + i], c[p + i..p + i + n]);
      assert c[p..p + i] + c[p + i..p + i + n] == c[p..p + (i + n)];
    }

    /** f_lseek, the starting point: the current cluster if the target is not before it, else the first one. */
    method SeekStart(ofs: dword) returns (clst: dword, base: nat, ghost i: nat)
      requires Ok() && Placed(fs.geo, State()) && ofs > 0 && (canWrite || ofs <= objsize)
      modifies this`fptr, this`clust, this`sclust, this`chain, fs, fs.win, fs.dev
      ensures Ok() && fptr == 0 && Contents() == old(Contents())
      ensures clst == 0 ==> Room() == 0 && chain == old(chain)
      ensures clst != 0 ==> i < |chain| && chain[i] == clst == clust && base == ClusterStart(fs.geo, i) && base < ofs
      ensures old(chain) <= chain && (chain != old(chain) ==> |old(chain)| <= i)
      ensures old(Quiet()) && chain == old(chain) ==> Quiet() && fs.dev.sectors == old(fs.dev.sectors)
    {
      hide Kept, InfoTells, Volume.Valid, Volume.Logical, Volume.MirrorInSync, Geometry.Fat, Geometry.Valid, Geometry.ValidData, Geometry.Bcs;
      hide OwnSector, FileSector, FreeKnown, Core, Content, Placed, ClusterStart, File.Room;
      Bounds();
      FirstStart(fs.geo);
      ghost var st := State();
      StartCluster(fs.geo, own, st);
      if fptr > 0 {
        ClusterOfLast(fs.geo, st);
      }
      var ifptr := fptr;
      MoveCore(fs.geo, own, st, 0);
      fptr := 0;
      base, i := 0, 0;
      var bcs := fs.geo.Bcs();
      if ifptr > 0 && (ofs - 1) / bcs >= (ifptr - 1) / bcs {
        base := (ifptr - 1) / bcs * bcs;
        clst := clust;
        i := (ifptr - 1) / bcs;
        StartBeforeTarget(fs.geo, ofs, i);
        NotZero(i);
      } else {
        clst := sclust;
        if clst == 0 {
          clst := FollowChain(0, 0);
        }
        AnyCluster(fs.geo, own, State(), clst);
        clust := clst;
      }
    }

    lemma NotZero(i: nat)
      requires Ok() && i < |chain|
      ensures chain[i] != 0
    {
    }

    /** f_lseek in read mode: the next cluster of the chain. */
    method NextReadCluster(c: dword, ghost i: nat) returns (clst: dword)
      requires Ok() && i + 1 < |chain| && chain[i] == c
      modifies fs`winsect, fs`wflag, fs.win, fs.dev
      ensures Ok() && Contents() == old(Contents()) && clst == chain[i + 1] && 2 <= clst < fs.geo.nFatent
      ensures old(Quiet()) ==> Quiet() && fs.dev.sectors == old(fs.dev.sectors)
    {
      hide Kept, InfoTells, Volume.Valid, Volume.Logical, Volume.MirrorInSync, Geometry.Fat, Geometry.Valid, Geometry.ValidData;
      hide OwnSector, FileSector, FreeKnown, Core, Content, IsChain;
      ghost var ws := fs.winsect;
      AllocFacts();
      Follow(fs.AllocState().fat, chain, i);
      Follow(fs.AllocState().fat, chain, i + 1);
      clst := fs.GetFat(c);
      WindowStaysOut(ws);
    }

    /** f_lseek, following the chain (stretching it in write mode) until `rem` bytes remain in the current cluster. */
    method SeekFollow(clst0: dword, base: nat, ofs: nat, ghost i0: nat) returns (clst: dword, pos: nat, rem: nat, ghost i: nat)
      requires Ok() && fptr == 0 && i0 < |chain| && chain[i0] == clst0 == clust
      requires base == ClusterStart(fs.geo, i0) && 0 < ofs && (canWrite || base + ofs <= objsize)
      modifies this`clust, this`sclust, this`chain, fs, fs.win, fs.dev
      ensures Ok() && Contents() == old(Contents()) && i < |chain| && chain[i] == clust
      ensures rem > 0 ==> clst == clust && pos == ClusterStart(fs.geo, i) && rem <= SS * fs.geo.csize && pos + rem == base + ofs
      ensures rem == 0 ==> pos == ClusterStart(fs.geo, i) + SS * fs.geo.csize == Room() && pos < base + ofs
      ensures i0 <= i && old(chain) <= chain && (chain != old(chain) ==> |old(chain)| <= i)
      ensures old(Quiet()) && chain == old(chain) ==> Quiet() && fs.dev.sectors == old(fs.dev.sectors)
    {
      hide Kept, InfoTells, Volume.Valid, Volume.Logical, Volume.MirrorInSync, Geometry.Fat, Geometry.Valid, Geometry.ValidData, Geometry.Bcs;
      hide OwnSector, FileSector, FreeKnown, Core, Content, FileBytes, ClusterStart, File.Room;
      ClusterBytes();
      var bcs := fs.geo.Bcs();
      clst, pos, rem, i := clst0, base, ofs, i0;
      while rem > bcs
        invariant Ok() && fptr == 0 && objsize == old(objsize) && Contents() == old(Contents())
        invariant i < |chain| && chain[i] == clst == clust
        invariant pos == ClusterStart(fs.geo, i) && pos + rem == base + ofs && 0 < rem
        invariant i0 <= i && old(chain) <= chain && (chain != old(chain) ==> |old(chain)| <= i)
        invariant old(Quiet()) && chain == old(chain) ==> Quiet() && fs.dev.sectors == old(fs.dev.sectors)
        decreases rem
      {
        NextStart(fs.geo, i);
        rem, pos := rem - bcs, pos + bcs;
        if canWrite {
          clst := FollowChain(clst, i + 1);
          if clst == 0 {
            rem := 0;
            break;
          }
        } else {
          Reaches(i + 1, base + ofs);
          clst := NextReadCluster(clst, i);
        }
        AnyCluster(fs.geo, own, State(), clst);
        clust := clst;
        i := i + 1;
      }
    }

    lemma ClusterBytes()
      requires Ok()
      ensures fs.geo.Bcs() == SS * fs.geo.csize > 0
    {
    }

    lemma Reaches(i: nat, p: nat)
      requires Ok() && ClusterStart(fs.geo, i) < p <= objsize
      ensures i < |chain|
    {
      hide Kept, InfoTells, Volume.Logical, Geometry.Fat, OwnSector, FileSector, FreeKnown, IsChain, CacheOk, Owns;
      StartBelow(fs.geo, chain, i, p);
    }

    /** f_lseek, the end: bring the sector of the target into the buffer and move the pointer, growing the file if needed. */
    method SeekFinish(pos: nat, rem: nat, nsect: dword, ghost i: nat)
      requires Ok() && fptr == 0 && i < |chain| && chain[i] == clust && pos + rem < TWO32
      requires if rem > 0 then pos == ClusterStart(fs.geo, i) && rem <= SS * fs.geo.csize
               else pos == ClusterStart(fs.geo, i) + SS * fs.geo.csize
      requires SecOfs(rem) != 0 ==> nsect == fs.geo.Clst2Sect(clust) + SecNo(rem)
      modifies this`fptr, this`objsize, this`modified, this`dirty, this`sect, buf, fs.dev
      ensures Ok() && Placed(fs.geo, State()) && fptr == pos + rem && objsize == Max(old(objsize), fptr)
      ensures Contents()[..old(objsize)] == old(Contents())
      ensures modified == (old(modified) || fptr > old(objsize)) && (dirty ==> old(dirty))
      ensures old(Quiet()) ==> Quiet() && fs.dev.sectors == old(fs.dev.sectors)
    {
      hide Kept, InfoTells, Volume.Valid, Volume.Logical, Volume.MirrorInSync, Geometry.Fat, Geometry.Valid, Geometry.ValidData, Geometry.Clst2Sect;
      hide OwnSector, FileSector, FreeKnown, Core, Content, FileBytes, ClusterStart, SecOfs, SecNo;
      ghost var g := fs.geo;
      ghost var ofs := if rem > 0 then rem else SS * g.csize;
      ghost var start := ClusterStart(g, i);
      ghost var m := SecNo(pos + rem);
      Bounds();
      SeekPlace(g, chain, i, ofs);
      ZeroOffset(g);
      if SecOfs(pos + rem) != 0 {
        SectorOutsideWindow(m);
        if nsect != sect {
          LoadSector(nsect, m);
        }
      }
      SeekCore(g, own, State(), pos + rem);
      fptr := pos + rem;
      if fptr > objsize {
        objsize := fptr;
        modified := true;
      }
    }

    lemma ZeroOffset(g: Geometry)
      ensures SecOfs(0) == 0 && SecOfs(SS * g.csize) == 0
    {
    }

    /** f_lseek to a position other than the start. */
    method SeekTo(ofs: dword)
      requires Ok() && Placed(fs.geo, State()) && 0 < ofs && (canWrite || ofs <= objsize)
      modifies this, buf, fs, fs.win, fs.dev
      ensures Ok() && Placed(fs.geo, State()) && err == old(err)
      ensures fptr == Min(ofs, if canWrite then Room() else old(objsize))
      ensures objsize == Max(old(objsize), fptr) && Contents()[..old(objsize)] == old(Contents())
      ensures old(modified) ==> modified
      ensures !modified ==> chain == old(chain) && objsize == old(objsize)
      ensures !modified && old(Quiet()) ==> Quiet() && fs.dev.sectors == old(fs.dev.sectors)
    {
      hide Kept, InfoTells, Volume.Valid, Volume.Logical, Volume.MirrorInSync, Geometry.Fat, Geometry.Valid, Geometry.ValidData, Geometry.Clst2Sect;
      hide OwnSector, FileSector, FreeKnown, Core, Content, Placed, ClusterStart, File.Room, SecOfs, SecNo, EntryPlaced;
      InsideRoom();
      ChainHolds();
      var clst, base, i := SeekStart(ofs);
      if clst != 0 {
        var pos, rem;
        clst, pos, rem, i := SeekFollow(clst, base, ofs - base, i);
        var nsect := 0;
        if SecOfs(rem) != 0 {
          InsideSector(i, rem);
          nsect := fs.geo.Clst2Sect(clst) + SecNo(rem);
        }
        ZeroOffset(fs.geo);
        if |old(chain)| <= i {
          LaterStart(fs.geo, |old(chain)|, i);
        }
        SeekFinish(pos, rem, nsect, i);
        InsideRoom();
      } else {
        PlacedAtStart();
      }
    }

    lemma ChainHolds()
      requires Ok()
      ensures objsize <= ClusterStart(fs.geo, |chain|) && fs.geo.csize > 0
    {
    }

    /** f_lseek */
    method Lseek(to: dword) returns (res: FResult)
      requires Valid()
      modifies this, buf, fs, fs.win, fs.dev
      ensures Valid() && err == old(err) && res == err
      ensures Kept(fs.geo, own, dirSect, dirOfs, old(fs.Logical()), fs.Logical())
      ensures res != OK ==> fptr == old(fptr) && Contents() == old(Contents())
      ensures res == OK ==> fptr == Min(to, if canWrite then Room() else old(objsize))
      ensures objsize == Max(old(objsize), fptr) && Contents()[..old(objsize)] == old(Contents())
    {
      hide Kept, InfoTells, Volume.Valid, Volume.Logical, Volume.MirrorInSync, Geometry.Fat, Geometry.Valid, Geometry.ValidData;
      hide OwnSector, FileSector, FreeKnown, Core, Content, Placed, File.Room, EntryPlaced, DiskFile;
      InsideRoom();
      if err != OK {
        Between(old(fs.Logical()));
        return err;
      }
      var ofs := to;
      if ofs > objsize && !canWrite {
        ofs := objsize;
      }
      if ofs > 0 {
        SeekTo(ofs);
        assert !modified ==> Contents() == old(Contents());
      } else {
        MoveCore(fs.geo, own, State(), 0);
        fptr := 0;
        PlacedAtStart();
      }
      res := OK;
      Between(old(fs.Logical()));
    }

    lemma PlacedAtStart()
      requires Env() && fptr == 0
      ensures Placed(fs.geo, State())
    {
    }

    lemma InsideSector(i: nat, rem: nat)
      requires Ok() && i < |chain| && chain[i] == clust && 0 < rem <= SS * fs.geo.csize && SecOfs(rem) != 0
      ensures 0 <= fs.geo.Clst2Sect(clust) + SecNo(rem) < TWO32
    {
      hide Kept, InfoTells, Volume.Valid, Volume.Logical, Geometry.Fat, OwnSector, FileSector, FreeKnown, Core, ClusterStart, Geometry.Clst2Sect, SecNo, SecOfs;
      Bounds();
      SeekPlace(fs.geo, chain, i, rem);
      SectorOutsideWindow(SecNo(ClusterStart(fs.geo, i) + rem));
    }

    /** f_truncate: the end of the file moves to the pointer and the clusters from position `k` on, if any, become free. */
    method CutAtPointer(c: dword, p: dword, ghost k: nat) returns (res: FResult)
      requires Ok() && Placed(fs.geo, State()) && k < |chain| && fptr <= ClusterStart(fs.geo, k)
      requires c == chain[k] && p == CutPred(chain, k)
      modifies this`sclust, this`objsize, this`chain, fs, fs.win, fs.dev
      ensures Ok() && Placed(fs.geo, State()) && res == OK && objsize == fptr
      ensures Contents() == old(Contents()[..fptr])
      ensures chain == old(chain)[..k]
      ensures CountFree(fs.AllocState().fat, 2) == old(CountFree(fs.AllocState().fat, 2) + |chain|) - k
    {
      hide Kept, InfoTells, Volume.Valid, Volume.Logical, Volume.MirrorInSync, Geometry.Fat, Geometry.Valid, Geometry.ValidData;
      hide OwnSector, FileSector, FreeKnown, Remove, Content, FileBytes, Core, ClusterStart, NoBadEntry, IsChain, TurnsInto, Placed;
      ghost var st, a, ws := State(), fs.AllocState(), fs.winsect;
      AllocFacts();
      RemoveCuts(a, Eoc(fs.geo.ty), chain, k);
      if k > 0 {
        Follow(a.fat, chain, k - 1);
      }
      res := fs.RemoveChain(c, p);
      WindowStaysOut(ws);
      ChainKept(st, old(fs.freeClst), old(fs.fsiFlag), chain[..k]);
      CutCore(fs.geo, own, st, fs.Logical(), k);
      CutPlaced(fs.geo, st, fs.Logical(), k);
      if p == 0 {
        sclust := 0;
      }
      objsize := fptr;
      chain := chain[..k];
    }

    /** The place of the cut: after cluster `i`, the one of the last byte kept. */
    lemma CutPoint() returns (i: nat)
      requires Ok() && Placed(fs.geo, State()) && fptr < objsize
      ensures chain != [] && sclust == chain[0] && ClusterStart(fs.geo, 0) == 0
      ensures fptr > 0 ==>
        && i < |chain| && chain[i] == clust && fptr <= ClusterStart(fs.geo, i + 1) && fs.geo.IsCluster(clust)
        && var nxt := fs.geo.Fat(fs.Logical())[clust];
           if i + 1 < |chain| then nxt == chain[i + 1] < fs.geo.nFatent else nxt >= fs.geo.nFatent
    {
      hide Kept, InfoTells, Volume.Logical, Geometry.Fat, OwnSector, FileSector, FreeKnown, Placed, IsChain, CacheOk, Owns, ClusterStart, Geometry.Bcs;
      var g, st := fs.geo, State();
      StartCluster(g, own, st);
      FirstStart(g);
      NonEmpty(g, st);
      i := 0;
      if fptr > 0 {
        ClusterOfLast(g, st);
        i := (fptr - 1) / g.Bcs();
        LastStart(g, fptr, i);
        Follow(g.Fat(st.l), chain, i);
      }
    }

    /** f_truncate */
    method Truncate() returns (res: FResult)
      requires Valid()
      modifies this, fs, fs.win, fs.dev
      ensures Valid() && fptr == old(fptr) && err == old(err)
      ensures Kept(fs.geo, own, dirSect, dirOfs, old(fs.Logical()), fs.Logical())
      ensures res == if err != OK then err else if !canWrite then DENIED else OK
      ensures Contents() == if res == OK then old(Contents()[..fptr]) else old(Contents())
    {
      hide Kept, InfoTells, Volume.Valid, Volume.Logical, Volume.MirrorInSync, Geometry.Fat, Geometry.Valid, Geometry.ValidData;
      hide EntryPlaced, InfoSafe, DiskFile, OwnSector, FileSector, FreeKnown, Content, Core, ClusterStart, Placed, IsChain;
      if err != OK {
        Between(old(fs.Logical()));
        return err;
      }
      if !canWrite {
        Between(old(fs.Logical()));
        return DENIED;
      }
      res := OK;
      InsideRoom();
      if fptr < objsize {
        ghost var i := CutPoint();
        if fptr == 0 {
          res := CutAtPointer(sclust, 0, 0);
        } else {
          ghost var ws := fs.winsect;
          var ncl := fs.GetFat(clust);
          WindowStaysOut(ws);
          if ncl < fs.geo.nFatent {
            res := CutAtPointer(ncl, clust, i + 1);
          } else {
            ghost var st := State();
            CutSize(fs.geo, own, st);
            objsize := fptr;
            PlacedKept(fs.geo, st, State());
          }
        }
        modified := true;
        WriteBack();
      }
      Between(old(fs.Logical()));
    }

    /** The directory entry tells the start and the size of the file. */
    ghost predicate Entered()
      requires Ok()
      reads this, buf, fs, fs.win, fs.dev
    {
      var s := fs.Logical()[dirSect];
      StartOf(fs.geo.ty, s, dirOfs) == sclust && SizeOf(s, dirOfs) == objsize
    }

    /** f_sync, first part: the directory entry is brought up to date in the window. */
    method UpdateEntry(tm: dword)
      requires Ok() && Placed(fs.geo, State())
      modifies fs`winsect, fs`wflag, fs.win, fs.dev
      ensures Ok() && Placed(fs.geo, State()) && Contents() == old(Contents()) && Entered()
    {
      hide Kept, InfoTells, Volume.Valid, Volume.Logical, Volume.MirrorInSync, Geometry.Fat, Geometry.Valid, Geometry.ValidData;
      hide OwnSector, FileSector, FreeKnown, Core, Content, Placed, Updated, StartOf, SizeOf;
      ghost var st := State();
      EntryOutside();
      UpdatedFields(fs.geo.ty, st.l[dirSect], dirOfs, sclust, objsize, tm);
      var _ := fs.WriteEntry(dirSect, dirOfs, sclust, objsize, tm);
      EntryKept(st.l, fs.Logical()[dirSect]);
      OtherSector(fs.geo, own, st, dirSect, fs.Logical()[dirSect]);
      PlacedKept(fs.geo, st, State());
    }

    lemma EntryKept(l: seq<Sector>, w: Sector)
      requires fs.Valid() && EntryPlaced(fs.geo, own, dirSect, dirOfs) && InfoSafe(fs.geo, fs.fsiFlag)
      requires Kept(fs.geo, own, dirSect, dirOfs, base, l) && InfoTells(fs.geo, l, fs.freeClst, fs.fsiFlag) && dirSect < |l|
      requires fs.Logical() == l[dirSect := w] && SameButEntry(l[dirSect], w, dirOfs)
      ensures Kept(fs.geo, own, dirSect, dirOfs, base, fs.Logical()) && InfoTells(fs.geo, fs.Logical(), fs.freeClst, fs.fsiFlag)
    {
      hide Kept, InfoTells, Volume.Logical;
      KeptEntry(fs.geo, own, dirSect, dirOfs, l, w);
      Carried(l, fs.freeClst, fs.fsiFlag);
    }

    lemma EntryOutside()
      requires Ok()
      ensures !fs.geo.InFatArea(dirSect) && dirSect < |fs.dev.sectors| && dirSect < NOSECT && dirOfs + SZDIRE <= SS
      ensures fs.geo.ty == FAT32 || sclust < 0x1_0000
    {
      hide Kept, InfoTells, Volume.Logical, Geometry.Fat, OwnSector, FileSector, FreeKnown, CacheOk, Owns;
    }

    /** f_sync, second part: window and information sector are written out. */
    method FinishSync()
      requires Ok() && Placed(fs.geo, State()) && !dirty && Entered()
      modifies fs, fs.win, fs.dev
      ensures Ok() && Placed(fs.geo, State()) && Contents() == old(Contents()) && Synced()
    {
      hide Kept, InfoTells, Volume.Valid, Volume.Logical, Volume.MirrorInSync, Geometry.Fat, Geometry.Valid, Geometry.ValidData;
      hide OwnSector, FileSector, FreeKnown, Core, Content, Placed, DiskFile, InfoSector, StartOf, SizeOf;
      ghost var st := State();
      EntryOutside();
      InfoOutside();
      var _ := fs.SyncFs();
      InfoKept(st.l, old(fs.fsiFlag));
      if old(fs.fsiFlag) == 1 && fs.geo.ty == FAT32 {
        OtherSector(fs.geo, own, st, fs.geo.volbase + 1, fs.Logical()[fs.geo.volbase + 1]);
      }
      PlacedKept(fs.geo, st, State());
      CleanOnDisk(fs.geo, own, State(), dirSect, dirOfs);
      OnDevice();
    }

    /** f_sync: afterwards the device alone holds the file. */
    method Sync(tm: dword) returns (res: FResult)
      requires Valid()
      modifies this`dirty, this`modified, fs, fs.win, fs.dev
      ensures Valid() && res == OK && !modified && Synced()
      ensures Kept(fs.geo, own, dirSect, dirOfs, old(fs.Logical()), fs.Logical())
      ensures Contents() == old(Contents()) && chain == old(chain) && fptr == old(fptr)
    {
      hide Kept, InfoTells, Volume.Valid, Volume.Logical, Volume.MirrorInSync, OwnSector, FreeKnown, Core, Content, Placed, DiskFile, StartOf, SizeOf;
      res := OK;
      if modified {
        WriteBack();
        UpdateEntry(tm);
        FinishSync();
        modified := false;
      }
      Between(old(fs.Logical()));
    }

    lemma InfoOutside()
      requires Ok()
      ensures var s := fs.geo.volbase + 1;
              && 0 <= s < |fs.dev.sectors| && !OwnSector(fs.geo, own, s) && s < TWO32
              && (fs.fsiFlag == 1 && fs.geo.ty == FAT32 ==> s < fs.geo.fatbase && !fs.geo.InFatArea(s) && s != dirSect)
    {
      hide Kept, InfoTells, Volume.Logical, Geometry.Fat, FileSector, FreeKnown, CacheOk, Owns;
    }

    lemma InfoKept(l: seq<Sector>, flag: byte)
      requires fs.Valid() && EntryPlaced(fs.geo, own, dirSect, dirOfs) && InfoSafe(fs.geo, flag)
      requires Kept(fs.geo, own, dirSect, dirOfs, base, l) && InfoTells(fs.geo, l, fs.freeClst, flag)
      requires fs.fsiFlag == if flag == 1 then 0 else flag
      requires fs.Logical() == if flag == 1 && fs.geo.ty == FAT32 then l[fs.geo.volbase + 1 := InfoSector(fs.freeClst, fs.lastClst)] else l
      ensures Kept(fs.geo, own, dirSect, dirOfs, base, fs.Logical()) && InfoTells(fs.geo, fs.Logical(), fs.freeClst, fs.fsiFlag)
    {
      hide Kept, Volume.Logical, InfoSector, Mount.LoadInfo;
      KeptLength(fs.geo, own, dirSect, dirOfs, base, l);
      if flag == 1 && fs.geo.ty == FAT32 {
        KeptInfo(fs.geo, own, dirSect, dirOfs, l, InfoSector(fs.freeClst, fs.lastClst));
        KeptTrans(fs.geo, own, dirSect, dirOfs, base, l, fs.Logical());
        InfoWritten(fs.geo, l, fs.freeClst, fs.lastClst, fs.fsiFlag);
      }
    }

    lemma OnDevice()
      requires Ok() && Quiet() && DiskFile(fs.geo, fs.Logical(), dirSect, dirOfs, chain, Contents())
      ensures Synced()
    {
      hide Kept, InfoTells, Geometry.Fat, OwnSector, FileSector, FreeKnown, Core, Content, DiskFile, Geometry.Project;
      DeviceFile(fs.geo, fs.dev.sectors, dirSect, dirOfs, chain, Contents());
    }

    /** f_open, the end: the window is on the sector of the directory entry found or made at offset `d`. */
    constructor Open(fs: Volume, canRead: bool, canWrite: bool, append: bool, created: bool, d: nat,
                     ghost own: set<nat>, ghost chain: seq<nat>, ghost content: seq<byte>)
      requires fs.Valid() && fs.geo.ValidData() && fs.dev.reliable
      requires FreeKnown(fs.AllocState()) && NoBadEntry(fs.AllocState().fat) && Owns(own, fs.AllocState().fat, chain)
      requires EntryPlaced(fs.geo, own, fs.winsect, d) && InfoSafe(fs.geo, fs.fsiFlag)
      requires DiskFile(fs.geo, fs.Logical(), fs.winsect, d, chain, content)
      requires InfoTells(fs.geo, fs.Logical(), fs.freeClst, fs.fsiFlag)
      requires fs.fsiFlag <= 1 || fs.fsiFlag >= 0x80
      requires created || (!fs.wflag && fs.fsiFlag != 1)
      modifies fs`winsect, fs`wflag, fs.win, fs.dev
      ensures base == old(fs.Logical()) && informed == (old(fs.fsiFlag) <= 1) && dirSect == old(fs.winsect) && dirOfs == d
      ensures Valid() && fresh(buf) && this.fs == fs && this.canRead == canRead && this.canWrite == canWrite
      ensures err == OK && this.own == own && Contents() == content && fptr == if append then |content| else 0
    {
      hide Kept, InfoTells, Geometry.Fat, Geometry.ValidData, OwnSector, FileSector, FreeKnown, NoBadEntry, Owns, IsChain, FileBytes, StartOf, SizeOf;
      this.fs, this.canRead, this.canWrite := fs, canRead, canWrite;
      dirSect, dirOfs := fs.winsect, d;
      sclust, objsize := StartOf(fs.geo.ty, fs.win[..], d), SizeOf(fs.win[..], d);
      fptr, clust, sect, modified, dirty, err := 0, 0, 0, created, false, OK;
      buf := new byte[SS](_ => 0);
      this.chain, this.own, base, informed := chain, own, fs.Logical(), fs.fsiFlag <= 1;
      new;
      KeptSame(fs.geo, own, dirSect, dirOfs, base);
      assert SecOfs(0) == 0;
      if !created {
        OnDevice();
      }
      if append && objsize > 0 {
        SeekEnd();
      }
    }

    /** f_open for appending: the cluster `i` of the last byte, and the number of bytes in it. */
    method LastCluster() returns (clst: dword, ofs: nat, ghost i: nat)
      requires Ok() && objsize > 0
      modifies fs`winsect, fs`wflag, fs.win, fs.dev
      ensures Ok() && Contents() == old(Contents())
      ensures i < |chain| && chain[i] == clst && 0 < ofs <= SS * fs.geo.csize && ClusterStart(fs.geo, i) + ofs == objsize >= ofs
      ensures old(Quiet()) ==> Quiet() && fs.dev.sectors == old(fs.dev.sectors)
    {
      hide Kept, InfoTells, Volume.Valid, Volume.Logical, Volume.MirrorInSync, Geometry.Fat, Geometry.Valid, Geometry.ValidData, Geometry.Bcs;
      hide EntryPlaced, InfoSafe, OwnSector, FileSector, FreeKnown, Core, Content, ClusterStart;
      StartCluster(fs.geo, own, State());
      FirstStart(fs.geo);
      ChainHolds();
      StartBelow(fs.geo, chain, 0, objsize);
      ClusterBytes();
      var bcs := fs.geo.Bcs();
      clst, ofs, i := sclust, objsize, 0;
      while ofs > bcs
        invariant Ok() && Contents() == old(Contents())
        invariant i < |chain| && chain[i] == clst && 0 < ofs <= objsize && ClusterStart(fs.geo, i) + ofs == objsize
        invariant old(Quiet()) ==> Quiet() && fs.dev.sectors == old(fs.dev.sectors)
        decreases ofs
      {
        NextStart(fs.geo, i);
        Reaches(i + 1, objsize);
        clst := NextReadCluster(clst, i);
        ofs := ofs - bcs;
        i := i + 1;
      }
    }

    /** f_open for appending: the pointer goes to the end of the file. */
    method SeekEnd()
      requires Ok() && fptr == 0 && objsize > 0 && (modified || Synced())
      modifies this`fptr, this`objsize, this`modified, this`dirty, this`clust, this`sect, buf, fs`winsect, fs`wflag, fs.win, fs.dev
      ensures Valid() && fptr == objsize == old(objsize) && Contents() == old(Contents())
    {
      hide Kept, InfoTells, Volume.Valid, Volume.Logical, Volume.MirrorInSync, Geometry.Fat, Geometry.Valid, Geometry.ValidData, Geometry.Clst2Sect;
      hide EntryPlaced, InfoSafe, DiskFile, OwnSector, FileSector, FreeKnown, Core, Content, Placed, ClusterStart, SecOfs, SecNo;
      var clst, ofs, i := LastCluster();
      AnyCluster(fs.geo, own, State(), clst);
      clust := clst;
      var nsect := 0;
      if SecOfs(ofs) != 0 {
        InsideSector(i, ofs);
        nsect := fs.geo.Clst2Sect(clst) + SecNo(ofs);
      }
      SeekFinish(objsize - ofs, ofs, nsect, i);
      assert Contents() == old(Contents());
    }
  }
}
