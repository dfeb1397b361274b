/** The filesystem object: one sector window over the device and FAT access through it. */
module Volumes {
  import opened Bytes
  import opened FatTable
  import opened Entries
  import opened Layout
  import opened Devices
  import opened Chains

  datatype FResult = OK | DISK_ERR | INT_ERR | DENIED | NO_FILE | INVALID_NAME

  /** The value of `winsect` when the window holds nothing. */
  const NOSECT: dword := 0xFFFF_FFFF

  /** `v` with the window laid over it if the window is dirty. */
  function Overlay(v: seq<Sector>, dirty: bool, sect: nat, w: seq<byte>): (r: seq<Sector>)
    requires dirty ==> sect < |v| && |w| == SS
    ensures |r| == |v|
  {
    if dirty then v[sect := w] else v
  }

  /** `b | 1` */
  function SetBit0(b: byte): (r: byte)
    ensures r % 2 == 1 && r / 2 == b / 2 && r / 0x80 == b / 0x80
  {
    b / 2 * 2 + 1
  }

  /** An edit of a sector outside the FAT copies is the same edit of the logical disk. */
  lemma EditProject(geo: Geometry, v: seq<Sector>, at: int, w: Sector)
    requires 0 <= at < |v| && (geo.fatbase + 2 * geo.fsize <= |v| || geo.nFats != 2) && !geo.InFatArea(at)
    ensures geo.Project(v[at := w]) == geo.Project(v)[at := w]
  {
  }

  class Volume {
    const geo: Geometry
    const dev: Device
    const win: array<byte>
    var winsect: dword
    var wflag: bool
    var lastClst: dword
    var freeClst: dword
    var fsiFlag: byte

    /** A freshly mounted volume: empty window, allocation information unknown. */
    constructor (geo: Geometry, dev: Device)
      requires geo.Valid() && geo.volEnd <= |dev.sectors| < TWO32
      ensures Valid() && this.geo == geo && this.dev == dev && fresh(win)
      ensures winsect == NOSECT && !wflag && freeClst == lastClst == 0xFFFF_FFFF && fsiFlag == 0x80
    {
      this.geo, this.dev := geo, dev;
      win := new byte[SS](_ => 0);
      winsect, wflag := NOSECT, false;
      lastClst, freeClst, fsiFlag := 0xFFFF_FFFF, 0xFFFF_FFFF, 0x80;
    }

    /** The window is either dirty, or a copy of its sector, or empty. */
    ghost predicate Valid()
      reads `winsect, `wflag, win, dev
    {
      && geo.Valid()
      && geo.volEnd <= |dev.sectors| < TWO32
      && win.Length == SS
      && (wflag ==> winsect < |dev.sectors| && !geo.InMirror(winsect))
      && (!wflag && winsect != NOSECT ==> winsect < |dev.sectors| && win[..] == dev.sectors[winsect])
    }

    /** The logical disk: the device under the dirty window, with the second FAT following the first. */
    ghost function Logical(): (r: seq<Sector>)
      requires Valid()
      reads `winsect, `wflag, win, dev
      ensures |r| == |dev.sectors|
    {
      geo.Project(Overlay(dev.sectors, wflag, winsect, win[..]))
    }

    /** The allocator's view of the volume. */
    ghost function AllocState(): (a: Alloc)
      requires Valid()
      reads this, win, dev
      ensures |a.fat| == geo.nFatent
    {
      Alloc(geo.Fat(Logical()), lastClst, freeClst)
    }

    /** The two FAT copies on the device differ at most in the sector the dirty window covers. */
    ghost predicate MirrorInSync()
      requires Valid()
      reads `winsect, `wflag, win, dev
    {
      geo.CopiesAgree(dev.sectors, if wflag then winsect else -1)
    }

    /** The device contents once the window is written back. */
    ghost function Flushed(): (r: seq<Sector>)
      requires Valid()
      reads `winsect, `wflag, win, dev
      ensures |r| == |dev.sectors|
      ensures geo.Project(r) == Logical()
      ensures MirrorInSync() ==> geo.CopiesAgree(r, -1)
    {
      if wflag then
        geo.FlushAgrees(dev.sectors, winsect, win[..]);
        geo.Flush(dev.sectors, winsect, win[..])
      else dev.sectors
    }

    /** sync_window */
    method SyncWindow() returns (res: FResult)
      requires Valid()
      modifies this`wflag, dev
      ensures Valid() && Logical() == old(Logical()) && |dev.sectors| == old(|dev.sectors|)
      ensures res == OK || res == DISK_ERR
      ensures (res == OK ==> !wflag) && (wflag ==> old(wflag))
      ensures dev.reliable ==> res == OK && dev.sectors == old(Flushed())
      ensures old(!wflag) ==> dev.sectors == old(dev.sectors)
    {
      hide Sub32, Geometry.CopiesAgree;
      res := OK;
      if wflag {
        ghost var v := dev.sectors;
        geo.FlushAgrees(v, winsect, win[..]);
        var ok := dev.Write(win, 0, winsect, 1);
        if ok {
          assert win[0..0 + SS] == win[..];
          wflag := false;
          Sub32InRange(winsect, geo.fatbase, geo.fsize);
          if Sub32(winsect, geo.fatbase) < geo.fsize {
            if geo.nFats == 2 {
              var _ := dev.Write(win, 0, winsect + geo.fsize, 1);
            }
          }
          geo.ProjectSame(dev.sectors, v[winsect := win[..]]);
        } else {
          geo.ProjectSame(dev.sectors[winsect := win[..]], v[winsect := win[..]]);
          res := DISK_ERR;
        }
      }
    }

    /** Changing the bytes of a window that shows a sector outside the FAT is the same change of the logical disk. */
    twostate lemma Edited()
      requires old(Valid()) && old(winsect) == winsect < |dev.sectors| && wflag && dev.sectors == old(dev.sectors) && !geo.InFatArea(winsect)
      ensures Valid() && Logical() == old(Logical())[winsect := win[..]]
    {
      var v := old(Overlay(dev.sectors, wflag, winsect, win[..]));
      EditProject(geo, v, winsect, win[..]);
      assert Overlay(dev.sectors, wflag, winsect, win[..]) == v[winsect := win[..]];
    }

    /** move_window; asked for the sector number of an empty window it reports success without loading anything. */
    method MoveWindow(sect: dword) returns (res: FResult)
      requires Valid()
      modifies this`winsect, this`wflag, win, dev
      ensures Valid() && Logical() == old(Logical()) && |dev.sectors| == old(|dev.sectors|)
      ensures res == OK || res == DISK_ERR
      ensures dev.reliable && sect < |dev.sectors| ==> res == OK
      ensures res == OK ==> winsect == sect && (sect < |dev.sectors| || sect == old(winsect) == NOSECT)
      ensures res != OK ==> winsect == old(winsect) || winsect == NOSECT
      ensures res == OK && sect != NOSECT && !geo.InMirror(sect) ==> win[..] == Logical()[sect]
      ensures dev.reliable && old(MirrorInSync()) ==> MirrorInSync()
      ensures old(!wflag) ==> !wflag && dev.sectors == old(dev.sectors)
    {
      res := OK;
      if sect != winsect {
        res := SyncWindow();
        if res == OK {
          var at := sect;
          ghost var w := win[..];
          var ok := dev.Read(win, 0, sect, 1);
          if !ok {
            at := NOSECT;
            res := DISK_ERR;
          } else {
            LoadedSector(w, win[..], dev.sectors, sect);
          }
          winsect := at;
        }
      }
    }

    /** A window over a FAT sector shows the bytes of that part of the table. */
    lemma WindowShowsFat(q: nat, r: nat)
      requires Valid() && r < SS && q < geo.fsize
      requires winsect == geo.fatbase + q && winsect < |dev.sectors| && win[..] == Logical()[winsect]
      ensures SS * q + r < SS * geo.fsize
      ensures win[r] == geo.FatBytes(Logical())[SS * q + r]
    {
      DivModUnique(SS * q + r, SS, q, r);
      assert win[r] == win[..][r];
    }

    /** Where the code looks for an entry, and that it finds it there. */
    lemma EntryPlace(clst: nat)
      requires Valid() && geo.IsCluster(clst)
      ensures geo.fatbase + geo.fsize < TWO32 && geo.fatbase + geo.fsize <= geo.volEnd
      ensures EntrySector(geo.ty, clst) < geo.fsize && (geo.ty.FAT12? ==> Second12Sector(clst) < geo.fsize)
      ensures var fb := geo.FatBytes(Logical());
              var q, r := EntrySector(geo.ty, clst), EntryOfs(geo.ty, clst);
              match geo.ty
              case FAT12 => geo.Fat(Logical())[clst] == Decode12(clst, fb[SS * q + r], fb[SS * Second12Sector(clst) + Second12Ofs(clst)])
              case FAT16 => r + 1 < SS && geo.Fat(Logical())[clst] == LdWord(fb[SS * q + r], fb[SS * q + r + 1])
              case FAT32 => r + 3 < SS && geo.Fat(Logical())[clst] == Decode32(fb[SS * q + r], fb[SS * q + r + 1], fb[SS * q + r + 2], fb[SS * q + r + 3])
    {
      hide Geometry.Fat, Geometry.FatBytes, Volume.Logical, EntrySector, EntryOfs, Second12Sector, Second12Ofs, LdWord, Decode12, Decode32;
      geo.FatAt(Logical(), clst);
      EntryBytes(geo.ty, geo.FatBytes(Logical()), geo.fsize, clst);
    }

    /** Where the code stores an entry. */
    lemma PutPlace(clst: nat)
      requires Valid() && geo.IsCluster(clst)
      ensures geo.fatbase + geo.fsize < TWO32 && geo.fatbase + geo.fsize <= geo.volEnd
      ensures EntrySector(geo.ty, clst) < geo.fsize && (geo.ty.FAT12? ==> Second12Sector(clst) < geo.fsize)
      ensures Offset(geo.ty, clst) + Width(geo.ty) <= SS * geo.fsize
      ensures Offset(geo.ty, clst) == SS * EntrySector(geo.ty, clst) + EntryOfs(geo.ty, clst)
      ensures geo.ty.FAT12? ==> Offset(geo.ty, clst) + 1 == SS * Second12Sector(clst) + Second12Ofs(clst)
      ensures !geo.ty.FAT12? ==> EntryOfs(geo.ty, clst) + Width(geo.ty) <= SS
    {
      geo.AllFit();
      EntryBytes(geo.ty, geo.FatBytes(Logical()), geo.fsize, clst);
    }

    /** get_fat: 1 for a number out of range, 0xFFFFFFFF for a device fault, else the entry. */
    method GetFat(clst: dword) returns (val: dword)
      requires Valid()
      modifies this`winsect, this`wflag, win, dev
      ensures Valid() && Logical() == old(Logical()) && |dev.sectors| == old(|dev.sectors|)
      ensures !geo.IsCluster(clst) ==> val == 1
      ensures geo.IsCluster(clst) ==> val == geo.Fat(Logical())[clst] || (val == 0xFFFF_FFFF && !dev.reliable)
      ensures val < 0x1000_0000 || (val == 0xFFFF_FFFF && !dev.reliable)
      ensures dev.reliable && old(MirrorInSync()) ==> MirrorInSync()
      ensures old(!wflag) ==> !wflag && dev.sectors == old(dev.sectors)
      ensures winsect == old(winsect) || geo.InFat1(winsect) || winsect == NOSECT
    {
      hide Geometry.Valid, Geometry.Fat, Geometry.FatBytes, Volume.Logical, Volume.MirrorInSync;
      hide EntrySector, EntryOfs, Second12Sector, Second12Ofs, LdWord, Decode12, Decode32;
      if clst < 2 || clst >= geo.nFatent {
        return 1;
      }
      EntryPlace(clst);
      val := 0xFFFF_FFFF;
      var q, r := EntrySector(geo.ty, clst), EntryOfs(geo.ty, clst);
      var res := MoveWindow(geo.fatbase + q);
      if res == OK {
        WindowShowsFat(q, r);
        match geo.ty {
          case FAT12 =>
            var b0 := win[r];
            q, r := Second12Sector(clst), Second12Ofs(clst);
            res := MoveWindow(geo.fatbase + q);
            if res == OK {
              WindowShowsFat(q, r);
              val := Decode12(clst, b0, win[r]);
            }
          case FAT16 =>
            WindowShowsFat(q, r + 1);
            val := LdWord(win[r], win[r + 1]);
          case FAT32 =>
            WindowShowsFat(q, r + 1);
            WindowShowsFat(q, r + 2);
            WindowShowsFat(q, r + 3);
            val := Decode32(win[r], win[r + 1], win[r + 2], win[r + 3]);
        }
      }
    }

    /** A store to byte `r` of a window that shows sector `q` of the first FAT. */
    method StoreFatByte(q: nat, r: nat, b: byte)
      requires Valid() && q < geo.fsize && r < SS
      requires winsect == geo.fatbase + q && winsect < |dev.sectors| && win[..] == Logical()[winsect]
      modifies this`wflag, win
      ensures Valid() && wflag && win[..] == Logical()[winsect] && win[..] == old(win[..])[r := b]
      ensures geo.FatBytes(Logical()) == old(geo.FatBytes(Logical()))[SS * q + r := b]
      ensures geo.SameOutsideFat(old(Logical()), Logical())
      ensures old(MirrorInSync()) ==> MirrorInSync()
    {
      hide Geometry.FatBytes, Geometry.SameOutsideFat;
      ghost var v := Overlay(dev.sectors, wflag, winsect, win[..]);
      geo.StoreByte(v, q, r, b);
      win[r] := b;
      wflag := true;
      assert Overlay(dev.sectors, wflag, winsect, win[..]) == v[winsect := v[winsect][r := b]];
    }

    /** st_dword into a window that shows sector `q` of the first FAT. */
    method StoreFatDword(q: nat, r: nat, v: dword)
      requires Valid() && q < geo.fsize && r + 3 < SS
      requires winsect == geo.fatbase + q && winsect < |dev.sectors| && win[..] == Logical()[winsect]
      modifies this`wflag, win
      ensures Valid() && wflag
      ensures geo.FatBytes(Logical()) == old(Stored32(geo.FatBytes(Logical()), SS * q + r, v))
      ensures geo.SameOutsideFat(old(Logical()), Logical())
      ensures old(MirrorInSync()) ==> MirrorInSync()
    {
      hide Geometry.Valid, Geometry.FatBytes, Volume.Logical, Volume.MirrorInSync, ByteOf;
      StoreFatByte(q, r, ByteOf(v, 0));
      StoreFatByte(q, r + 1, ByteOf(v, 1));
      StoreFatByte(q, r + 2, ByteOf(v, 2));
      StoreFatByte(q, r + 3, ByteOf(v, 3));
    }

    /** The 12-bit case of put_fat: the two bytes may lie in different sectors. */
    method PutFat12(clst: dword, val: dword) returns (res: FResult)
      requires Valid() && geo.IsCluster(clst) && geo.ty.FAT12?
      modifies this`winsect, this`wflag, win, dev
      ensures Valid() && |dev.sectors| == old(|dev.sectors|)
      ensures geo.SameOutsideFat(old(Logical()), Logical())
      ensures res == OK || (res == DISK_ERR && !dev.reliable)
      ensures res == OK ==> geo.Stored(old(Logical()), Logical(), clst, val)
      ensures geo.OthersKept(old(Logical()), Logical(), clst)
      ensures dev.reliable && old(MirrorInSync()) ==> MirrorInSync()
      ensures winsect == old(winsect) || geo.InFat1(winsect) || winsect == NOSECT
    {
      hide Geometry.Valid, Geometry.Fat, Geometry.FatBytes, Volume.Logical, Volume.MirrorInSync;
      hide Geometry.Stored, Offset, EntrySector, EntryOfs, Second12Sector, Second12Ofs, Put12First, Put12Second;
      PutPlace(clst);
      ghost var l := Logical();
      var q, r := EntrySector(FAT12, clst), EntryOfs(FAT12, clst);
      res := MoveWindow(geo.fatbase + q);
      if res == OK {
        WindowShowsFat(q, r);
        StoreFatByte(q, r, Put12First(clst, win[r], val));
        geo.HalfPut(l, Logical(), clst, val);
        q, r := Second12Sector(clst), Second12Ofs(clst);
        res := MoveWindow(geo.fatbase + q);
        if res == OK {
          WindowShowsFat(q, r);
          StoreFatByte(q, r, Put12Second(clst, win[r], val));
          geo.PutIsUpdate(l, Logical(), clst, val);
        }
      }
    }

    /** put_fat */
    method PutFat(clst: dword, val: dword) returns (res: FResult)
      requires Valid()
      modifies this`winsect, this`wflag, win, dev
      ensures Valid() && |dev.sectors| == old(|dev.sectors|)
      ensures geo.SameOutsideFat(old(Logical()), Logical())
      ensures !geo.IsCluster(clst) ==> res == INT_ERR && Logical() == old(Logical())
      ensures geo.IsCluster(clst) ==> res == OK || (res == DISK_ERR && !dev.reliable)
      ensures res == OK ==> geo.Stored(old(Logical()), Logical(), clst, val)
      ensures geo.OthersKept(old(Logical()), Logical(), clst)
      ensures dev.reliable && old(MirrorInSync()) ==> MirrorInSync()
      ensures winsect == old(winsect) || geo.InFat1(winsect) || winsect == NOSECT
    {
      hide Geometry.Valid, Geometry.Fat, Geometry.FatBytes, Volume.Logical, Volume.MirrorInSync;
      hide Geometry.Stored, Offset, EntrySector, EntryOfs, Put32, Stored32, ByteOf, LdDword;
      if clst < 2 || clst >= geo.nFatent {
        return INT_ERR;
      }
      if geo.ty.FAT12? {
        res := PutFat12(clst, val);
        return;
      }
      PutPlace(clst);
      ghost var l := Logical();
      var q, r := EntrySector(geo.ty, clst), EntryOfs(geo.ty, clst);
      res := MoveWindow(geo.fatbase + q);
      if res == OK {
        WindowShowsFat(q, r);
        if geo.ty.FAT16? {
          StoreFatByte(q, r, ByteOf(val, 0));
          StoreFatByte(q, r + 1, ByteOf(val, 1));
        } else {
          WindowShowsFat(q, r + 1);
          WindowShowsFat(q, r + 2);
          WindowShowsFat(q, r + 3);
          StoreFatDword(q, r, Put32(LdDword(win[r], win[r + 1], win[r + 2], win[r + 3]), val));
        }
        geo.PutIsUpdate(l, Logical(), clst, val);
      }
    }

    /** The effect of one successful table store on the allocator's view. */
    lemma StoredEntry(v: seq<Sector>, c: dword, val: dword)
      requires Valid() && geo.Stored(v, Logical(), c, val) && (val == 0xFFFF_FFFF || val < geo.nFatent)
      ensures |geo.Fat(v)| == geo.nFatent
      ensures geo.Fat(Logical()) == geo.Fat(v)[c := if val == 0xFFFF_FFFF then Eoc(geo.ty) else val]
    {
      hide Geometry.Fat, Volume.Logical, Geometry.FatBytes, Geometry.PutBytes;
    }

    /** The circular search of create_chain: from the cluster after `scl`, wrapping at the end of the table. */
    method FindFree(scl: dword) returns (ncl: dword)
      requires Valid() && 1 <= scl < geo.nFatent
      modifies this`winsect, this`wflag, win, dev
      ensures Valid() && Logical() == old(Logical()) && |dev.sectors| == old(|dev.sectors|)
      ensures dev.reliable ==> ncl != 0xFFFF_FFFF
      ensures ncl != 0xFFFF_FFFF ==> ncl < geo.nFatent && ncl == Search(geo.Fat(Logical()), scl, scl)
      ensures dev.reliable && old(MirrorInSync()) ==> MirrorInSync()
      ensures winsect == old(winsect) || geo.InFat1(winsect) || winsect == NOSECT
      ensures old(!wflag) ==> !wflag && dev.sectors == old(dev.sectors)
    {
      hide Volume.Logical, Volume.MirrorInSync, Geometry.Fat;
      ghost var fat := geo.Fat(Logical());
      ncl := scl;
      while true
        invariant Valid() && Logical() == old(Logical()) && |dev.sectors| == old(|dev.sectors|)
        invariant 1 <= ncl < geo.nFatent && Search(fat, scl, scl) == Search(fat, scl, ncl)
        invariant dev.reliable && old(MirrorInSync()) ==> MirrorInSync()
        invariant winsect == old(winsect) || geo.InFat1(winsect) || winsect == NOSECT
        invariant ncl == scl || fat[ncl] != 0
        invariant old(!wflag) ==> !wflag && dev.sectors == old(dev.sectors)
        decreases Unprobed(geo.nFatent, scl, ncl)
      {
        ncl := ncl + 1;
        if ncl >= geo.nFatent {
          ncl := 2;
          if ncl > scl { return 0; }
        }
        var cs := GetFat(ncl);
        if cs == 0 { return; }
        if cs == 1 || cs == 0xFFFF_FFFF { return cs; }
        if ncl == scl { return 0; }
      }
    }

    /** The end of create_chain: mark the cluster found, link it, and update the allocation information. */
    method TakeCluster(clst: dword, found: dword) returns (ncl: dword)
      requires Valid() && geo.IsCluster(found) && (clst == 0 || geo.IsCluster(clst))
      modifies this, win, dev
      ensures Valid() && |dev.sectors| == old(|dev.sectors|)
      ensures geo.SameOutsideFat(old(Logical()), Logical())
      ensures dev.reliable ==> ncl != 0xFFFF_FFFF
      ensures ncl != 0xFFFF_FFFF ==> ncl == found && AllocState() == Link(old(AllocState()), Eoc(geo.ty), clst, found)
      ensures dev.reliable && old(MirrorInSync()) ==> MirrorInSync()
      ensures winsect == old(winsect) || geo.InFat1(winsect) || winsect == NOSECT
      ensures fsiFlag / 0x80 == old(fsiFlag) / 0x80 && (fsiFlag == 0 ==> old(fsiFlag) == 0 && freeClst == old(freeClst)) && (old(fsiFlag) <= 1 ==> fsiFlag <= 1)
      ensures fsiFlag == if freeClst != old(freeClst) then SetBit0(old(fsiFlag)) else old(fsiFlag)
    {
      hide Volume.Logical, Volume.MirrorInSync, Geometry.Fat, Geometry.Stored, Geometry.OthersKept, Geometry.SameOutsideFat;
      ncl := found;
      ghost var v := Logical();
      ghost var v0 := v;
      var res := PutFat(ncl, 0xFFFF_FFFF);
      if res == OK {
        StoredEntry(v, ncl, 0xFFFF_FFFF);
        if clst != 0 {
          v := Logical();
          res := PutFat(clst, ncl);
          geo.SameOutsideTrans(v0, v, Logical());
          if res == OK {
            StoredEntry(v, clst, ncl);
          }
        }
      }
      if res == OK {
        lastClst := ncl;
        if freeClst > 0 && freeClst <= geo.nFatent - 2 {
          freeClst := freeClst - 1;
          fsiFlag := SetBit0(fsiFlag);
        }
      } else {
        ncl := 0xFFFF_FFFF;
      }
    }

    /** create_chain */
    method CreateChain(clst: dword) returns (ncl: dword)
      requires Valid()
      modifies this, win, dev
      ensures Valid() && |dev.sectors| == old(|dev.sectors|)
      ensures geo.SameOutsideFat(old(Logical()), Logical())
      ensures dev.reliable ==> ncl != 0xFFFF_FFFF
      ensures ncl != 0xFFFF_FFFF ==> (AllocState(), ncl) == Create(old(AllocState()), Eoc(geo.ty), clst)
      ensures dev.reliable && old(MirrorInSync()) ==> MirrorInSync()
      ensures winsect == old(winsect) || geo.InFat1(winsect) || winsect == NOSECT
      ensures fsiFlag / 0x80 == old(fsiFlag) / 0x80 && (fsiFlag == 0 ==> old(fsiFlag) == 0 && freeClst == old(freeClst)) && (old(fsiFlag) <= 1 ==> fsiFlag <= 1)
      ensures old(!wflag) && (ncl == 0 || (geo.IsCluster(clst) && old(geo.Fat(Logical()))[clst] < geo.nFatent)) ==>
        !wflag && dev.sectors == old(dev.sectors) && fsiFlag == old(fsiFlag)
    {
      hide Volume.Logical, Volume.MirrorInSync, Geometry.Fat, Geometry.Stored, Geometry.OthersKept, Search;
      ghost var a := AllocState();
      var cs: dword;
      var scl: dword;
      if clst == 0 {
        scl := lastClst;
        if scl == 0 || scl >= geo.nFatent {
          scl := 1;
        }
      } else {
        cs := GetFat(clst);
        if cs < 2 { return 1; }
        if cs == 0xFFFF_FFFF { return cs; }
        if cs < geo.nFatent { return cs; }
        scl := clst;
      }
      if freeClst == 0 {
        return 0;
      }
      ncl := 0;
      if scl == clst {
        ncl := scl + 1;
        if ncl >= geo.nFatent {
          ncl := 2;
        }
        cs := GetFat(ncl);
        if cs == 1 || cs == 0xFFFF_FFFF { return cs; }
        if cs != 0 {
          cs := lastClst;
          if cs >= 2 && cs < geo.nFatent {
            scl := cs;
          }
          ncl := 0;
        }
      }
      if ncl == 0 {
        ncl := FindFree(scl);
        if ncl < 2 || ncl == 0xFFFF_FFFF { return; }
      }
      ncl := TakeCluster(clst, ncl);
    }

    /** One turn of the removal loop: clear the entry and count the cluster as free. */
    method FreeCluster(clst: dword) returns (res: FResult)
      requires Valid() && geo.IsCluster(clst)
      modifies this`winsect, this`wflag, this`freeClst, this`fsiFlag, win, dev
      ensures Valid() && |dev.sectors| == old(|dev.sectors|)
      ensures geo.SameOutsideFat(old(Logical()), Logical())
      ensures res == OK || (res == DISK_ERR && !dev.reliable)
      ensures res == OK ==> geo.Fat(Logical()) == old(geo.Fat(Logical()))[clst := 0] && freeClst == Freed(geo.nFatent, old(freeClst))
      ensures dev.reliable && old(MirrorInSync()) ==> MirrorInSync()
      ensures winsect == old(winsect) || geo.InFat1(winsect) || winsect == NOSECT
      ensures fsiFlag / 0x80 == old(fsiFlag) / 0x80 && (fsiFlag == 0 ==> old(fsiFlag) == 0 && freeClst == old(freeClst)) && (old(fsiFlag) <= 1 ==> fsiFlag <= 1)
    {
      hide Volume.Logical, Volume.MirrorInSync, Geometry.Fat, Geometry.Stored, Geometry.OthersKept, Geometry.SameOutsideFat;
      ghost var v := Logical();
      res := PutFat(clst, 0);
      if res == OK {
        StoredEntry(v, clst, 0);
        if freeClst < geo.nFatent - 2 {
          freeClst := freeClst + 1;
          fsiFlag := SetBit0(fsiFlag);
        }
      }
    }

    lemma CountAfter(clst: dword, pclst: dword)
      requires Valid()
      ensures FreeKnown(AllocState()) ==>
                var b := Remove(AllocState(), Eoc(geo.ty), clst, pclst).1;
                |b.fat| >= 2 && (FreeKnown(b) <==> CountSafe(AllocState(), clst, pclst))
    {
      hide Volume.Logical, Geometry.Fat, CountSafe, FreeKnown, Remove;
      if FreeKnown(AllocState()) {
        RemoveCounts(AllocState(), Eoc(geo.ty), clst, pclst);
      }
    }

    /** remove_chain */
    method RemoveChain(clst0: dword, pclst: dword) returns (res: FResult)
      requires Valid()
      modifies this`winsect, this`wflag, this`freeClst, this`fsiFlag, win, dev
      ensures Valid() && |dev.sectors| == old(|dev.sectors|)
      ensures geo.SameOutsideFat(old(Logical()), Logical())
      ensures dev.reliable ==> res == OK || res == INT_ERR
      ensures res == OK ==> Remove(old(AllocState()), Eoc(geo.ty), clst0, pclst) == (true, AllocState())
      ensures dev.reliable && res != OK ==> Remove(old(AllocState()), Eoc(geo.ty), clst0, pclst) == (false, AllocState())
      ensures (dev.reliable || res == OK) && old(FreeKnown(AllocState())) ==>
                (FreeKnown(AllocState()) <==> old(CountSafe(AllocState(), clst0, pclst)))
      ensures dev.reliable && old(MirrorInSync()) ==> MirrorInSync()
      ensures winsect == old(winsect) || geo.InFat1(winsect) || winsect == NOSECT
      ensures fsiFlag / 0x80 == old(fsiFlag) / 0x80 && (fsiFlag == 0 ==> old(fsiFlag) == 0 && freeClst == old(freeClst)) && (old(fsiFlag) <= 1 ==> fsiFlag <= 1)
    {
      hide Volume.Logical, Volume.MirrorInSync, Geometry.Fat, Geometry.Stored, Geometry.OthersKept, Geometry.SameOutsideFat, CountSafe, FreeKnown;
      ghost var v := Logical();
      CountAfter(clst0, pclst);
      geo.SameOutsideRefl(v);
      if clst0 < 2 || clst0 >= geo.nFatent {
        return INT_ERR;
      }
      if pclst != 0 {
        res := PutFat(pclst, 0xFFFF_FFFF);
        if res != OK { return; }
        StoredEntry(v, pclst, 0xFFFF_FFFF);
      }
      var clst := clst0;
      ghost var goal := Unlink(geo.Fat(Logical()), freeClst, clst);
      res := OK;
      while true
        invariant Valid() && |dev.sectors| == old(|dev.sectors|)
        invariant geo.IsCluster(clst) && geo.SameOutsideFat(v, Logical())
        invariant goal == Unlink(geo.Fat(Logical()), freeClst, clst)
        invariant dev.reliable && old(MirrorInSync()) ==> MirrorInSync()
        invariant winsect == old(winsect) || geo.InFat1(winsect) || winsect == NOSECT
        invariant fsiFlag / 0x80 == old(fsiFlag) / 0x80 && (fsiFlag == 0 ==> old(fsiFlag) == 0 && freeClst == old(freeClst)) && (old(fsiFlag) <= 1 ==> fsiFlag <= 1)
        decreases CountUsed(geo.Fat(Logical()))
      {
        var nxt := GetFat(clst);
        if nxt == 0 { return OK; }
        if nxt == 1 { return INT_ERR; }
        if nxt == 0xFFFF_FFFF { return DISK_ERR; }
        ghost var u := Logical();
        CountUsedDrops(geo.Fat(u), clst);
        res := FreeCluster(clst);
        geo.SameOutsideTrans(v, u, Logical());
        if res != OK { return; }
        clst := nxt;
        if clst >= geo.nFatent { return OK; }
      }
    }

    /** The FAT12 scan of f_getfree: entry by entry. */
    method ScanFree12() returns (res: FResult, nfree: nat)
      requires Valid()
      modifies this`winsect, this`wflag, win, dev
      ensures Valid() && Logical() == old(Logical()) && |dev.sectors| == old(|dev.sectors|)
      ensures res == OK ==> nfree == CountFree(geo.Fat(Logical()), 2) && NoBadEntry(geo.Fat(Logical()))
      ensures dev.reliable && NoBadEntry(geo.Fat(Logical())) ==> res == OK
    {
      hide Volume.Logical, Volume.MirrorInSync, Geometry.Fat;
      ghost var fat := geo.Fat(Logical());
      nfree := 0;
      res := OK;
      var clst: dword := 2;
      while clst < geo.nFatent
        invariant Valid() && Logical() == old(Logical()) && |dev.sectors| == old(|dev.sectors|)
        invariant 2 <= clst <= geo.nFatent
        invariant nfree + CountFree(fat, clst) == CountFree(fat, 2)
        invariant forall c :: 2 <= c < clst ==> fat[c] != 1
      {
        var stat := GetFat(clst);
        if stat == 0xFFFF_FFFF { return DISK_ERR, nfree; }
        if stat == 1 { return INT_ERR, nfree; }
        if stat == 0 {
          nfree := nfree + 1;
        }
        clst := clst + 1;
      }
    }

    /** Is the 16 or 32-bit entry at offset `i` of the window zero? */
    method ZeroAt(i: nat, ghost c: nat) returns (z: bool)
      requires Valid() && !geo.ty.FAT12? && c < geo.nFatent && i == EntryOfs(geo.ty, c)
      requires winsect == geo.fatbase + EntrySector(geo.ty, c) && winsect < |dev.sectors| && win[..] == Logical()[winsect]
      ensures z <==> geo.Fat(Logical())[c] == 0
    {
      hide Volume.Logical, Geometry.Fat, Geometry.FatBytes, EntrySector, EntryOfs, LdWord, Decode32;
      geo.FatAt(Logical(), c);
      EntryBytes(geo.ty, geo.FatBytes(Logical()), geo.fsize, c);
      ghost var q := EntrySector(geo.ty, c);
      WindowShowsFat(q, i);
      WindowShowsFat(q, i + 1);
      if geo.ty.FAT16? {
        z := LdWord(win[i], win[i + 1]) == 0;
      } else {
        WindowShowsFat(q, i + 2);
        WindowShowsFat(q, i + 3);
        z := Decode32(win[i], win[i + 1], win[i + 2], win[i + 3]) == 0;
      }
    }

    lemma SectorInFat(c: nat)
      requires Valid() && c < geo.nFatent
      ensures EntrySector(geo.ty, c) < geo.fsize && geo.fatbase + EntrySector(geo.ty, c) < |dev.sectors|
    {
      hide Volume.Logical, Geometry.Fat, Geometry.FatBytes, EntrySector, EntryOfs;
      geo.FatAt(Logical(), c);
      EntryBytes(geo.ty, geo.FatBytes(Logical()), geo.fsize, c);
    }

    /** The FAT16/32 scan of f_getfree: sector by sector, including the two reserved entries. */
    method ScanFree() returns (res: FResult, nfree: nat)
      requires Valid() && !geo.ty.FAT12?
      modifies this`winsect, this`wflag, win, dev
      ensures Valid() && Logical() == old(Logical()) && |dev.sectors| == old(|dev.sectors|)
      ensures res == OK ==> nfree == CountFree(geo.Fat(Logical()), 0)
      ensures dev.reliable ==> res == OK
    {
      hide Volume.Logical, Volume.MirrorInSync, Geometry.Fat, EntrySector, EntryOfs;
      hide Geometry.SameOutsideFat;
      ghost var fat := geo.Fat(Logical());
      var clst: nat := geo.nFatent;
      var sect: nat := geo.fatbase;
      var i: nat := 0;
      nfree := 0;
      res := OK;
      FirstEntry(geo.ty);
      while clst > 0
        invariant Valid() && Logical() == old(Logical()) && |dev.sectors| == old(|dev.sectors|)
        invariant clst <= geo.nFatent && res == OK
        invariant i == EntryOfs(geo.ty, geo.nFatent - clst)
        invariant sect == geo.fatbase + EntrySector(geo.ty, geo.nFatent - clst) + if i == 0 then 0 else 1
        invariant i != 0 ==> winsect == sect - 1 && winsect < |dev.sectors| && win[..] == Logical()[winsect]
        invariant nfree + CountFree(fat, geo.nFatent - clst) == CountFree(fat, 0)
      {
        ghost var c := geo.nFatent - clst;
        SectorInFat(c);
        if i == 0 {
          res := MoveWindow(sect);
          if res != OK { return; }
          sect := sect + 1;
        }
        var z := ZeroAt(i, c);
        if z {
          nfree := nfree + 1;
        }
        i := (i + if geo.ty.FAT16? then 2 else 4) % SS;
        NextEntry(geo.ty, c);
        clst := clst - 1;
      }
    }

    /** f_getfree on a mounted volume: the recorded count if it is valid, else a scan that records it. */
    method GetFree() returns (res: FResult, nclst: nat)
      requires Valid()
      modifies this`winsect, this`wflag, this`freeClst, this`fsiFlag, win, dev
      ensures Valid() && Logical() == old(Logical()) && |dev.sectors| == old(|dev.sectors|)
      ensures res == OK && old(FreeKnown(AllocState())) && ReservedUsed(geo.Fat(Logical())) ==>
                nclst == CountFree(geo.Fat(Logical()), 2) && FreeKnown(AllocState()) && freeClst == nclst
      ensures dev.reliable && NoBadEntry(geo.Fat(Logical())) ==> res == OK
      ensures old(freeClst) <= geo.nFatent - 2 ==> res == OK && dev.sectors == old(dev.sectors)
      ensures freeClst == (if res == OK then nclst else old(freeClst))
      ensures fsiFlag == (if res == OK && old(freeClst) > geo.nFatent - 2 then SetBit0(old(fsiFlag)) else old(fsiFlag))
    {
      hide Volume.Logical, Volume.MirrorInSync, Geometry.Fat;
      if freeClst <= geo.nFatent - 2 {
        return OK, freeClst;
      }
      if geo.ty.FAT12? {
        res, nclst := ScanFree12();
      } else {
        res, nclst := ScanFree();
      }
      CountPositive(geo.Fat(Logical()), 0);
      CountPositive(geo.Fat(Logical()), 2);
      if res == OK {
        freeClst := nclst;
        fsiFlag := SetBit0(fsiFlag);
      }
    }

    /** disk_write of file data, past the window: the sectors must not be the one in the window. */
    method WriteData(src: array<byte>, off: nat, sect: dword, cc: nat) returns (ok: bool)
      requires Valid() && off + SS * cc <= src.Length
      requires geo.database <= sect && sect + cc <= |dev.sectors| && !(sect <= winsect < sect + cc)
      modifies dev
      ensures Valid() && |dev.sectors| == old(|dev.sectors|)
      ensures dev.reliable ==> ok
      ensures ok ==> RunWritten(old(Logical()), Logical(), sect, cc, src[off..off + SS * cc])
      ensures old(MirrorInSync()) ==> MirrorInSync()
    {
      hide Chunk;
      ok := dev.Write(src, off, sect, cc);
    }

    /** disk_read of file data, past the window. */
    method ReadData(dst: array<byte>, off: nat, sect: dword, cc: nat) returns (ok: bool)
      requires Valid() && 0 < cc && off + SS * cc <= dst.Length && dst != win
      requires geo.database <= sect && sect + cc <= |dev.sectors| && !(sect <= winsect < sect + cc)
      modifies dst
      ensures Valid() && Logical() == old(Logical()) && (old(MirrorInSync()) ==> MirrorInSync())
      ensures dev.reliable ==> ok
      ensures ok ==> dst[..] == Splice(old(dst[..]), off, RunData(Logical(), sect, cc))
    {
      hide RunData, Splice;
      ok := dev.Read(dst, off, sect, cc);
      SameRunData(Logical(), dev.sectors, sect, cc);
    }

    /** f_sync: the directory entry at `d` in sector `at` is updated in the window. */
    method WriteEntry(at: dword, d: nat, cl: dword, size: dword, tm: dword) returns (res: FResult)
      requires Valid() && at < NOSECT && !geo.InFatArea(at) && d + SZDIRE <= SS
      modifies this`winsect, this`wflag, win, dev
      ensures Valid() && |dev.sectors| == old(|dev.sectors|)
      ensures res == OK || res == DISK_ERR
      ensures dev.reliable && at < |dev.sectors| ==> res == OK
      ensures res == OK ==>
        && wflag && winsect == at < |dev.sectors|
        && Logical() == old(Logical())[at := Updated(geo.ty, old(Logical())[at], d, cl, size, tm)]
      ensures res != OK ==> Logical() == old(Logical())
      ensures dev.reliable && old(MirrorInSync()) ==> MirrorInSync()
    {
      hide Updated;
      res := MoveWindow(at);
      if res == OK {
        ghost var v := Overlay(dev.sectors, wflag, winsect, win[..]);
        ghost var was := win[..];
        StoreEntry(win, geo.ty, d, cl, size, tm);
        wflag := true;
        assert Overlay(dev.sectors, wflag, winsect, win[..]) == v[at := win[..]];
        EditProject(geo, v, at, win[..]);
      }
    }

    /** sync_fs: write back the window and, on FAT32 after allocations, the information sector next to the boot sector. */
    method SyncFs() returns (res: FResult)
      requires Valid()
      modifies this`winsect, this`wflag, this`fsiFlag, win, dev
      ensures |dev.sectors| == old(|dev.sectors|) && (res == OK || res == DISK_ERR)
      ensures !dev.reliable ==> Valid() || winsect == geo.volbase + 1
      ensures Valid() <==> !(res == OK && old(fsiFlag) == 1 && geo.ty == FAT32) || dev.sectors[geo.volbase + 1] == InfoSector(freeClst, lastClst)
      ensures dev.reliable ==>
        && Valid() && res == OK && !wflag
        && dev.sectors == if old(fsiFlag) == 1 && geo.ty == FAT32 then old(Flushed())[geo.volbase + 1 := InfoSector(freeClst, lastClst)]
                          else old(Flushed())
      ensures winsect == old(winsect) || winsect == geo.volbase + 1
      ensures fsiFlag == 1 ==> res != OK
      ensures dev.reliable ==> fsiFlag == if old(fsiFlag) == 1 then 0 else old(fsiFlag)
      ensures fsiFlag / 0x80 == old(fsiFlag) / 0x80
      ensures dev.reliable && (old(fsiFlag) == 1 && geo.ty == FAT32 ==> geo.volbase + 1 < geo.fatbase) ==>
        Logical() == if old(fsiFlag) == 1 && geo.ty == FAT32 then old(Logical())[geo.volbase + 1 := InfoSector(freeClst, lastClst)]
                     else old(Logical())
    {
      hide InfoSector, Geometry.CopiesAgree;
      res := SyncWindow();
      if res == OK {
        if fsiFlag == 1 {
          fsiFlag := 0;
          if geo.ty == FAT32 {
            StoreInfo(win, freeClst, lastClst);
            winsect := geo.volbase + 1;
            var _ := dev.Write(win, 0, winsect, 1);
            assert win[0..0 + SS] == win[..];
            if geo.volbase + 1 < geo.fatbase {
              EditProject(geo, old(Flushed()), geo.volbase + 1, win[..]);
            }
          }
        }
      }
    }
  }
}
