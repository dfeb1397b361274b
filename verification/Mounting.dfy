/** Mounting a volume from its device: the boot sector gives the geometry, the information sector the free count. */
module Mounting {
  import opened Bytes
  import opened Entries
  import opened Layout
  import opened Devices
  import opened Volumes
  import opened FileDisk
  import Mount

  /** The boot sector describes the geometry, and says whether there is an information sector. */
  ghost predicate BootTells(g: Geometry, l: seq<Sector>, flag: byte) {
    && g.volbase < |l| && g.volbase < TWO32
    && var b := Mount.Fields(l[g.volbase]);
       var m := Mount.MountVolume(b, g.volbase);
       Mount.CheckFs(b) && m.Volume? && m.g == g && (m.infoEnabled <==> flag <= 1)
  }

  /** The volume at `base`, if the sector there is accepted, is laid out in order on the device. */
  ghost predicate LaidOut(v: seq<Sector>, base: dword) {
    base < |v| < TWO32 &&
    var m := Mount.MountVolume(Mount.Fields(v[base]), base);
    m.Volume? ==> m.g.Valid() && m.g.volbase == base && m.g.volEnd <= |v| && (m.infoEnabled ==> base + 1 < m.g.fatbase)
  }

  /** The state of a volume just mounted: an empty or clean window, and the count that the information sector tells, or none. */
  ghost predicate MountedAs(v: Volume, dev: Device, base: dword)
    requires base < |dev.sectors|
    reads v, v.win, dev
  {
    var b := Mount.Fields(dev.sectors[base]);
    var m := Mount.MountVolume(b, base);
    && v.dev == dev && v.Valid() && !v.wflag && Mount.CheckFs(b) && m.Volume? && v.geo == m.g
    && v.Logical() == v.geo.Project(dev.sectors) && InfoTells(v.geo, v.Logical(), v.freeClst, v.fsiFlag)
    && ((v.fsiFlag == 0x80 && v.freeClst == 0xFFFF_FFFF) || (v.fsiFlag == 0 && m.infoEnabled))
    && (dev.reliable && m.infoEnabled ==> v.fsiFlag == 0)
  }

  /** check_fs and mount_volume on the sector where a volume starts; `[]` if there is no FAT volume or the device fails.  `m` has the place of the root. */
  method MountAt(dev: Device, base: dword) returns (vs: seq<Volume>, m: Mount.Mounted)
    requires LaidOut(dev.sectors, base)
    modifies dev
    ensures dev.sectors == old(dev.sectors) && |vs| <= 1
    ensures vs == [] ==> !dev.reliable || !Mount.CheckFs(Mount.Fields(dev.sectors[base])) ||
                         Mount.MountVolume(Mount.Fields(dev.sectors[base]), base).NoFileSystem?
    ensures vs != [] ==> fresh(vs[0]) && fresh(vs[0].win) && MountedAs(vs[0], dev, base) && m == Mount.MountVolume(Mount.Fields(dev.sectors[base]), base)
  {
    hide Mount.MountVolume, Mount.CheckFs, Mount.Fields, Mount.LoadInfo;
    var buf := new byte[SS](_ => 0);
    var ok := dev.Read(buf, 0, base, 1);
    if !ok {
      return [], Mount.NoFileSystem;
    }
    LoadedSector(seq(SS, _ => 0), buf[..], dev.sectors, base);
    var b := Mount.Fields(buf[..]);
    if !Mount.CheckFs(b) {
      return [], Mount.NoFileSystem;
    }
    m := Mount.MountVolume(b, base);
    if m.NoFileSystem? {
      return [], m;
    }
    var v := new Volume(m.g, dev);
    if m.infoEnabled {
      var res := v.MoveWindow(base + 1);
      if res == OK {
        v.fsiFlag := 0;
        match Mount.LoadInfo(v.win[..]) {
          case Unknown =>
          case Info(free, last) =>
            v.freeClst, v.lastClst := free, last;
        }
      }
    }
    vs := [v];
  }

  /** A volume just mounted is described by its boot sector. */
  lemma MountedBoots(v: Volume, dev: Device, base: dword)
    requires LaidOut(dev.sectors, base) && MountedAs(v, dev, base) && dev.reliable
    ensures BootTells(v.geo, v.Logical(), v.fsiFlag)
  {
    hide Mount.MountVolume, Mount.CheckFs, Mount.Fields, InfoTells, Volume.Logical;
  }
}
