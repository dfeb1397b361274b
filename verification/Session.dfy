/** Runs of operations on one open file, against a plain byte sequence with a cursor. */
module Session {
  import opened Bytes
  import opened FatTable
  import opened Layout
  import opened Chains
  import opened Devices
  import opened Volumes
  import opened Files
  import opened FileState
  import opened FileDisk
  import opened Mounting
  import Mount

  /** The abstract file: its bytes, the cursor, and the size it can grow to. */
  datatype Plain = Plain(bytes: seq<byte>, pos: nat, room: nat) {
    predicate Valid() {
      pos <= |bytes| <= room && |bytes| < TWO32
    }
  }

  datatype Op =
    | WriteOp(data: seq<byte>)
    | ReadOp(len: dword)
    | SeekOp(to: dword)
    | TruncateOp
    | SyncOp(time: dword)

  /** What an operation answers: the bytes read, or the number of bytes written. */
  datatype Answer = Answer(res: FResult, data: seq<byte>, count: nat)

  datatype Mode = Mode(canRead: bool, canWrite: bool)

  /** How many of `n` bytes a write at the cursor takes: up to 4 GiB - 1 and up to the room. */
  function Taken(p: Plain, n: nat): (r: nat)
    requires p.Valid()
    ensures r <= n && p.pos + r <= p.room && p.pos + r < TWO32
  {
    Min(Min(n, 0xFFFF_FFFF - p.pos), p.room - p.pos)
  }

  /** A write overwrites and appends at the cursor. */
  function Written(p: Plain, data: seq<byte>): (q: Plain)
    requires p.Valid()
    ensures q.Valid()
  {
    var n := Taken(p, |data|);
    p.(bytes := Splice(p.bytes, p.pos, data[..n]), pos := p.pos + n)
  }

  /** The plain meaning of each operation; only the bytes a seek adds past the end are left open. */
  ghost predicate Step(m: Mode, p: Plain, op: Op, q: Plain, a: Answer) {
    && p.Valid() && q.Valid() && q.room == p.room
    && match op
       case WriteOp(d) =>
         if m.canWrite then a.res == OK && a.count == Taken(p, |d|) && q == Written(p, d)
         else a.res == DENIED && a.count == 0 && q == p
       case ReadOp(n) =>
         if m.canRead then
           && a.res == OK && q == p.(pos := Min(p.pos + n, |p.bytes|)) && a.data == p.bytes[p.pos..q.pos]
         else a.res == DENIED && a.data == [] && q == p
       case SeekOp(to) =>
         && a.res == OK && q.pos == Min(to, if m.canWrite then p.room else |p.bytes|)
         && |q.bytes| == Max(|p.bytes|, q.pos) && p.bytes <= q.bytes
       case TruncateOp =>
         if m.canWrite then a.res == OK && q == p.(bytes := p.bytes[..p.pos]) else a.res == DENIED && q == p
       case SyncOp(_) => a.res == OK && q == p
  }

  /** The trace of a run: one state before each operation and one at the end. */
  ghost predicate Runs(m: Mode, trace: seq<Plain>, ops: seq<Op>, answers: seq<Answer>) {
    && |trace| == |ops| + 1 && |answers| == |ops|
    && forall i :: 0 <= i < |ops| ==> Step(m, trace[i], ops[i], trace[i + 1], answers[i])
  }

  lemma RunsOn(m: Mode, trace: seq<Plain>, ops: seq<Op>, answers: seq<Answer>, op: Op, q: Plain, a: Answer)
    requires Runs(m, trace, ops, answers) && Step(m, trace[|ops|], op, q, a)
    ensures Runs(m, trace + [q], ops + [op], answers + [a])
  {
    hide Step;
  }

  lemma TakenInPieces(p: Plain, q: Plain, m: nat, n: nat)
    requires p.Valid() && q.Valid() && q.room == p.room && q.pos == p.pos + Taken(p, m)
    ensures Taken(p, m + n) == Taken(p, m) + Taken(q, n)
    ensures Taken(p, m) < m ==> Taken(q, n) == 0
  {
  }

  /** Writing in two pieces is writing in one. */
  lemma WriteInPieces(p: Plain, d: seq<byte>, e: seq<byte>)
    requires p.Valid()
    ensures Written(Written(p, d), e) == Written(p, d + e)
    ensures Taken(p, |d + e|) == Taken(p, |d|) + Taken(Written(p, d), |e|)
  {
    hide Splice, Taken;
    var q := Written(p, d);
    TakenInPieces(p, q, |d|, |e|);
    var i, j := Taken(p, |d|), Taken(q, |e|);
    SpliceSplit(p.bytes, p.pos, d[..i], e[..j]);
    assert (d + e)[..i + j] == d[..i] + e[..j];
  }

  /** What was written is read back, as far as it was taken. */
  lemma WrittenIsRead(p: Plain, d: seq<byte>)
    requires p.Valid()
    ensures var q := Written(p, d); q.bytes[p.pos..q.pos] == d[..Taken(p, |d|)]
    ensures forall k :: 0 <= k < |p.bytes| && !(p.pos <= k < Written(p, d).pos) ==> Written(p, d).bytes[k] == p.bytes[k]
  {
  }

  /** The size and the cursor stay within the room, and the room never changes, whatever is done. */
  lemma {:induction false} RoomIsConstant(m: Mode, trace: seq<Plain>, ops: seq<Op>, answers: seq<Answer>, i: nat)
    requires Runs(m, trace, ops, answers) && i < |trace| && trace[0].Valid()
    ensures trace[i].Valid() && trace[i].room == trace[0].room
  {
    if i > 0 {
      RoomIsConstant(m, trace, ops, answers, i - 1);
      assert Step(m, trace[i - 1], ops[i - 1], trace[i], answers[i - 1]);
    }
  }

  ghost predicate Usable(f: File)
    reads f, f.buf, f.fs, f.fs.win, f.fs.dev
  {
    f.Valid() && f.err == OK
  }

  ghost function Abstract(f: File): (p: Plain)
    requires Usable(f)
    reads f, f.buf, f.fs, f.fs.win, f.fs.dev
    ensures p.Valid()
  {
    f.InsideRoom();
    Plain(f.Contents(), f.fptr, f.Room())
  }

  /** Only the file changed. */
  twostate predicate RestKept(f: File)
    requires old(Usable(f)) && Usable(f)
    reads f, f.buf, f.fs, f.fs.win, f.fs.dev
  {
    Kept(f.fs.geo, f.own, f.dirSect, f.dirOfs, old(f.fs.Logical()), f.fs.Logical())
  }

  /** The file refines the plain file, one operation at a time, and the rest of the disk stays. */
  method Do(f: File, op: Op) returns (a: Answer)
    requires Usable(f) && (op.WriteOp? ==> |op.data| < TWO32)
    modifies f, f.buf, f.fs, f.fs.win, f.fs.dev
    ensures Usable(f) && Step(Mode(f.canRead, f.canWrite), old(Abstract(f)), op, Abstract(f), a) && RestKept(f)
    ensures op.SyncOp? ==> f.Synced()
  {
    hide File.Ok, File.Contents, File.Room, File.Synced, Splice, Placed, Kept;
    match op
    case WriteOp(d) =>
      var src := new byte[|d|](i requires 0 <= i < |d| => d[i]);
      assert src[..] == d;
      var res, n := f.Write(src, |d|);
      a := Answer(res, [], n);
    case ReadOp(n) =>
      var dst := new byte[n](_ => 0);
      var res, br := f.Read(dst, n);
      a := Answer(res, dst[..br], 0);
    case SeekOp(to) =>
      var res := f.Lseek(to);
      a := Answer(res, [], 0);
    case TruncateOp =>
      var res := f.Truncate();
      a := Answer(res, [], 0);
    case SyncOp(tm) =>
      var res := f.Sync(tm);
      a := Answer(res, [], 0);
  }

  /** Every run of operations is a run of the plain file, and the rest of the disk stays. */
  method Run(f: File, ops: seq<Op>) returns (answers: seq<Answer>, ghost trace: seq<Plain>)
    requires Usable(f) && forall i :: 0 <= i < |ops| && ops[i].WriteOp? ==> |ops[i].data| < TWO32
    modifies f, f.buf, f.fs, f.fs.win, f.fs.dev
    ensures Usable(f) && Runs(Mode(f.canRead, f.canWrite), trace, ops, answers) && |trace| == |ops| + 1 && RestKept(f)
    ensures trace[0] == old(Abstract(f)) && trace[|ops|] == Abstract(f)
    ensures |ops| > 0 && ops[|ops| - 1].SyncOp? ==> f.Synced()
    ensures old(Bootable(f)) ==> Bootable(f)
  {
    hide Step, Runs, File.Ok, File.Synced, Abstract, Kept, BootTells;
    ghost var m := Mode(f.canRead, f.canWrite);
    answers, trace := [], [Abstract(f)];
    SinceOpened(f);
    ghost var l := f.fs.Logical();
    NoRun(m, trace[0]);
    for i := 0 to |ops|
      invariant Usable(f) && Runs(m, trace, ops[..i], answers) && |trace| == i + 1
      invariant trace[0] == old(Abstract(f)) && trace[i] == Abstract(f)
      invariant 0 < i && ops[i - 1].SyncOp? ==> f.Synced()
    {
      var a := Do(f, ops[i]);
      RunsOn(m, trace, ops[..i], answers, ops[i], Abstract(f), a);
      trace, answers := trace + [Abstract(f)], answers + [a];
      assert ops[..i + 1] == ops[..i] + [ops[i]];
    }
    assert ops[..|ops|] == ops;
    SinceOpened(f);
    KeptBetween(f.fs.geo, f.own, f.dirSect, f.dirOfs, f.base, l, f.fs.Logical());
    StillBootable(f, l, old(f.fs.fsiFlag));
  }

  lemma SinceOpened(f: File)
    requires Usable(f)
    ensures f.fs.Valid() && Kept(f.fs.geo, f.own, f.dirSect, f.dirOfs, f.base, f.fs.Logical()) && (f.informed <==> f.fs.fsiFlag <= 1)
    ensures EntryPlaced(f.fs.geo, f.own, f.dirSect, f.dirOfs)
  {
    hide Kept, EntryPlaced, Core, Volume.Logical;
  }

  lemma NoRun(m: Mode, p: Plain)
    ensures Runs(m, [p], [], [])
  {
  }

  /* ---- a new start ---- */

  /** The boot sector of the volume describes it. */
  ghost predicate Bootable(f: File)
    requires Usable(f)
    reads f, f.buf, f.fs, f.fs.win, f.fs.dev
  {
    BootTells(f.fs.geo, f.fs.Logical(), f.fs.fsiFlag)
  }

  lemma StillBootable(f: File, l: seq<Sector>, flag: byte)
    requires Usable(f) && Kept(f.fs.geo, f.own, f.dirSect, f.dirOfs, l, f.fs.Logical()) && (flag <= 1 <==> f.fs.fsiFlag <= 1)
    ensures BootTells(f.fs.geo, l, flag) ==> Bootable(f)
  {
    hide Kept, EntryPlaced, Core, Volume.Logical, Mount.MountVolume, Mount.Fields, Mount.CheckFs;
    SinceOpened(f);
    BootKept(f.fs.geo, f.own, f.dirSect, f.dirOfs, l, f.fs.Logical());
  }

  /**
    * After f_sync all memory may be lost: from the device, the start of the volume and the place of the entry alone,
    * mounting and opening find the same file, the same room, and a free count that is right or unknown.
    */
  method Reopen(dev: Device, start: dword, at: dword, d: nat, canRead: bool, canWrite: bool, append: bool, ghost f: File) returns (h: File)
    requires Usable(f) && f.Synced() && Bootable(f)
    requires dev == f.fs.dev && start == f.fs.geo.volbase && at == f.dirSect && d == f.dirOfs
    modifies dev
    ensures Usable(h) && fresh(h) && fresh(h.fs) && h.canRead == canRead && h.canWrite == canWrite && Bootable(h)
    ensures Abstract(h) == old(Abstract(f)).(pos := if append then |old(f.Contents())| else 0)
    ensures h.fs.freeClst == old(f.fs.freeClst) || h.fs.freeClst > h.fs.geo.nFatent - 2
    ensures f.informed && old(f.fs.freeClst) <= f.fs.geo.nFatent - 2 ==> h.fs.freeClst == old(f.fs.freeClst)
  {
    hide Volume.Logical, Geometry.Fat, Geometry.Valid, Geometry.ValidData, OwnSector, FreeKnown, NoBadEntry, Owns, DiskFile;
    hide Content, Placed, Core, File.Room, Geometry.InMirror, Kept, InfoTells, MountedAs, LaidOut, BootTells, Recorded, Booted;
    ghost var c, g, free, flag, s0 := f.Contents(), f.fs.geo, f.fs.freeClst, f.fs.fsiFlag, f.fs.dev.sectors;
    Remounted(f);
    LeavesRecord(f);
    var vs, m := MountAt(dev, start);
    var v := vs[0];
    NewVolume(v, dev, g, free, flag);
    var _ := v.MoveWindow(at);
    h := new File.Open(v, canRead, canWrite, append, false, d, f.own, f.chain, c);
    assert h.Room() == f.Room() by {
      SameRoom(f, h);
    }
    BootAgain(h, s0);
  }

  lemma BootAgain(h: File, v: seq<Sector>)
    requires Usable(h) && h.fs.geo.Valid() && h.fs.geo.volEnd <= |v| && h.base == h.fs.geo.Project(v) && Booted(h.fs.geo, v, h.informed)
    ensures Bootable(h)
  {
    hide Kept, EntryPlaced, Core, Volume.Logical, Mount.MountVolume, Mount.Fields, Mount.CheckFs, Geometry.Project, File.Ok, Geometry.Valid;
    SinceOpened(h);
    BootProjects(h.fs.geo, v);
    BootKept(h.fs.geo, h.own, h.dirSect, h.dirOfs, h.base, h.fs.Logical());
  }

  lemma BootProjects(g: Geometry, v: seq<Sector>)
    requires g.Valid() && g.volEnd <= |v|
    ensures g.volbase < |v| && g.Project(v)[g.volbase] == v[g.volbase]
  {
  }

  lemma SameRoom(f: File, h: File)
    requires h.fs.geo == f.fs.geo && h.own == f.own
    ensures h.Room() == f.Room()
  {
  }

  /** The parts of a synced file's state that are still known after a loss of memory. */
  lemma Remounted(f: File)
    requires Usable(f) && f.Synced()
    ensures f.fs.geo.Valid() && f.fs.geo.volEnd <= |f.fs.dev.sectors| < TWO32 && f.dirSect < |f.fs.dev.sectors|
    ensures f.fs.Logical() == f.fs.geo.Project(f.fs.dev.sectors)
    ensures NoBadEntry(f.fs.AllocState().fat) && Owns(f.own, f.fs.AllocState().fat, f.chain)
    ensures DiskFile(f.fs.geo, f.fs.Logical(), f.dirSect, f.dirOfs, f.chain, f.Contents())
  {
    hide Geometry.Fat, OwnSector, FreeKnown, NoBadEntry, Owns, DiskFile, Content, Placed, Geometry.Project, Kept, InfoTells;
    DeviceFile(f.fs.geo, f.fs.dev.sectors, f.dirSect, f.dirOfs, f.chain, f.Contents());
  }

  /** The boot sector on the device describes the geometry. */
  ghost predicate Booted(g: Geometry, v: seq<Sector>, informed: bool) {
    && g.volbase < |v| && g.volbase < TWO32
    && var b := Mount.Fields(v[g.volbase]);
       var m := Mount.MountVolume(b, g.volbase);
       Mount.CheckFs(b) && m.Volume? && m.g == g && (m.infoEnabled <==> informed)
  }

  /** What a synced file leaves on the device for the next start: the boot sector and a free count that is right or unknown. */
  ghost predicate Recorded(g: Geometry, v: seq<Sector>, free: nat, flag: byte) {
    && g.Valid() && g.volEnd <= |v| < TWO32 && Booted(g, v, flag <= 1) && (flag == 0 || flag >= 0x80)
    && InfoTells(g, g.Project(v), free, flag) && InfoSafe(g, flag) && FreeKnown(Alloc(g.Fat(g.Project(v)), 0, free))
  }

  lemma LeavesRecord(f: File)
    requires Usable(f) && f.Synced() && Bootable(f)
    ensures Recorded(f.fs.geo, f.fs.dev.sectors, f.fs.freeClst, f.fs.fsiFlag) && LaidOut(f.fs.dev.sectors, f.fs.geo.volbase)
    ensures Booted(f.fs.geo, f.fs.dev.sectors, f.informed) && f.fs.geo.volbase < |f.fs.dev.sectors| && (f.informed <==> f.fs.fsiFlag <= 1)
    ensures var b := Mount.Fields(f.fs.dev.sectors[f.fs.geo.volbase]);
            Mount.CheckFs(b) && Mount.MountVolume(b, f.fs.geo.volbase).Volume?
  {
    hide Geometry.Fat, OwnSector, Core, Content, Placed, DiskFile, Kept, InfoTells, Mount.Fields, Mount.CheckFs, Mount.MountVolume;
    InfoMeans32(Mount.Fields(f.fs.dev.sectors[f.fs.geo.volbase]), f.fs.geo.volbase);
  }

  lemma InfoMeans32(b: Mount.Boot, base: dword)
    ensures var m := Mount.MountVolume(b, base); m.Volume? && m.infoEnabled ==> m.g.ty == FAT32
  {
  }

  /** Two counts that the same information sector tells are the same, or both unknown. */
  lemma ToldAlike(g: Geometry, l: seq<Sector>, a: nat, b: nat)
    requires g.ty == FAT32 && InfoTells(g, l, a, 0) && InfoTells(g, l, b, 0)
    ensures a == b || (a > g.nFatent - 2 && b > g.nFatent - 2)
  {
    hide Mount.LoadInfo;
  }

  /** The volume mounted anew is the old one, and the count loaded is right or unknown. */
  lemma NewVolume(v: Volume, dev: Device, g: Geometry, free: nat, flag: byte)
    requires Recorded(g, dev.sectors, free, flag) && MountedAs(v, dev, g.volbase)
    ensures v.Valid() && !v.wflag && v.geo == g && v.dev == dev && v.Logical() == g.Project(dev.sectors)
    ensures FreeKnown(v.AllocState()) && InfoTells(g, v.Logical(), v.freeClst, v.fsiFlag) && InfoSafe(g, v.fsiFlag)
    ensures v.fsiFlag == 0 || v.fsiFlag == 0x80
    ensures dev.reliable ==> (v.fsiFlag <= 1 <==> flag <= 1)
    ensures v.freeClst == free || v.freeClst > g.nFatent - 2
    ensures dev.reliable && flag <= 1 && free <= g.nFatent - 2 ==> v.freeClst == free
  {
    hide Geometry.Fat, InfoTells, Mount.Fields, Mount.CheckFs, Mount.MountVolume, Volume.Logical, Geometry.Project;
    InfoMeans32(Mount.Fields(dev.sectors[g.volbase]), g.volbase);
    if v.fsiFlag == 0 {
      ToldAlike(g, v.Logical(), free, v.freeClst);
    }
  }
}
