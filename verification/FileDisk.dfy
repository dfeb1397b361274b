/** A file as the device alone tells it: a directory entry, a chain of the first FAT and data sectors. */
module FileDisk {
  import opened Bytes
  import opened FatTable
  import opened Entries
  import opened Layout
  import opened Chains
  import opened ChainSet
  import opened FileSpace
  import opened FileState
  import Mount

  /** The entry at `d` in sector `at` starts the chain `chain`, whose sectors hold `content`. */
  ghost predicate DiskFile(g: Geometry, v: seq<Sector>, at: nat, d: nat, chain: seq<nat>, content: seq<byte>) {
    && g.Valid() && g.volEnd <= |v| && at < |v| && d + SZDIRE <= SS
    && ChainOk(g.Fat(v), chain, StartOf(g.ty, v[at], d))
    && SizeOf(v[at], d) <= SS * (g.csize * |chain|)
    && content == FileBytes(g, v, chain, SizeOf(v[at], d))
  }

  /** The device determines the file. */
  lemma DiskFileUnique(g: Geometry, v: seq<Sector>, at: nat, d: nat, s: seq<nat>, t: seq<nat>, x: seq<byte>, y: seq<byte>)
    requires DiskFile(g, v, at, d, s, x) && DiskFile(g, v, at, d, t, y)
    ensures s == t && x == y
  {
    hide Geometry.Fat, IsChain, FileBytes;
    if s != [] && t != [] {
      ChainUnique(g.Fat(v), s, t);
    } else if s != [] {
      Follow(g.Fat(v), s, 0);
    } else if t != [] {
      Follow(g.Fat(v), t, 0);
    }
  }

  /** Where directory entries may be: past the FAT copies, away from the file's sectors. */
  ghost predicate EntryPlaced(g: Geometry, own: set<nat>, at: nat, d: nat) {
    && g.fatbase + g.fsize <= at < g.volEnd && !g.InMirror(at) && at < 0xFFFF_FFFF
    && !OwnSector(g, own, at) && d + SZDIRE <= SS
  }

  /** A sector that is neither a FAT sector nor one of the file's does not matter to the file. */
  lemma OtherSector(g: Geometry, own: set<nat>, st: Snap, at: nat, w: Sector)
    requires Core(g, own, st) && at < |st.l| && !g.InFatArea(at) && !OwnSector(g, own, at)
    ensures var st' := st.(l := st.l[at := w]);
            Core(g, own, st') && Content(g, st') == Content(g, st) && g.Fat(st'.l) == g.Fat(st.l)
  {
    hide Geometry.Fat, FileSector, OwnSector, NoBadEntry, Owns, ChainOk;
    var st' := st.(l := st.l[at := w]);
    FatSame(g, st.l, st'.l);
    forall k | 0 <= k < st.objsize ensures FileByte(g, View(st'), st.chain, k) == FileByte(g, View(st), st.chain, k) {
      ChainIsGood(g, st.l, st.chain, st.sclust);
      ChainCovers(g, st.chain, SecNo(k));
      FileSectorIsOwn(g, own, st.l, st.chain, st.sclust, SecNo(k));
    }
    if st.sect != 0 {
      assert at != st.sect;
    }
  }

  /** A clean file whose entry is up to date is on the logical disk. */
  lemma CleanOnDisk(g: Geometry, own: set<nat>, st: Snap, at: nat, d: nat)
    requires Core(g, own, st) && !st.dirty && at < |st.l| && d + SZDIRE <= SS
    requires StartOf(g.ty, st.l[at], d) == st.sclust && SizeOf(st.l[at], d) == st.objsize
    ensures DiskFile(g, st.l, at, d, st.chain, Content(g, st))
  {
  }

  /** The logical disk and a device without pending window tell the same files. */
  lemma DeviceFile(g: Geometry, v: seq<Sector>, at: nat, d: nat, chain: seq<nat>, content: seq<byte>)
    requires g.Valid() && g.ValidData() && g.volEnd <= |v| && at < |v| && !g.InMirror(at)
    requires DiskFile(g, g.Project(v), at, d, chain, content) || DiskFile(g, v, at, d, chain, content)
    ensures DiskFile(g, g.Project(v), at, d, chain, content) && DiskFile(g, v, at, d, chain, content)
  {
    hide Geometry.Fat, FileSector, IsChain;
    FatSame(g, v, g.Project(v));
    if chain != [] {
      forall i, j | 0 <= i < j < |chain| ensures chain[i] != chain[j] {
        ChainDistinct(g.Fat(v), chain, i, j);
      }
      ChainNumbers(g.Fat(v), chain);
    }
    BytesKept(g, v, g.Project(v), chain, chain, SizeOf(v[at], d));
  }

  lemma ChainNumbers(fat: seq<nat>, chain: seq<nat>)
    requires IsChain(fat, chain)
    ensures forall i :: 0 <= i < |chain| ==> 2 <= chain[i] < |fat|
  {
  }

  /* ---- what a file leaves alone ---- */

  /** A sector that no operation on the file may change: no FAT sector, not at its disposal, not that of its entry, no information sector. */
  ghost predicate Foreign(g: Geometry, own: set<nat>, at: nat, s: int) {
    !g.InFatArea(s) && !OwnSector(g, own, s) && s != at && !(g.ty == FAT32 && s == g.volbase + 1)
  }

  /** The sectors differ at most in the entry at `d`, behind its name and attributes, and in its archive flag. */
  ghost predicate SameButEntry(s: Sector, t: Sector, d: nat) {
    && (forall k :: 0 <= k < SS && !(d + 11 <= k < d + SZDIRE) ==> t[k] == s[k])
    && (d + 11 < SS ==> SetArchive(t[d + 11]) == SetArchive(s[d + 11]))
  }

  /**
    * From `v` to `w` only the file changed: foreign sectors, other entries of the entry's sector, the name in the entry and table
    * entries of other clusters stay.
    */
  ghost predicate Kept(g: Geometry, own: set<nat>, at: nat, d: nat, v: seq<Sector>, w: seq<Sector>) {
    && g.Valid() && g.volEnd <= |v| == |w| && at < |v|
    && (forall s :: 0 <= s < |v| && Foreign(g, own, at, s) ==> w[s] == v[s])
    && SameButEntry(v[at], w[at], d)
    && (forall c :: 0 <= c < g.nFatent && c !in own ==> g.Fat(w)[c] == g.Fat(v)[c])
  }

  lemma KeptTrans(g: Geometry, own: set<nat>, at: nat, d: nat, u: seq<Sector>, v: seq<Sector>, w: seq<Sector>)
    requires Kept(g, own, at, d, u, v) && Kept(g, own, at, d, v, w)
    ensures Kept(g, own, at, d, u, w)
  {
    hide Geometry.Fat, Foreign, Geometry.Valid;
  }

  lemma KeptBetween(g: Geometry, own: set<nat>, at: nat, d: nat, u: seq<Sector>, v: seq<Sector>, w: seq<Sector>)
    requires Kept(g, own, at, d, u, v) && Kept(g, own, at, d, u, w)
    ensures Kept(g, own, at, d, v, w)
  {
    hide Geometry.Fat, Foreign, Geometry.Valid;
  }

  lemma KeptLength(g: Geometry, own: set<nat>, at: nat, d: nat, v: seq<Sector>, w: seq<Sector>)
    requires Kept(g, own, at, d, v, w)
    ensures g.volEnd <= |v| == |w|
  {
  }

  lemma KeptSame(g: Geometry, own: set<nat>, at: nat, d: nat, v: seq<Sector>)
    requires g.Valid() && g.volEnd <= |v| && at < |v|
    ensures Kept(g, own, at, d, v, v)
  {
    hide Geometry.Fat, Foreign;
  }

  lemma InfoNotOwn(g: Geometry, own: set<nat>)
    requires g.Valid()
    ensures !OwnSector(g, own, g.volbase + 1)
  {
  }

  /** Writing to sectors at the file's disposal. */
  lemma KeptOwn(g: Geometry, own: set<nat>, at: nat, d: nat, v: seq<Sector>, w: seq<Sector>)
    requires g.Valid() && g.ValidData() && g.volEnd <= |v| == |w| && EntryPlaced(g, own, at, d)
    requires forall s :: 0 <= s < |v| && !OwnSector(g, own, s) ==> w[s] == v[s]
    ensures Kept(g, own, at, d, v, w) && g.volbase + 1 < |v| && w[g.volbase + 1] == v[g.volbase + 1]
  {
    hide Geometry.Fat, OwnSector;
    InfoNotOwn(g, own);
    forall s | g.InFat1(s) ensures w[s] == v[s] {
      FatNotOwn(g, own, s);
    }
    FatSame(g, v, w);
  }

  /** Changing table entries of clusters at the file's disposal. */
  lemma KeptFat(g: Geometry, own: set<nat>, at: nat, d: nat, v: seq<Sector>, w: seq<Sector>)
    requires g.Valid() && g.volEnd <= |v| && EntryPlaced(g, own, at, d) && g.SameOutsideFat(v, w)
    requires forall c :: 0 <= c < g.nFatent && c !in own ==> g.Fat(w)[c] == g.Fat(v)[c]
    ensures Kept(g, own, at, d, v, w) && (g.volbase + 1 < g.fatbase ==> w[g.volbase + 1] == v[g.volbase + 1])
  {
    hide Geometry.Fat, OwnSector;
  }

  /** A chain of the file that turns into another uses only clusters at its disposal. */
  lemma TurnsKept(own: set<nat>, fat: seq<nat>, fat': seq<nat>, s: seq<nat>, t: seq<nat>)
    requires Owns(own, fat, s) && (s == [] || IsChain(fat, s)) && TurnsInto(fat, fat', s, t)
    ensures forall c :: 0 <= c < |fat| && c !in own ==> fat'[c] == fat[c]
  {
    hide IsChain;
    if s != [] {
      ChainNumbers(fat, s);
    }
    if t != [] {
      ChainNumbers(fat', t);
    }
  }

  /** Updating the entry of the file. */
  lemma KeptEntry(g: Geometry, own: set<nat>, at: nat, d: nat, v: seq<Sector>, w: Sector)
    requires g.Valid() && g.volEnd <= |v| && EntryPlaced(g, own, at, d)
    requires SameButEntry(v[at], w, d)
    ensures Kept(g, own, at, d, v, v[at := w]) && v[at := w][g.volbase + 1] == v[g.volbase + 1]
  {
    hide Geometry.Fat, OwnSector;
    FatSame(g, v, v[at := w]);
  }

  /** Writing the information sector. */
  lemma KeptInfo(g: Geometry, own: set<nat>, at: nat, d: nat, v: seq<Sector>, w: Sector)
    requires g.Valid() && g.volEnd <= |v| && EntryPlaced(g, own, at, d) && g.ty == FAT32 && g.volbase + 1 < g.fatbase
    ensures Kept(g, own, at, d, v, v[g.volbase + 1 := w])
  {
    hide Geometry.Fat, OwnSector;
    FatSame(g, v, v[g.volbase + 1 := w]);
  }

  /** While no allocation is to be recorded, the information sector tells the free count, or nothing while it is unknown. */
  ghost predicate InfoTells(g: Geometry, l: seq<Sector>, free: nat, flag: byte) {
    g.ty == FAT32 && flag == 0 ==>
      && g.volbase + 1 < |l|
      && match Mount.LoadInfo(l[g.volbase + 1])
         case Unknown => free > g.nFatent - 2
         case Info(f, _) => f == free
  }

  lemma InfoStays(g: Geometry, v: seq<Sector>, w: seq<Sector>, free: nat, flag: byte)
    requires InfoTells(g, v, free, flag) && |w| == |v| && (g.ty == FAT32 && flag == 0 && g.volbase + 1 < |v| ==> w[g.volbase + 1] == v[g.volbase + 1])
    ensures InfoTells(g, w, free, flag)
  {
    hide Mount.LoadInfo;
  }

  lemma InfoPending(g: Geometry, l: seq<Sector>, free: nat, flag: byte)
    requires flag != 0
    ensures InfoTells(g, l, free, flag)
  {
  }

  /** What sync_fs writes is what mounting will be told. */
  lemma InfoWritten(g: Geometry, v: seq<Sector>, free: dword, last: dword, flag: byte)
    requires g.volbase + 1 < |v|
    ensures InfoTells(g, v[g.volbase + 1 := InfoSector(free, last)], free, flag)
  {
    hide InfoSector, Mount.LoadInfo;
    Mount.InfoRoundTrip(free, last);
  }

  /** The boot sector is none of the file's business. */
  lemma BootKept(g: Geometry, own: set<nat>, at: nat, d: nat, v: seq<Sector>, w: seq<Sector>)
    requires Kept(g, own, at, d, v, w) && EntryPlaced(g, own, at, d)
    ensures g.volbase < |v| == |w| && w[g.volbase] == v[g.volbase]
  {
    hide Geometry.Fat;
    assert Foreign(g, own, at, g.volbase);
  }

  /** An entry apart from that of the file, in a sector that holds entries. */
  ghost predicate OtherEntry(g: Geometry, own: set<nat>, at: nat, d: nat, at': nat, d': nat) {
    EntryPlaced(g, own, at', d') && (at' != at || d' + SZDIRE <= d || d + SZDIRE <= d')
  }

  /** The clusters are neither at the file's disposal nor that of the directory its entry is in. */
  ghost predicate Elsewhere(g: Geometry, own: set<nat>, at: nat, chain: seq<nat>) {
    g.csize > 0 && (forall c :: c in chain ==> c !in own) && (g.InData(at) ==> g.ClusterOf(at) !in chain)
  }

  /** Every other file, with an entry of its own and clusters that are not at the file's disposal, stays what it was. */
  lemma OtherFileKept(g: Geometry, own: set<nat>, at: nat, d: nat, v: seq<Sector>, w: seq<Sector>,
                      at': nat, d': nat, chain: seq<nat>, content: seq<byte>)
    requires g.ValidData() && Kept(g, own, at, d, v, w) && EntryPlaced(g, own, at, d) && OtherEntry(g, own, at, d, at', d')
    requires DiskFile(g, v, at', d', chain, content) && Elsewhere(g, own, at, chain)
    ensures DiskFile(g, w, at', d', chain, content)
  {
    hide Geometry.Fat, FileSector, IsChain, OwnSector, StartOf, SizeOf, Geometry.ValidData, Geometry.Valid, FileBytes, GoodChain;
    EntryBytesKept(g, own, at, d, v, w, at', d');
    EntryFields(g.ty, v[at'], w[at'], d');
    if chain != [] {
      ChainNumbers(g.Fat(v), chain);
      ChainFrame(g.Fat(v), g.Fat(w), chain);
      forall i, j | 0 <= i < j < |chain| ensures chain[i] != chain[j] {
        ChainDistinct(g.Fat(v), chain, i, j);
      }
    }
    GoodFromChain(g, g.Fat(v), chain);
    OtherBytesKept(g, own, at, d, v, w, chain, SizeOf(v[at'], d'));
  }

  lemma GoodFromChain(g: Geometry, fat: seq<nat>, chain: seq<nat>)
    requires |fat| == g.nFatent && g.csize > 0 && (forall i :: 0 <= i < |chain| ==> 2 <= chain[i] < |fat|)
    requires forall i, j :: 0 <= i < j < |chain| ==> chain[i] != chain[j]
    ensures GoodChain(g, chain)
  {
  }

  lemma EntryBytesKept(g: Geometry, own: set<nat>, at: nat, d: nat, v: seq<Sector>, w: seq<Sector>, at': nat, d': nat)
    requires Kept(g, own, at, d, v, w) && OtherEntry(g, own, at, d, at', d')
    ensures at' < |v| && forall k :: d' <= k < d' + SZDIRE ==> w[at'][k] == v[at'][k]
  {
    hide Geometry.Fat, OwnSector;
    if at' != at {
      assert Foreign(g, own, at, at');
    }
  }

  lemma EntryFields(ty: FatType, s: Sector, t: Sector, d: nat)
    requires d + SZDIRE <= SS && forall k :: d <= k < d + SZDIRE ==> t[k] == s[k]
    ensures StartOf(ty, s, d) == StartOf(ty, t, d) && SizeOf(s, d) == SizeOf(t, d)
  {
  }

  lemma OtherBytesKept(g: Geometry, own: set<nat>, at: nat, d: nat, v: seq<Sector>, w: seq<Sector>, chain: seq<nat>, size: nat)
    requires Kept(g, own, at, d, v, w) && GoodChain(g, chain) && size <= SS * (g.csize * |chain|) && Elsewhere(g, own, at, chain)
    ensures FileBytes(g, v, chain, size) == FileBytes(g, w, chain, size)
  {
    hide Kept, GoodChain, FileByte, Elsewhere;
    forall k | 0 <= k < size ensures FileByte(g, v, chain, k) == FileByte(g, w, chain, k) {
      OtherByteKept(g, own, at, d, v, w, chain, size, k);
    }
  }

  lemma OtherByteKept(g: Geometry, own: set<nat>, at: nat, d: nat, v: seq<Sector>, w: seq<Sector>, chain: seq<nat>, size: nat, k: nat)
    requires Kept(g, own, at, d, v, w) && GoodChain(g, chain) && k < size <= SS * (g.csize * |chain|) && Elsewhere(g, own, at, chain)
    ensures FileByte(g, v, chain, k) == FileByte(g, w, chain, k)
  {
    hide GoodChain, Geometry.Fat, FileSector, Foreign;
    var m, o := SecNo(k), SecOfs(k);
    ChainCovers(g, chain, m);
    SectorPlace(g, chain, m);
    ForeignData(g, own, at, FileSector(g, chain, m), chain, m);
  }

  lemma ForeignData(g: Geometry, own: set<nat>, at: nat, s: int, chain: seq<nat>, m: nat)
    requires g.Valid() && Elsewhere(g, own, at, chain) && HasSector(g, chain, m) && g.InData(s) && g.ClusterOf(s) == chain[m / g.csize]
    ensures Foreign(g, own, at, s)
  {
    assert chain[m / g.csize] in chain;
  }
}
