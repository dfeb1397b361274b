/** What holds of an open file between operations, stated on values. */
module FileState {
  import opened Bytes
  import opened Layout
  import opened Chains
  import opened ChainSet
  import opened FileSpace

  /** The state that determines a file: the logical disk, the chain and the fields of the file object. */
  datatype Snap = Snap(
    l: seq<Sector>,
    chain: seq<nat>,
    sclust: nat,
    objsize: nat,
    fptr: nat,
    clust: nat,
    sect: nat,
    dirty: bool,
    buf: Sector)

  /** The logical disk under the file's own dirty sector buffer. */
  function View(st: Snap): (v: seq<Sector>)
    ensures |v| == |st.l|
  {
    if st.dirty && st.sect < |st.l| then st.l[st.sect := st.buf] else st.l
  }

  /** The contents of the file. */
  function Content(g: Geometry, st: Snap): (r: seq<byte>)
    ensures |r| == st.objsize
  {
    FileBytes(g, View(st), st.chain, st.objsize)
  }

  /** `own` is the set of clusters at the file's disposal: its own and the free ones. */
  ghost predicate Owns(own: set<nat>, fat: seq<nat>, chain: seq<nat>) {
    forall c :: c in own <==> 2 <= c < |fat| && (c in chain || fat[c] == 0)
  }

  ghost predicate ChainOk(fat: seq<nat>, chain: seq<nat>, sclust: nat) {
    if chain == [] then sclust == 0 else IsChain(fat, chain) && chain[0] == sclust
  }

  /** A data sector of a cluster at the file's disposal. */
  ghost predicate OwnSector(g: Geometry, own: set<nat>, s: int) {
    g.csize > 0 && g.InData(s) && g.ClusterOf(s) in own
  }

  /** The buffer holds a sector at the file's disposal, faithfully unless dirty, and the current one if inside a sector. */
  ghost predicate CacheOk(g: Geometry, own: set<nat>, st: Snap) {
    && (st.dirty ==> st.sect != 0)
    && (st.sect != 0 ==> OwnSector(g, own, st.sect) && st.sect < |st.l| && (!st.dirty ==> st.buf == st.l[st.sect]))
    && (SecOfs(st.fptr) != 0 ==> st.sect == FileSector(g, st.chain, SecNo(st.fptr)))
  }

  ghost predicate SizeOk(g: Geometry, st: Snap) {
    st.fptr <= st.objsize < TWO32 && st.objsize <= SS * (g.csize * |st.chain|)
  }

  ghost predicate DiskOk(g: Geometry, l: seq<Sector>) {
    g.Valid() && g.ValidData() && g.volEnd <= |l| && NoBadEntry(g.Fat(l))
  }

  /** The invariant of an open file, apart from the current cluster. */
  ghost predicate Core(g: Geometry, own: set<nat>, st: Snap) {
    && DiskOk(g, st.l)
    && ChainOk(g.Fat(st.l), st.chain, st.sclust)
    && Owns(own, g.Fat(st.l), st.chain)
    && SizeOk(g, st)
    && CacheOk(g, own, st)
  }

  /** Past the start, the current cluster is the one of the last byte before the pointer. */
  ghost predicate Placed(g: Geometry, st: Snap) {
    st.fptr > 0 ==> ClusterAt(g, st.chain, SecNo(st.fptr - 1), st.clust)
  }

  /** `c` is the cluster of file sector `m`. */
  ghost predicate ClusterAt(g: Geometry, chain: seq<nat>, m: int, c: nat) {
    HasSector(g, chain, m) && chain[m / g.csize] == c
  }

  /** The invariant and the contents do not involve the current cluster. */
  lemma AnyCluster(g: Geometry, own: set<nat>, st: Snap, c: nat)
    requires Core(g, own, st)
    ensures Core(g, own, st.(clust := c)) && Content(g, st.(clust := c)) == Content(g, st)
  {
    hide DiskOk, ChainOk, Owns, OwnSector, FileSector, FileBytes;
  }

  lemma ChainIsGood(g: Geometry, l: seq<Sector>, chain: seq<nat>, sclust: nat)
    requires DiskOk(g, l) && ChainOk(g.Fat(l), chain, sclust)
    ensures GoodChain(g, chain)
  {
    hide Geometry.Fat, Geometry.Valid;
    if chain != [] {
      forall i, j | 0 <= i < j < |chain| ensures chain[i] != chain[j] {
        ChainDistinct(g.Fat(l), chain, i, j);
      }
    }
  }

  /** Every sector of the file is at its disposal. */
  lemma FileSectorIsOwn(g: Geometry, own: set<nat>, l: seq<Sector>, chain: seq<nat>, sclust: nat, m: nat)
    requires DiskOk(g, l) && ChainOk(g.Fat(l), chain, sclust) && Owns(own, g.Fat(l), chain) && HasSector(g, chain, m)
    ensures var s := FileSector(g, chain, m); OwnSector(g, own, s) && 0 < s < |l|
  {
    hide Geometry.Fat, FileSector, IsChain;
    ChainIsGood(g, l, chain, sclust);
    SectorPlace(g, chain, m);
    assert chain[m / g.csize] in chain;
  }

  /** The clusters at the file's disposal are at least those of its chain, and just those when none is free. */
  lemma ChainWithinOwn(g: Geometry, own: set<nat>, fat: seq<nat>, chain: seq<nat>)
    requires Owns(own, fat, chain) && GoodChain(g, chain) && g.nFatent == |fat|
    ensures |chain| <= |own|
    ensures |fat| >= 2 && CountFree(fat, 2) == 0 ==> |chain| == |own|
  {
    var cs := Elements(chain);
    DistinctCard(chain);
    assert cs <= own;
    CardMono(cs, own);
    if |fat| >= 2 && CountFree(fat, 2) == 0 {
      CountPositive(fat, 2);
      assert own <= cs;
      assert own == cs;
    }
  }

  function Elements(s: seq<nat>): (r: set<nat>)
    ensures forall c :: c in r <==> c in s
  {
    if s == [] then {} else
    var t, x := s[..|s| - 1], s[|s| - 1];
    assert s == t + [x];
    Elements(t) + {x}
  }

  lemma {:induction false} DistinctCard(s: seq<nat>)
    requires forall i, j :: 0 <= i < j < |s| ==> s[i] != s[j]
    ensures |Elements(s)| == |s|
  {
    if s != [] {
      var t, x := s[..|s| - 1], s[|s| - 1];
      DistinctCard(t);
      assert x !in t by {
        assert forall i :: 0 <= i < |t| ==> t[i] == s[i];
      }
    }
  }

  lemma CardMono(a: set<nat>, b: set<nat>)
    requires a <= b
    ensures |a| <= |b|
  {
    assert b == a + (b - a);
  }

  /** The table does not depend on data sectors. */
  lemma FatSame(g: Geometry, l: seq<Sector>, l': seq<Sector>)
    requires g.Valid() && g.volEnd <= |l| && |l'| == |l|
    requires forall s :: g.InFat1(s) ==> l'[s] == l[s]
    ensures g.Fat(l') == g.Fat(l)
  {
    assert g.FatBytes(l') == g.FatBytes(l) by {
      forall k | 0 <= k < SS * g.fsize ensures g.FatBytes(l')[k] == g.FatBytes(l)[k] {
        var o := SecOfs(k);
        assert g.InFat1(g.fatbase + SecNo(k));
      }
    }
  }

  /** Own sectors are outside the FAT. */
  lemma OwnNotFat(g: Geometry, own: set<nat>, s: int)
    requires g.Valid() && g.ValidData() && OwnSector(g, own, s)
    ensures !g.InFatArea(s) && g.database <= s < g.volEnd
  {
  }

  lemma FatNotOwn(g: Geometry, own: set<nat>, s: int)
    requires g.Valid() && g.ValidData() && g.InFatArea(s)
    ensures !OwnSector(g, own, s)
  {
  }

  /** Writing the buffer back changes neither the view nor the invariant. */
  lemma FlushCore(g: Geometry, own: set<nat>, st: Snap)
    requires Core(g, own, st)
    ensures var st' := st.(l := View(st), dirty := false);
            Core(g, own, st') && View(st') == View(st) && g.Fat(st'.l) == g.Fat(st.l)
  {
    hide Geometry.Fat, ChainOk, Owns, NoBadEntry, OwnSector, FileSector;
    if st.dirty {
      OwnNotFat(g, own, st.sect);
      FatSame(g, st.l, View(st));
    }
  }

  /** The file's bytes do not depend on later clusters nor on the FAT. */
  lemma BytesKept(g: Geometry, v: seq<Sector>, v': seq<Sector>, chain: seq<nat>, chain': seq<nat>, size: nat)
    requires GoodChain(g, chain) && chain <= chain' && size <= SS * (g.csize * |chain|)
    requires |v'| == |v| && forall s :: g.InData(s) && 0 <= s < |v| ==> v'[s] == v[s]
    ensures FileBytes(g, v', chain', size) == FileBytes(g, v, chain, size)
  {
    forall k | 0 <= k < size ensures FileByte(g, v', chain', k) == FileByte(g, v, chain, k) {
      ByteKept(g, v, v', chain, chain', size, k);
    }
  }

  lemma ByteKept(g: Geometry, v: seq<Sector>, v': seq<Sector>, chain: seq<nat>, chain': seq<nat>, size: nat, k: nat)
    requires GoodChain(g, chain) && chain <= chain' && k < size <= SS * (g.csize * |chain|)
    requires |v'| == |v| && forall s :: g.InData(s) && 0 <= s < |v| ==> v'[s] == v[s]
    ensures FileByte(g, v', chain', k) == FileByte(g, v, chain, k)
  {
    hide GoodChain, Geometry.InData;
    var o := SecOfs(k);
    ChainCovers(g, chain, SecNo(k));
    SectorPlace(g, chain, SecNo(k));
  }

  /** The chain with one more cluster. */
  function Grown(st: Snap, l: seq<Sector>, ncl: nat): Snap {
    st.(l := l, chain := st.chain + [ncl], sclust := if st.chain == [] then ncl else st.sclust)
  }

  /** The cluster handed to create_chain to lengthen the chain. */
  function LastOf(chain: seq<nat>): nat {
    if chain == [] then 0 else chain[|chain| - 1]
  }

  /** `b` is `a` with the free cluster `ncl` linked to the end of the chain. */
  ghost predicate Lengthens(a: Alloc, b: Alloc, eoc: nat, chain: seq<nat>, ncl: nat) {
    && 2 <= ncl < |a.fat| && a.fat[ncl] == 0 && LastOf(chain) < |a.fat|
    && b == Link(a, eoc, LastOf(chain), ncl) && FreeKnown(b)
  }

  /** A longer chain leaves the current cluster where it was. */
  lemma PlacedKept(g: Geometry, st: Snap, st': Snap)
    requires Placed(g, st) && st.chain <= st'.chain && st'.fptr == st.fptr && st'.clust == st.clust
    ensures Placed(g, st')
  {
  }

  /** Lengthening the chain by a free cluster keeps the invariant and the contents. */
  lemma GrowCore(g: Geometry, own: set<nat>, st: Snap, l: seq<Sector>, a: Alloc, b: Alloc, eoc: nat, ncl: nat)
    requires Core(g, own, st) && g.SameOutsideFat(st.l, l) && |a.fat| <= eoc
    requires a.fat == g.Fat(st.l) && b.fat == g.Fat(l) && Lengthens(a, b, eoc, st.chain, ncl)
    ensures Core(g, own, Grown(st, l, ncl)) && Content(g, Grown(st, l, ncl)) == Content(g, st)
  {
    hide Geometry.Fat, Geometry.Valid, FileSector, OwnSector, GoodChain, IsChain;
    var fat := g.Fat(st.l);
    var st' := Grown(st, l, ncl);
    ChainIsGood(g, st.l, st.chain, st.sclust);
    Stretched(a, eoc, st.chain, ncl);
    GrowOwns(own, fat, g.Fat(l), st.chain, ncl);
    GrowView(g, own, st, l);
    BytesKept(g, View(st), View(st'), st.chain, st'.chain, st.objsize);
    GrowCache(g, own, st, l, ncl);
    MulMono(g.csize, |st.chain|, |st.chain| + 1);
  }

  /** Sectors outside the FAT and the table being the same, the invariant and the contents are the same. */
  lemma KeepCore(g: Geometry, own: set<nat>, st: Snap, l: seq<Sector>)
    requires Core(g, own, st) && g.SameOutsideFat(st.l, l) && g.Fat(l) == g.Fat(st.l)
    ensures Core(g, own, st.(l := l)) && Content(g, st.(l := l)) == Content(g, st)
  {
    hide Geometry.Fat, Geometry.Valid, FileSector, OwnSector, GoodChain, IsChain, Owns, ChainOk;
    ChainIsGood(g, st.l, st.chain, st.sclust);
    GrowView(g, own, st, l);
    BytesKept(g, View(st), View(st.(l := l)), st.chain, st.chain, st.objsize);
    if st.sect != 0 {
      OwnNotFat(g, own, st.sect);
    }
  }

  lemma GrowOwns(own: set<nat>, fat: seq<nat>, fat': seq<nat>, chain: seq<nat>, ncl: nat)
    requires Owns(own, fat, chain) && TurnsInto(fat, fat', chain, chain + [ncl])
    requires 2 <= ncl < |fat| && fat[ncl] == 0
    ensures Owns(own, fat', chain + [ncl])
    ensures NoBadEntry(fat) ==> NoBadEntry(fat')
  {
    forall c | 2 <= c < |fat| ensures (c in chain || fat[c] == 0) <==> (c in chain + [ncl] || fat'[c] == 0) {
      assert c in chain + [ncl] <==> c in chain || c == ncl;
    }
    forall c | 2 <= c < |fat'| ensures fat[c] != 1 ==> fat'[c] != 1 {
      if c in chain + [ncl] {
        MemberUsed(fat', chain + [ncl], c);
      }
    }
  }

  lemma GrowView(g: Geometry, own: set<nat>, st: Snap, l: seq<Sector>)
    requires DiskOk(g, st.l) && g.SameOutsideFat(st.l, l)
    ensures |l| == |st.l|
    ensures forall s :: g.InData(s) && 0 <= s < |l| ==> View(st.(l := l))[s] == View(st)[s]
  {
    hide Geometry.Fat;
  }

  lemma GrowCache(g: Geometry, own: set<nat>, st: Snap, l: seq<Sector>, ncl: nat)
    requires DiskOk(g, st.l) && CacheOk(g, own, st) && SizeOk(g, st) && g.SameOutsideFat(st.l, l)
    ensures CacheOk(g, own, Grown(st, l, ncl))
  {
    hide Geometry.Fat;
    var o := SecOfs(st.fptr);
    if st.sect != 0 {
      OwnNotFat(g, own, st.sect);
    }
    if o != 0 {
      ChainCovers(g, st.chain, SecNo(st.fptr));
      SectorKept(g, st.chain, ncl, SecNo(st.fptr));
    }
  }

  lemma SectorKept(g: Geometry, chain: seq<nat>, ncl: nat, m: nat)
    requires HasSector(g, chain, m)
    ensures FileSector(g, chain + [ncl], m) == FileSector(g, chain, m)
  {
  }

  /** The pointer moved past `n` bytes that were written. */
  function Advanced(st: Snap, n: nat): Snap {
    st.(fptr := st.fptr + n, objsize := Max(st.objsize, st.fptr + n))
  }

  /** The end of a run of sectors in one cluster: still inside the chain, in that cluster. */
  lemma RunEnd(g: Geometry, chain: seq<nat>, m: nat, cc: nat, c: nat, k: nat)
    requires ClusterAt(g, chain, m, c) && 0 < cc && m % g.csize + cc <= g.csize && SS * m < k <= SS * (m + cc)
    ensures k <= SS * (g.csize * |chain|) && ClusterAt(g, chain, SecNo(k - 1), c)
  {
    var n, o := SecNo(k - 1), SecOfs(k - 1);
    DivModUnique(n, g.csize, m / g.csize, m % g.csize + (n - m));
    SectorRun(g, chain, m, cc - 1);
    ChainCovers(g, chain, m + cc - 1);
  }

  /** Whole sectors written straight to the disk. */
  lemma DirectCore(g: Geometry, own: set<nat>, st: Snap, l: seq<Sector>, buf: Sector, m: nat, cc: nat, d: seq<byte>)
    requires Core(g, own, st) && !st.dirty && st.fptr == SS * m && ClusterAt(g, st.chain, m, st.clust)
    requires 0 < cc && m % g.csize + cc <= g.csize && st.fptr + |d| < TWO32
    requires var s := FileSector(g, st.chain, m);
             && RunWritten(st.l, l, s, cc, d)
             && buf == if s <= st.sect < s + cc then Chunk(d, st.sect - s) else st.buf
    ensures var st' := Advanced(st.(l := l, buf := buf), |d|);
            && Core(g, own, st') && Placed(g, st')
            && Content(g, st') == Splice(Content(g, st), st.fptr, d)
            && g.Fat(l) == g.Fat(st.l)
  {
    hide Geometry.Fat, ChainOk, Owns, NoBadEntry, FileSector, GoodChain, FileBytes;
    var st' := Advanced(st.(l := l, buf := buf), |d|);
    ChainIsGood(g, st.l, st.chain, st.sclust);
    SectorPlace(g, st.chain, m);
    RunEnd(g, st.chain, m, cc, st.clust, st.fptr + |d|);
    FatSame(g, st.l, l);
    DirectWrote(g, st.l, l, st.chain, st.objsize, m, cc, d);
    WroteSplices(g, st.l, l, st.chain, st.objsize, st.fptr, d);
    DivModUnique(st'.fptr, SS, m + cc, 0);
  }

  /** Part of a sector written through the buffer. */
  lemma BufferCore(g: Geometry, own: set<nat>, st: Snap, w: Sector, m: nat, o: nat, d: seq<byte>)
    requires Core(g, own, st) && st.fptr == SS * m + o && ClusterAt(g, st.chain, m, st.clust)
    requires 0 < |d| && o + |d| <= SS && st.fptr + |d| < TWO32
    requires w[o..o + |d|] == d
    requires var s := FileSector(g, st.chain, m);
             && (st.dirty ==> st.sect == s)
             && (0 <= s < |st.l| ==>
                   forall j :: 0 <= j < SS && !(o <= j < o + |d|) && SS * m + j < st.objsize ==> w[j] == View(st)[s][j])
    ensures FileSector(g, st.chain, m) > 0
    ensures var st' := Advanced(st.(sect := FileSector(g, st.chain, m), buf := w, dirty := true), |d|);
            && Core(g, own, st') && Placed(g, st')
            && Content(g, st') == Splice(Content(g, st), st.fptr, d)
  {
    hide Geometry.Fat, ChainOk, Owns, NoBadEntry, FileSector, GoodChain, FileBytes, OwnSector;
    var s := FileSector(g, st.chain, m);
    FileSectorIsOwn(g, own, st.l, st.chain, st.sclust, m);
    var st' := Advanced(st.(sect := s, buf := w, dirty := true), |d|);
    ChainIsGood(g, st.l, st.chain, st.sclust);
    assert m % g.csize + 1 <= g.csize;
    RunEnd(g, st.chain, m, 1, st.clust, st.fptr + |d|);
    BufferWrote(g, View(st), st.chain, st.objsize, m, o, d, w);
    WroteSplices(g, View(st), View(st)[s := w], st.chain, st.objsize, st.fptr, d);
    assert View(st') == View(st)[s := w];
    if o + |d| < SS {
      DivModUnique(st'.fptr, SS, m, o + |d|);
    } else {
      DivModUnique(st'.fptr, SS, m + 1, 0);
    }
  }

  /** The start of cluster `i` of a file is at this offset. */
  function ClusterStart(g: Geometry, i: int): int {
    SS * (g.csize * i)
  }

  /** On a sector boundary with no sector offset in the cluster, the pointer is at the start of a cluster. */
  lemma AtBoundary(g: Geometry, fptr: nat)
    requires g.csize > 0 && SecOfs(fptr) == 0 && SecNo(fptr) % g.csize == 0
    ensures fptr == ClusterStart(g, SecNo(fptr) / g.csize)
  {
  }

  /** `c` is the cluster before position `i` of the chain; 0 stands for the start of an empty chain. */
  ghost predicate BeforePos(chain: seq<nat>, c: nat, i: nat) {
    if i == 0 then c == 0 && chain == [] else i <= |chain| && c == chain[i - 1]
  }

  lemma LastSectorBefore(g: Geometry, i: nat)
    requires g.csize > 0 && i > 0
    ensures ClusterStart(g, i) > 0 && SecNo(ClusterStart(g, i) - 1) / g.csize == i - 1
  {
    var m := g.csize * i;
    assert m - 1 == g.csize * (i - 1) + (g.csize - 1);
    MulMono(g.csize, 1, i);
    DivModUnique(SS * m - 1, SS, m - 1, SS - 1);
    DivModUnique(m - 1, g.csize, i - 1, g.csize - 1);
  }

  /** At the start of cluster `i > 0` the current cluster is the one before. */
  lemma BoundaryCluster(g: Geometry, own: set<nat>, st: Snap, i: nat)
    requires Core(g, own, st) && Placed(g, st) && st.fptr == ClusterStart(g, i)
    ensures st.fptr == 0 <==> i == 0
    ensures i > 0 ==> BeforePos(st.chain, st.clust, i)
  {
    hide Geometry.Fat, Geometry.Valid, Owns, NoBadEntry, CacheOk, SizeOk, SecNo, ClusterStart;
    if i > 0 {
      LastSectorBefore(g, i);
    } else {
      FirstStart(g);
    }
  }

  lemma FirstStart(g: Geometry)
    ensures ClusterStart(g, 0) == 0
  {
  }

  /** An empty chain and a zero start cluster go together. */
  lemma StartCluster(g: Geometry, own: set<nat>, st: Snap)
    requires Core(g, own, st)
    ensures st.sclust == 0 <==> st.chain == []
    ensures st.chain != [] ==> st.sclust == st.chain[0] && 2 <= st.sclust < 0xFFFF_FFFF
  {
    hide Geometry.Fat, Owns, CacheOk, SizeOk;
  }

  /** create_chain at position `i`: the next cluster, or a new one exactly if some cluster is free. */
  lemma FollowOrStretch(a: Alloc, eoc: nat, chain: seq<nat>, c: nat, i: nat)
    requires 3 <= |a.fat| <= eoc && FreeKnown(a) && NoBadEntry(a.fat)
    requires (chain == [] || IsChain(a.fat, chain)) && BeforePos(chain, c, i)
    ensures var (b, r) := Create(a, eoc, c);
            && (i > 0 ==> c >= 2)
            && (i < |chain| ==> b == a && r == chain[i] && 2 <= r < |a.fat|)
            && (i == |chain| && r == 0 ==> b == a && CountFree(a.fat, 2) == 0)
            && (i == |chain| && r != 0 ==> Lengthens(a, b, eoc, chain, r))
  {
    hide FreeKnown, Link, Search, IsChain;
    if i > 0 {
      Follow(a.fat, chain, i - 1);
    }
    if i == |chain| {
      CreateFailsIffFull(a, eoc, c);
      CreateCounts(a, eoc, c);
      CreateLinks(a, eoc, c);
    } else {
      Follow(a.fat, chain, i);
    }
  }

  /** When no cluster is free the chain covers the whole capacity. */
  lemma FullCapacity(g: Geometry, own: set<nat>, st: Snap)
    requires Core(g, own, st) && CountFree(g.Fat(st.l), 2) == 0
    ensures ClusterStart(g, |st.chain|) == Capacity(g, own)
  {
    hide Geometry.Fat, GoodChain, IsChain, CacheOk;
    ChainIsGood(g, st.l, st.chain, st.sclust);
    ChainWithinOwn(g, own, g.Fat(st.l), st.chain);
  }

  /** All the bytes the clusters at the file's disposal can hold. */
  function Capacity(g: Geometry, own: set<nat>): int {
    SS * (g.csize * |own|)
  }

  /** A file never exceeds its capacity. */
  lemma WithinCapacity(g: Geometry, own: set<nat>, st: Snap)
    requires Core(g, own, st)
    ensures st.objsize <= Capacity(g, own)
  {
    hide Geometry.Fat, GoodChain, IsChain, CacheOk;
    ChainIsGood(g, st.l, st.chain, st.sclust);
    ChainWithinOwn(g, own, g.Fat(st.l), st.chain);
    MulMono(g.csize, |st.chain|, |own|);
  }

  /** The sector the code computes from the current cluster is the file's sector. */
  lemma CurrentSector(g: Geometry, own: set<nat>, l: seq<Sector>, chain: seq<nat>, sclust: nat, m: nat, c: nat)
    requires DiskOk(g, l) && ChainOk(g.Fat(l), chain, sclust) && Owns(own, g.Fat(l), chain) && ClusterAt(g, chain, m, c)
    ensures 0 <= c < TWO32 && g.Clst2Sect(c) != 0 && g.Clst2Sect(c) + m % g.csize == FileSector(g, chain, m)
  {
    hide Geometry.Fat, IsChain;
    ChainIsGood(g, l, chain, sclust);
    SectorPlace(g, chain, m);
    Sub32InRange(c, 2, g.nFatent - 2);
    DivModUnique(c - 2, TWO32, 0, c - 2);
    MulMono(g.csize, 0, c - 2);
    DivModUnique(g.database + g.csize * (c - 2), TWO32, 0, g.database + g.csize * (c - 2));
  }

  /** Every sector of a run inside one cluster is at the file's disposal. */
  lemma RunIsOwn(g: Geometry, own: set<nat>, l: seq<Sector>, chain: seq<nat>, sclust: nat, m: nat, cc: nat, t: int)
    requires DiskOk(g, l) && ChainOk(g.Fat(l), chain, sclust) && Owns(own, g.Fat(l), chain)
    requires HasSector(g, chain, m) && m % g.csize + cc <= g.csize
    requires FileSector(g, chain, m) <= t < FileSector(g, chain, m) + cc
    ensures OwnSector(g, own, t) && t < |l|
  {
    hide Geometry.Fat, OwnSector;
    var j := t - FileSector(g, chain, m);
    SectorRun(g, chain, m, j);
    FileSectorIsOwn(g, own, l, chain, sclust, m + j);
  }

  /** The buffer holds the sector, or the pointer starts a sector at or past the end of the file. */
  ghost predicate Loaded(g: Geometry, st: Snap, w: Sector, m: nat, o: nat) {
    var s := FileSector(g, st.chain, m);
    (0 <= s < |st.l| && w == View(st)[s]) || (o == 0 && st.fptr >= st.objsize)
  }

  /** Copying bytes into a loaded buffer. */
  lemma PatchCore(g: Geometry, own: set<nat>, st: Snap, w: Sector, m: nat, o: nat, d: seq<byte>)
    requires Core(g, own, st) && st.fptr == SS * m + o && ClusterAt(g, st.chain, m, st.clust)
    requires 0 < |d| && o + |d| <= SS && st.fptr + |d| < TWO32 && Loaded(g, st, w, m, o)
    requires st.dirty ==> st.sect == FileSector(g, st.chain, m)
    ensures FileSector(g, st.chain, m) > 0 && |Splice(w, o, d)| == SS
    ensures var st' := Advanced(st.(sect := FileSector(g, st.chain, m), buf := Splice(w, o, d), dirty := true), |d|);
            && Core(g, own, st') && Placed(g, st')
            && Content(g, st') == Splice(Content(g, st), st.fptr, d)
  {
    hide Core, Content, FileSector, Placed, ClusterAt;
    BufferCore(g, own, st, Splice(w, o, d), m, o, d);
  }

  /** Away from the start of a cluster, the current cluster is the one the pointer is in. */
  lemma InsideCluster(g: Geometry, st: Snap, m: nat, o: nat)
    requires Placed(g, st) && g.csize > 0 && st.fptr == SS * m + o && o < SS && (o != 0 || m % g.csize != 0)
    ensures ClusterAt(g, st.chain, m, st.clust)
  {
    if o != 0 {
      DivModUnique(st.fptr - 1, SS, m, o - 1);
    } else {
      var q, r := m / g.csize, m % g.csize;
      DivModUnique(m - 1, g.csize, q, r - 1);
      DivModUnique(st.fptr - 1, SS, m - 1, SS - 1);
    }
  }

  /** Filling a clean buffer with a sector of the file. */
  lemma LoadCore(g: Geometry, own: set<nat>, st: Snap, m: nat)
    requires Core(g, own, st) && !st.dirty && HasSector(g, st.chain, m)
    requires SecOfs(st.fptr) != 0 ==> SecNo(st.fptr) == m
    ensures var s := FileSector(g, st.chain, m);
            && 0 < s < |st.l|
            && var st' := st.(sect := s, buf := st.l[s]);
               Core(g, own, st') && View(st') == View(st)
  {
    hide Geometry.Fat, ChainOk, Owns, NoBadEntry, FileSector, OwnSector;
    FileSectorIsOwn(g, own, st.l, st.chain, st.sclust, m);
  }

  /** Moving the pointer inside the file, to a sector boundary or within the buffered sector. */
  lemma MoveCore(g: Geometry, own: set<nat>, st: Snap, p: nat)
    requires Core(g, own, st) && p <= st.objsize
    requires SecOfs(p) != 0 ==> st.sect == FileSector(g, st.chain, SecNo(p))
    ensures Core(g, own, st.(fptr := p)) && Content(g, st.(fptr := p)) == Content(g, st)
  {
    hide Geometry.Fat, ChainOk, Owns, NoBadEntry, FileSector, OwnSector, FileBytes;
  }

  /** Bytes of a run of sectors read at the place of its first sector. */
  lemma RunBytes(g: Geometry, v: seq<Sector>, chain: seq<nat>, size: nat, m: nat, cc: nat, j: nat)
    requires GoodChain(g, chain) && HasSector(g, chain, m) && m % g.csize + cc <= g.csize && j < SS * cc
    requires g.DataEnd() <= |v| && SS * m + j < size
    ensures var s := FileSector(g, chain, m);
            && 0 <= s + j / SS < |v|
            && FileBytes(g, v, chain, size)[SS * m + j] == v[s + j / SS][j % SS]
  {
    hide GoodChain, HasSector, FileSector, Geometry.DataEnd;
    var q, r := j / SS, j % SS;
    SectorRun(g, chain, m, q);
    SectorPlace(g, chain, m + q);
    DivModUnique(SS * m + j, SS, m + q, r);
  }

  /** The data of a run of sectors is the corresponding piece of the contents. */
  lemma RunIsContent(g: Geometry, own: set<nat>, st: Snap, m: nat, cc: nat)
    requires Core(g, own, st) && HasSector(g, st.chain, m) && m % g.csize + cc <= g.csize && 0 < cc
    requires SS * m + SS * cc <= st.objsize
    ensures var s := FileSector(g, st.chain, m);
            && 0 <= s && s + cc <= |st.l|
            && RunData(View(st), s, cc) == Content(g, st)[SS * m..SS * m + SS * cc]
  {
    hide Geometry.Fat, ChainOk, Owns, NoBadEntry, FileSector, GoodChain, FileBytes, CacheOk, HasSector;
    ChainIsGood(g, st.l, st.chain, st.sclust);
    RunBytes(g, View(st), st.chain, st.objsize, m, cc, 0);
    RunBytes(g, View(st), st.chain, st.objsize, m, cc, SS * cc - 1);
    DivModUnique(SS * cc - 1, SS, cc - 1, SS - 1);
    var s := FileSector(g, st.chain, m);
    var r := RunData(View(st), s, cc);
    forall j | 0 <= j < SS * cc ensures r[j] == Content(g, st)[SS * m + j] {
      RunBytes(g, View(st), st.chain, st.objsize, m, cc, j);
    }
  }

  /** A piece of the current sector is the corresponding piece of the contents. */
  lemma SectorIsContent(g: Geometry, own: set<nat>, st: Snap, m: nat, o: nat, n: nat)
    requires Core(g, own, st) && HasSector(g, st.chain, m) && o + n <= SS && 0 < n && SS * m + o + n <= st.objsize
    ensures var s := FileSector(g, st.chain, m);
            && 0 <= s < |st.l|
            && View(st)[s][o..o + n] == Content(g, st)[SS * m + o..SS * m + o + n]
  {
    hide Geometry.Fat, ChainOk, Owns, NoBadEntry, FileSector, GoodChain, FileBytes, CacheOk, HasSector;
    ChainIsGood(g, st.l, st.chain, st.sclust);
    assert m % g.csize + 1 <= g.csize;
    var s := FileSector(g, st.chain, m);
    RunBytes(g, View(st), st.chain, st.objsize, m, 1, o);
    DivModUnique(o, SS, 0, o);
    var a, b := View(st)[s][o..o + n], Content(g, st)[SS * m + o..SS * m + o + n];
    forall j | 0 <= j < n ensures a[j] == b[j] {
      RunBytes(g, View(st), st.chain, st.objsize, m, 1, o + j);
      DivModUnique(o + j, SS, 0, o + j);
    }
  }

  /** Setting the pointer anywhere the chain reaches, with the buffer in place; the file grows if it passes the end. */
  lemma SeekCore(g: Geometry, own: set<nat>, st: Snap, p: nat)
    requires Core(g, own, st) && p <= ClusterStart(g, |st.chain|) && p < TWO32
    requires SecOfs(p) != 0 ==> st.sect == FileSector(g, st.chain, SecNo(p))
    ensures var st' := st.(fptr := p, objsize := Max(st.objsize, p));
            && Core(g, own, st')
            && st.objsize <= |Content(g, st')| && Content(g, st')[..st.objsize] == Content(g, st)
  {
    hide Geometry.Fat, ChainOk, Owns, NoBadEntry, FileSector, OwnSector, FileByte;
    var st' := st.(fptr := p, objsize := Max(st.objsize, p));
    assert View(st') == View(st);
  }

  /** An offset inside cluster `i` (or at its end): its cluster and its sector. */
  lemma SeekPlace(g: Geometry, chain: seq<nat>, i: nat, ofs: nat)
    requires g.csize > 0 && i < |chain| && 0 < ofs <= SS * g.csize
    ensures var p := ClusterStart(g, i) + ofs;
            && p <= ClusterStart(g, |chain|)
            && ClusterAt(g, chain, SecNo(p - 1), chain[i])
            && (SecOfs(p) != 0 ==> ClusterAt(g, chain, SecNo(p), chain[i]) && SecNo(p) % g.csize == SecNo(ofs))
            && SecOfs(p) == SecOfs(ofs)
  {
    var b := g.csize * i;
    var p := ClusterStart(g, i) + ofs;
    var q, r := SecNo(ofs), SecOfs(ofs);
    MulMono(g.csize, i + 1, |chain|);
    assert g.csize * (i + 1) == b + g.csize;
    DivModUnique(p, SS, b + q, r);
    var q1, r1 := SecNo(ofs - 1), SecOfs(ofs - 1);
    DivModUnique(p - 1, SS, b + q1, r1);
    DivModUnique(b + q1, g.csize, i, q1);
    if r != 0 {
      DivModUnique(b + q, g.csize, i, q);
    }
  }

  /** The cluster index of the byte before the pointer, and the start of that cluster. */
  lemma ClusterOfLast(g: Geometry, st: Snap)
    requires Placed(g, st) && g.csize > 0 && st.fptr > 0
    ensures var i := (st.fptr - 1) / g.Bcs();
            && g.Bcs() == SS * g.csize && 0 <= i < |st.chain| && st.chain[i] == st.clust
            && (st.fptr - 1) / g.Bcs() * g.Bcs() == ClusterStart(g, i)
  {
    var k := st.fptr - 1;
    var m, o := SecNo(k), SecOfs(k);
    var i, r := m / g.csize, m % g.csize;
    assert m == g.csize * i + r;
    assert g.Bcs() * i == SS * (g.csize * i);
    DivModUnique(k, g.Bcs(), i, SS * r + o);
  }

  lemma NextStart(g: Geometry, i: int)
    ensures ClusterStart(g, i + 1) == ClusterStart(g, i) + SS * g.csize
  {
    assert g.csize * (i + 1) == g.csize * i + g.csize;
  }

  /** Offsets past the start of a cluster that the chain must reach. */
  lemma StartBelow(g: Geometry, chain: seq<nat>, i: int, p: int)
    requires g.csize > 0 && ClusterStart(g, i) < p <= ClusterStart(g, |chain|)
    ensures i < |chain|
  {
    if i >= |chain| {
      MulMono(g.csize, |chain|, i);
    }
  }

  /** A seek to the same or a later cluster starts before the target. */
  lemma StartBeforeTarget(g: Geometry, ofs: nat, i: nat)
    requires g.csize > 0 && ofs > 0 && g.Bcs() > 0 && (ofs - 1) / g.Bcs() >= i
    ensures ClusterStart(g, i) < ofs
  {
    var q := (ofs - 1) / g.Bcs();
    assert ofs - 1 == g.Bcs() * q + (ofs - 1) % g.Bcs();
    MulMono(g.Bcs(), i, q);
    assert g.Bcs() * i == SS * (g.csize * i);
  }

  /** The file cut at the pointer, its chain cut after `k` clusters. */
  function Cut(st: Snap, l: seq<Sector>, k: nat): Snap
    requires k <= |st.chain|
  {
    st.(l := l, chain := st.chain[..k], sclust := if k == 0 then 0 else st.sclust, objsize := st.fptr)
  }

  /** Cutting the chain behind the pointer keeps the invariant and the contents before the pointer. */
  lemma CutCore(g: Geometry, own: set<nat>, st: Snap, l: seq<Sector>, k: nat)
    requires Core(g, own, st) && g.SameOutsideFat(st.l, l)
    requires k <= |st.chain| && st.fptr <= ClusterStart(g, k)
    requires TurnsInto(g.Fat(st.l), g.Fat(l), st.chain, st.chain[..k])
    ensures Core(g, own, Cut(st, l, k)) && Content(g, Cut(st, l, k)) == Content(g, st)[..st.fptr]
  {
    hide Geometry.Fat, Geometry.Valid, FileSector, OwnSector, GoodChain, IsChain, HasSector;
    var st' := Cut(st, l, k);
    ChainIsGood(g, st.l, st.chain, st.sclust);
    CutOwns(own, g.Fat(st.l), g.Fat(l), st.chain, k);
    CutIsGood(g, st.chain, k);
    GrowView(g, own, st, l);
    assert View(st.(l := l)) == View(st');
    BytesKept(g, View(st'), View(st), st'.chain, st.chain, st.fptr);
    CutPrefix(g, View(st), st.chain, st.objsize, st.fptr);
    CutCache(g, own, st, l, k);
  }

  lemma CutIsGood(g: Geometry, chain: seq<nat>, k: nat)
    requires GoodChain(g, chain) && k <= |chain|
    ensures GoodChain(g, chain[..k])
  {
  }

  lemma CutPrefix(g: Geometry, v: seq<Sector>, chain: seq<nat>, size: nat, p: nat)
    requires p <= size
    ensures FileBytes(g, v, chain, size)[..p] == FileBytes(g, v, chain, p)
  {
    hide FileByte;
  }

  lemma CutOwns(own: set<nat>, fat: seq<nat>, fat': seq<nat>, chain: seq<nat>, k: nat)
    requires Owns(own, fat, chain) && k <= |chain| && TurnsInto(fat, fat', chain, chain[..k])
    ensures Owns(own, fat', chain[..k])
    ensures NoBadEntry(fat) ==> NoBadEntry(fat')
  {
    forall c | 2 <= c < |fat| ensures (c in chain || fat[c] == 0) <==> (c in chain[..k] || fat'[c] == 0) {
    }
    forall c | 2 <= c < |fat'| ensures fat[c] != 1 ==> fat'[c] != 1 {
      if c in chain[..k] {
        MemberUsed(fat', chain[..k], c);
      }
    }
  }

  lemma CutCache(g: Geometry, own: set<nat>, st: Snap, l: seq<Sector>, k: nat)
    requires DiskOk(g, st.l) && CacheOk(g, own, st) && g.SameOutsideFat(st.l, l)
    requires k <= |st.chain| && st.fptr <= ClusterStart(g, k)
    ensures CacheOk(g, own, Cut(st, l, k))
  {
    hide Geometry.Fat;
    var o := SecOfs(st.fptr);
    if st.sect != 0 {
      OwnNotFat(g, own, st.sect);
    }
    if o != 0 {
      ChainCovers(g, st.chain[..k], SecNo(st.fptr));
    }
  }

  /** The current cluster survives a cut behind it. */
  lemma CutPlaced(g: Geometry, st: Snap, l: seq<Sector>, k: nat)
    requires Placed(g, st) && k <= |st.chain| && st.fptr <= ClusterStart(g, k)
    ensures Placed(g, Cut(st, l, k))
  {
    if st.fptr > 0 {
      var m, o := SecNo(st.fptr - 1), SecOfs(st.fptr - 1);
      ChainCovers(g, st.chain[..k], m);
    }
  }

  lemma NonEmpty(g: Geometry, st: Snap)
    requires SizeOk(g, st) && st.objsize > 0
    ensures st.chain != []
  {
  }

  lemma LastStart(g: Geometry, p: nat, i: nat)
    requires g.csize > 0 && p > 0 && i == (p - 1) / g.Bcs()
    ensures p <= ClusterStart(g, i + 1)
  {
    NextStart(g, i);
    assert g.Bcs() * i == SS * (g.csize * i);
  }

  /** The end of the file moved back to the pointer, all clusters kept. */
  lemma CutSize(g: Geometry, own: set<nat>, st: Snap)
    requires Core(g, own, st)
    ensures var st' := st.(objsize := st.fptr); Core(g, own, st') && Content(g, st') == Content(g, st)[..st.fptr]
  {
    hide FileSector, OwnSector, DiskOk, ChainOk, Owns, FileByte;
    CutPrefix(g, View(st), st.chain, st.objsize, st.fptr);
  }

  lemma LaterStart(g: Geometry, i: nat, j: nat)
    requires i <= j
    ensures ClusterStart(g, i) <= ClusterStart(g, j)
  {
    MulMono(g.csize, i, j);
  }
}
