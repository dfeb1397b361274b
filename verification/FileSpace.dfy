/** The bytes of a file: its cluster chain laid over the data area. */
module FileSpace {
  import opened Bytes
  import opened Layout

  /** The chain has a cluster for sector `m` of the file. */
  predicate HasSector(g: Geometry, chain: seq<nat>, m: int) {
    g.csize > 0 && m >= 0 && m / g.csize < |chain|
  }

  /** The disk sector of sector `m` of a file with the given chain. */
  function FileSector(g: Geometry, chain: seq<nat>, m: int): int {
    if HasSector(g, chain, m) then
      var c: int := chain[m / g.csize];
      g.database + g.csize * (c - 2) + m % g.csize
    else -1
  }

  /** Byte `k` of the file on the disk `v`. */
  function FileByte(g: Geometry, v: seq<Sector>, chain: seq<nat>, k: nat): byte {
    var s := FileSector(g, chain, SecNo(k));
    if 0 <= s < |v| then v[s][SecOfs(k)] else 0
  }

  /** The first `size` bytes of the file on the disk `v`. */
  function FileBytes(g: Geometry, v: seq<Sector>, chain: seq<nat>, size: nat): (r: seq<byte>)
    ensures |r| == size
  {
    seq(size, k requires 0 <= k < size => FileByte(g, v, chain, k))
  }

  /** A chain of distinct clusters of the volume. */
  ghost predicate GoodChain(g: Geometry, chain: seq<nat>) {
    && g.csize > 0
    && (forall i :: 0 <= i < |chain| ==> g.IsCluster(chain[i]))
    && (forall i, j :: 0 <= i < j < |chain| ==> chain[i] != chain[j])
  }

  lemma MulMono(c: int, x: int, y: int)
    requires c >= 0 && x <= y
    ensures c * x <= c * y
  {
  }

  /** The sectors a chain has are those below its length in sectors. */
  lemma ChainCovers(g: Geometry, chain: seq<nat>, m: nat)
    requires g.csize > 0
    ensures HasSector(g, chain, m) <==> m < g.csize * |chain|
    ensures m == g.csize * (m / g.csize) + m % g.csize && 0 <= m % g.csize < g.csize
  {
    var q := m / g.csize;
    if q >= |chain| {
      MulMono(g.csize, |chain|, q);
    } else {
      MulMono(g.csize, q + 1, |chain|);
      assert g.csize * (q + 1) == g.csize * q + g.csize;
    }
  }

  /** A file sector lies in its cluster's part of the data area. */
  lemma SectorPlace(g: Geometry, chain: seq<nat>, m: nat)
    requires GoodChain(g, chain) && HasSector(g, chain, m)
    ensures var s := FileSector(g, chain, m);
            && g.InData(s) && g.ClusterOf(s) == chain[m / g.csize] && (s - g.database) % g.csize == m % g.csize
  {
    var c := chain[m / g.csize];
    var s := FileSector(g, chain, m);
    DivModUnique(s - g.database, g.csize, c - 2, m % g.csize);
    MulMono(g.csize, 0, c - 2);
    MulMono(g.csize, c - 1, g.nFatent - 2);
    assert g.csize * (c - 1) == g.csize * (c - 2) + g.csize;
  }

  /** Different sectors of a file are different sectors of the disk. */
  lemma SectorInjective(g: Geometry, chain: seq<nat>, m: nat, n: nat)
    requires GoodChain(g, chain) && HasSector(g, chain, m) && HasSector(g, chain, n)
    requires FileSector(g, chain, m) == FileSector(g, chain, n)
    ensures m == n
  {
    hide FileSector, Geometry.InData, Geometry.ClusterOf;
    SectorPlace(g, chain, m);
    SectorPlace(g, chain, n);
    ChainCovers(g, chain, m);
    ChainCovers(g, chain, n);
    assert m / g.csize == n / g.csize;
  }

  /** Inside a cluster, consecutive file sectors are consecutive on the disk. */
  lemma SectorRun(g: Geometry, chain: seq<nat>, m: nat, j: nat)
    requires HasSector(g, chain, m) && m % g.csize + j < g.csize
    ensures HasSector(g, chain, m + j)
    ensures FileSector(g, chain, m + j) == FileSector(g, chain, m) + j
  {
    DivModUnique(m + j, g.csize, m / g.csize, m % g.csize + j);
  }

  /** The sectors [s, s + cc) of a run are file sectors m .. m + cc - 1 and no others. */
  lemma RunIsExactly(g: Geometry, chain: seq<nat>, m: nat, cc: nat, n: nat)
    requires GoodChain(g, chain) && HasSector(g, chain, m) && HasSector(g, chain, n) && m % g.csize + cc <= g.csize
    ensures var s := FileSector(g, chain, m);
            s <= FileSector(g, chain, n) < s + cc <==> m <= n < m + cc
  {
    var s := FileSector(g, chain, m);
    if m <= n < m + cc {
      SectorRun(g, chain, m, n - m);
    }
    if s <= FileSector(g, chain, n) < s + cc {
      var j := FileSector(g, chain, n) - s;
      SectorRun(g, chain, m, j);
      SectorInjective(g, chain, n, m + j);
    }
  }

  /** Bytes `p..` of the file are `d` on `v'`, the others below `size` are as on `v`. */
  ghost predicate Wrote(g: Geometry, v: seq<Sector>, v': seq<Sector>, chain: seq<nat>, size: nat, p: nat, d: seq<byte>) {
    forall k :: 0 <= k < Max(size, p + |d|) ==>
      FileByte(g, v', chain, k) == if p <= k < p + |d| then d[k - p] else FileByte(g, v, chain, k)
  }

  /** Writing bytes in place is splicing them into the contents. */
  lemma WroteSplices(g: Geometry, v: seq<Sector>, v': seq<Sector>, chain: seq<nat>, size: nat, p: nat, d: seq<byte>)
    requires p <= size && Wrote(g, v, v', chain, size, p, d)
    ensures FileBytes(g, v', chain, Max(size, p + |d|)) == Splice(FileBytes(g, v, chain, size), p, d)
  {
    hide FileByte;
    var r := FileBytes(g, v', chain, Max(size, p + |d|));
    var old0 := FileBytes(g, v, chain, size);
    forall k | 0 <= k < |r| ensures r[k] == Splice(old0, p, d)[k] {
      assert r[k] == FileByte(g, v', chain, k);
      assert k < size ==> old0[k] == FileByte(g, v, chain, k);
    }
  }

  /** A direct transfer of `cc` whole sectors inside one cluster. */
  lemma DirectWrote(g: Geometry, v: seq<Sector>, v': seq<Sector>, chain: seq<nat>, size: nat, m: nat, cc: nat, d: seq<byte>)
    requires GoodChain(g, chain) && HasSector(g, chain, m) && m % g.csize + cc <= g.csize && cc > 0
    requires g.DataEnd() <= |v|
    requires size <= SS * (g.csize * |chain|)
    requires RunWritten(v, v', FileSector(g, chain, m), cc, d)
    ensures Wrote(g, v, v', chain, size, SS * m, d)
  {
    SectorRun(g, chain, m, cc - 1);
    ChainCovers(g, chain, m + cc - 1);
    forall k | 0 <= k < Max(size, SS * m + |d|)
      ensures FileByte(g, v', chain, k) == if SS * m <= k < SS * m + |d| then d[k - SS * m] else FileByte(g, v, chain, k)
    {
      DirectByte(g, v, v', chain, m, cc, d, k);
    }
  }

  lemma DirectByte(g: Geometry, v: seq<Sector>, v': seq<Sector>, chain: seq<nat>, m: nat, cc: nat, d: seq<byte>, k: nat)
    requires GoodChain(g, chain) && HasSector(g, chain, m) && m % g.csize + cc <= g.csize
    requires g.DataEnd() <= |v|
    requires k < SS * (g.csize * |chain|)
    requires RunWritten(v, v', FileSector(g, chain, m), cc, d)
    ensures FileByte(g, v', chain, k) == if SS * m <= k < SS * m + |d| then d[k - SS * m] else FileByte(g, v, chain, k)
  {
    hide GoodChain, HasSector, FileSector, Geometry.DataEnd, SecNo, SecOfs;
    var n, o := SecNo(k), SecOfs(k);
    ChainCovers(g, chain, n);
    SectorPlace(g, chain, n);
    RunIsExactly(g, chain, m, cc, n);
    if m <= n < m + cc {
      RunSector(g, chain, m, cc, n);
    }
  }

  lemma RunSector(g: Geometry, chain: seq<nat>, m: nat, cc: nat, n: nat)
    requires HasSector(g, chain, m) && m % g.csize + cc <= g.csize && m <= n < m + cc
    ensures FileSector(g, chain, n) == FileSector(g, chain, m) + (n - m)
  {
    SectorRun(g, chain, m, n - m);
  }

  /** A write through the sector buffer: sector `m` becomes `w`, which holds `d` at `o` and the old bytes below `size`. */
  lemma BufferWrote(g: Geometry, v: seq<Sector>, chain: seq<nat>, size: nat, m: nat, o: nat, d: seq<byte>, w: Sector)
    requires GoodChain(g, chain) && HasSector(g, chain, m) && g.DataEnd() <= |v|
    requires SS * m + o <= size <= SS * (g.csize * |chain|) && o + |d| <= SS
    requires w[o..o + |d|] == d
    requires var s := FileSector(g, chain, m);
             0 <= s < |v| && forall j :: 0 <= j < SS && !(o <= j < o + |d|) && SS * m + j < size ==> w[j] == v[s][j]
    ensures Wrote(g, v, v[FileSector(g, chain, m) := w], chain, size, SS * m + o, d)
  {
    hide GoodChain, HasSector, FileSector, Geometry.DataEnd, SecNo, SecOfs;
    var s := FileSector(g, chain, m);
    var v' := v[s := w];
    forall k | 0 <= k < Max(size, SS * m + o + |d|)
      ensures FileByte(g, v', chain, k) == if SS * m + o <= k < SS * m + o + |d| then d[k - (SS * m + o)] else FileByte(g, v, chain, k)
    {
      var n, q := SecNo(k), SecOfs(k);
      if n == m {
        assert o <= q < o + |d| ==> w[q] == w[o..o + |d|][q - o];
      } else {
        ChainCovers(g, chain, n);
        if FileSector(g, chain, n) == s {
          SectorInjective(g, chain, m, n);
        }
      }
    }
  }
}
