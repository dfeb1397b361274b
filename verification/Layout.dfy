/** Where things are on a mounted volume. */
module Layout {
  import opened Bytes
  import opened FatTable

  /** The fields of the filesystem object that mounting fixes. */
  datatype Geometry = Geometry(
    ty: FatType,
    nFats: nat,
    csize: nat,
    nFatent: nat,
    fsize: nat,
    volbase: nat,
    fatbase: nat,
    database: nat,
    volEnd: nat)
  {
    /** The FAT copies precede the data inside the volume, and each is large enough for all entries. */
    ghost predicate Valid() {
      && (nFats == 1 || nFats == 2)
      && 3 <= nFatent <= MaxClusters(ty) + 2
      && SizeFor(ty, nFatent) <= SS * fsize
      && volbase < fatbase
      && fatbase + fsize <= database < volEnd <= TWO32
      && (nFats == 2 ==> fatbase + 2 * fsize <= database)
    }

    /** Clusters are a power of two of sectors and all lie inside the volume. */
    ghost predicate ValidData() {
      csize in {1, 2, 4, 8, 16, 32, 64, 128} && DataEnd() <= volEnd
    }

    function DataEnd(): int {
      database + csize * (nFatent - 2)
    }

    /** Bytes per cluster. */
    function Bcs(): nat {
      csize * SS
    }

    predicate IsCluster(c: int) {
      2 <= c < nFatent
    }

    /** clst2sect: the first sector of a cluster, 0 for an invalid cluster number. */
    function Clst2Sect(c: dword): dword {
      var k := Sub32(c, 2);
      if k >= nFatent - 2 then 0 else (database + csize * k) % TWO32
    }

    predicate InFat1(s: int) {
      fatbase <= s < fatbase + fsize
    }

    /** The second copy of the FAT. */
    predicate InMirror(s: int) {
      nFats == 2 && fatbase + fsize <= s < fatbase + 2 * fsize
    }

    predicate InFatArea(s: int) {
      InFat1(s) || InMirror(s)
    }

    predicate InData(s: int) {
      database <= s < DataEnd()
    }

    /** The cluster a data sector belongs to. */
    function ClusterOf(s: int): int
      requires csize > 0
    {
      2 + (s - database) / csize
    }

    /** `v` with the second FAT replaced by the first: what the volume means, whatever the state of the copy. */
    function Project(v: seq<Sector>): (r: seq<Sector>)
      requires fatbase + 2 * fsize <= |v| || nFats != 2
      ensures |r| == |v|
    {
      seq(|v|, s requires 0 <= s < |v| => if InMirror(s) then v[s - fsize] else v[s])
    }

    /** The second FAT equals the first, except perhaps for the copy of sector `except`. */
    ghost predicate CopiesAgree(v: seq<Sector>, except: int)
      requires fatbase + 2 * fsize <= |v| || nFats != 2
    {
      forall s :: InMirror(s) && s - fsize != except ==> v[s] == v[s - fsize]
    }

    /** The device after the window holding `w` for sector `at` is written back: both copies if it is a FAT sector. */
    function Flush(v: seq<Sector>, at: int, w: Sector): (r: seq<Sector>)
      requires 0 <= at < |v| && (fatbase + 2 * fsize <= |v| || nFats != 2)
      ensures |r| == |v|
    {
      if nFats == 2 && InFat1(at) then v[at := w][at + fsize := w] else v[at := w]
    }

    /** Writing back restores the agreement of the copies and leaves the logical disk as it was. */
    lemma FlushAgrees(v: seq<Sector>, at: int, w: Sector)
      requires 0 <= at < |v| && (fatbase + 2 * fsize <= |v| || nFats != 2) && !InMirror(at)
      ensures CopiesAgree(v, at) ==> CopiesAgree(Flush(v, at, w), -1)
      ensures Project(Flush(v, at, w)) == Project(v[at := w])
    {
      ProjectSame(Flush(v, at, w), v[at := w]);
    }

    /** The projection does not see the second FAT. */
    lemma ProjectSame(v: seq<Sector>, v': seq<Sector>)
      requires fatbase + 2 * fsize <= |v| || nFats != 2
      requires |v| == |v'| && forall s :: 0 <= s < |v| && !InMirror(s) ==> v[s] == v'[s]
      ensures Project(v) == Project(v')
    {
      forall s | 0 <= s < |v| ensures Project(v)[s] == Project(v')[s] {
        if InMirror(s) {
          assert !InMirror(s - fsize);
        }
      }
    }

    /** The bytes of the first FAT. */
    function FatBytes(v: seq<Sector>): (r: seq<byte>)
      requires fatbase + fsize <= |v|
      ensures |r| == SS * fsize
    {
      seq(SS * fsize, k requires 0 <= k < SS * fsize => v[fatbase + SecNo(k)][SecOfs(k)])
    }

    /** The sectors outside the FAT copies are the same. */
    ghost predicate SameOutsideFat(v: seq<Sector>, v': seq<Sector>) {
      |v| == |v'| && forall s :: 0 <= s < |v| && !InFatArea(s) ==> v[s] == v'[s]
    }

    lemma SameOutsideTrans(u: seq<Sector>, v: seq<Sector>, w: seq<Sector>)
      requires SameOutsideFat(u, v) && SameOutsideFat(v, w)
      ensures SameOutsideFat(u, w)
    {
    }

    lemma SameOutsideRefl(v: seq<Sector>)
      ensures SameOutsideFat(v, v)
    {
    }

    /** Storing a byte of a first-FAT sector stores it in the table and nowhere else. */
    lemma StoreByte(v: seq<Sector>, q: nat, r: nat, b: byte)
      requires fatbase + fsize <= |v| && (fatbase + 2 * fsize <= |v| || nFats != 2)
      requires q < fsize && r < SS
      ensures var v' := v[fatbase + q := v[fatbase + q][r := b]];
              && SS * q + r < SS * fsize
              && FatBytes(Project(v')) == FatBytes(Project(v))[SS * q + r := b]
              && SameOutsideFat(Project(v), Project(v'))
    {
      var v' := v[fatbase + q := v[fatbase + q][r := b]];
      var fb, fb' := FatBytes(Project(v)), FatBytes(Project(v'));
      DivModUnique(SS * q + r, SS, q, r);
      forall k | 0 <= k < SS * fsize ensures fb'[k] == fb[SS * q + r := b][k] {
        assert k == SS * SecNo(k) + SecOfs(k);
      }
    }

    /** The FAT as a plain array of entries. */
    function Fat(v: seq<Sector>): (r: seq<nat>)
      requires Valid() && volEnd <= |v|
      ensures |r| == nFatent
    {
      AllFit();
      seq(nFatent, c requires 0 <= c < nFatent => Entry(ty, FatBytes(v), c))
    }

    lemma FatAt(v: seq<Sector>, c: nat)
      requires Valid() && volEnd <= |v| && c < nFatent
      ensures Offset(ty, c) + Width(ty) <= SS * fsize
      ensures Fat(v)[c] == Entry(ty, FatBytes(v), c)
    {
      hide Entry, FatBytes;
      AllFit();
    }

    lemma AllFit()
      requires Valid()
      ensures forall c :: 0 <= c < nFatent ==> Offset(ty, c) + Width(ty) <= SS * fsize
    {
      forall c | 0 <= c < nFatent ensures Offset(ty, c) + Width(ty) <= SS * fsize {
        EntriesFit(ty, nFatent, c);
      }
    }

    /** The table after a store, by the byte-wise rule. */
    function PutBytes(v: seq<Sector>, c: nat, val: dword): (r: seq<byte>)
      requires Valid() && volEnd <= |v| && c < nFatent
    {
      AllFit();
      PutEntry(ty, FatBytes(v), c, val)
    }

    /** Entry `c` of `v` was set to `val`, cut to its width, and nothing else of the table changed. */
    ghost predicate Stored(v: seq<Sector>, v': seq<Sector>, c: int, val: dword) {
      && Valid() && volEnd <= |v| && volEnd <= |v'| && IsCluster(c)
      && FatBytes(v') == PutBytes(v, c, val)
      && Fat(v') == Fat(v)[c := val % EntryLimit(ty)]
    }

    /** All entries but `c` are as they were. */
    ghost predicate OthersKept(v: seq<Sector>, v': seq<Sector>, c: int) {
      && Valid() && volEnd <= |v| && volEnd <= |v'|
      && forall d :: 0 <= d < nFatent && d != c ==> Fat(v')[d] == Fat(v)[d]
    }

    /** Storing through the bytes of the table is storing in the plain array. */
    lemma PutIsUpdate(v: seq<Sector>, v': seq<Sector>, c: nat, val: dword)
      requires Valid() && volEnd <= |v| && volEnd <= |v'| && IsCluster(c)
      requires FatBytes(v') == PutBytes(v, c, val)
      ensures Stored(v, v', c, val) && OthersKept(v, v', c)
    {
      hide PutEntry, Entry, Offset, Width, FatBytes, Fat;
      FatAt(v', c);
      PutThenGet(ty, FatBytes(v), c, val);
      forall d | 0 <= d < nFatent && d != c ensures Fat(v')[d] == Fat(v)[d] {
        FatAt(v, d);
        FatAt(v', d);
        PutFrame(ty, FatBytes(v), c, d, val);
      }
    }

    /** After the first half of a 12-bit store every other entry is still intact. */
    lemma HalfPut(v: seq<Sector>, v': seq<Sector>, c: nat, val: dword)
      requires Valid() && ty.FAT12? && volEnd <= |v| && volEnd <= |v'| && c < nFatent
      requires Offset(ty, c) + Width(ty) <= SS * fsize
      requires FatBytes(v') == FatBytes(v)[Offset(ty, c) := Put12First(c, FatBytes(v)[Offset(ty, c)], val)]
      ensures OthersKept(v, v', c)
    {
      hide Entry, Put12First, FatBytes, Fat;
      forall d | 0 <= d < nFatent && d != c ensures Fat(v')[d] == Fat(v)[d] {
        FatAt(v, d);
        FatAt(v', d);
        Put12HalfFrame(FatBytes(v), c, d, val);
      }
    }
  }
}
