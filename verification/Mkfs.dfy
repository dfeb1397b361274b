/** f_mkfs: choosing the geometry of a new FAT volume. */
module Mkfs {
  import opened Bytes
  import opened FatTable
  import opened Entries
  import opened Layout
  import opened Chains
  import opened ChainSet
  import opened Mount
  import opened Devices

  /** What the caller and the drive fix: volume size and place, cluster size (0: choose), FAT copies, root entries, types allowed. */
  datatype Params = Params(szVol: dword, bVol: dword, szAu: nat, nFat: nat, nRoot: nat, fat: bool, fat32: bool) {
    predicate Valid() {
      && 128 <= szVol && bVol + szVol <= TWO32 && (szAu == 0 || PowerOfTwo(szAu)) && 1 <= nFat <= 2
      && 16 <= nRoot <= 32768 && nRoot % PER_SECTOR == 0
    }
  }

  /** The geometry settled on. */
  datatype Config = Config(ty: FatType, pau: nat, rsv: nat, fat: nat, dir: nat, clusters: nat) {
    function System(nFat: nat): nat {
      rsv + fat * nFat + dir
    }
  }

  datatype Outcome = Aborted | InvalidParameter | Settled(c: Config)

  /** A geometry that makes sense for the volume. */
  predicate Consistent(p: Params, c: Config) {
    && PowerOfTwo(c.pau) && c.fat > 0
    && c.rsv == (if c.ty == FAT32 then 32 else 1) && c.dir == (if c.ty == FAT32 then 0 else p.nRoot / PER_SECTOR)
    && c.System(p.nFat) + 16 * c.pau <= p.szVol
    && c.clusters == (p.szVol - c.System(p.nFat)) / c.pau
    && TypeFor(c.clusters) == [c.ty]
    && SizeFor(c.ty, c.clusters + 2) <= SS * c.fat
    && (c.ty != FAT32 ==> c.fat < 0x1_0000)
  }

  /** The loop over a table of volume sizes that doubles the cluster size. */
  method AutoUnit(table: seq<nat>, n: nat) returns (pau: nat, i: nat)
    requires |table| == 7 && table[6] == 0
    ensures i <= 6 && pau == [1, 2, 4, 8, 16, 32, 64][i] && PowerOfTwo(pau)
    ensures (forall k :: 0 <= k < i ==> 0 < table[k] <= n) && (table[i] == 0 || n < table[i])
  {
    pau, i := 1, 0;
    while table[i] != 0 && table[i] <= n
      invariant i <= 6 && pau == [1, 2, 4, 8, 16, 32, 64][i]
      invariant forall k :: 0 <= k < i ==> 0 < table[k] <= n
      decreases 6 - i
    {
      i, pau := i + 1, pau * 2;
    }
  }

  /** Volume sizes, in steps of 4096 sectors and for FAT32 of 131072 sectors, from which on the cluster size doubles. */
  const BOUNDARIES: seq<nat> := [1, 4, 16, 64, 256, 512, 0]
  const BOUNDARIES_32: seq<nat> := [1, 2, 4, 8, 16, 32, 0]

  /** The cluster size for a volume of `n` sectors, by the sizes in sectors. */
  function AutoOf(fat32: bool, n: nat): (r: nat)
    ensures PowerOfTwo(r) && r <= 64
  {
    if fat32 then
      if n < 0x2_0000 then 1 else if n < 0x4_0000 then 2 else if n < 0x8_0000 then 4 else if n < 0x10_0000 then 8
      else if n < 0x20_0000 then 16 else if n < 0x40_0000 then 32 else 64
    else
      if n < 0x1000 then 1 else if n < 0x4000 then 2 else if n < 0x1_0000 then 4 else if n < 0x4_0000 then 8
      else if n < 0x10_0000 then 16 else if n < 0x20_0000 then 32 else 64
  }

  /** The automatic choice of the cluster size. */
  method SelectUnit(fat32: bool, n: nat) returns (pau: nat)
    ensures pau == AutoOf(fat32, n)
  {
    var i;
    if fat32 {
      pau, i := AutoUnit(BOUNDARIES_32, n / 0x2_0000);
      Boundary32(i, n);
    } else {
      pau, i := AutoUnit(BOUNDARIES, n / 0x1000);
      Boundary(i, n);
    }
  }

  lemma Boundary32(i: nat, n: nat)
    requires i <= 6 && (forall k :: 0 <= k < i ==> 0 < BOUNDARIES_32[k] <= n / 0x2_0000)
    requires BOUNDARIES_32[i] == 0 || n / 0x2_0000 < BOUNDARIES_32[i]
    ensures AutoOf(true, n) == [1, 2, 4, 8, 16, 32, 64][i]
  {
    assert i > 0 ==> BOUNDARIES_32[i - 1] <= n / 0x2_0000;
  }

  lemma Boundary(i: nat, n: nat)
    requires i <= 6 && (forall k :: 0 <= k < i ==> 0 < BOUNDARIES[k] <= n / 0x1000)
    requires BOUNDARIES[i] == 0 || n / 0x1000 < BOUNDARIES[i]
    ensures AutoOf(false, n) == [1, 2, 4, 8, 16, 32, 64][i]
  {
    assert i > 0 ==> BOUNDARIES[i - 1] <= n / 0x1000;
  }

  /** The table size for a first estimate `n` of the clusters; the 16-bit size is cut to 32 bits. */
  function TableBytes(ty: FatType, n: nat): nat {
    match ty
    case FAT12 => (n * 3 + 1) / 2 + 3
    case FAT16 => (n * 2 + 4) % TWO32
    case FAT32 => n * 4 + 8
  }

  /** Whole sectors for `n` bytes, in 32-bit arithmetic: sizes within a sector of 2^32 wrap around. */
  function TableSectors(n: nat): nat {
    (n + SS - 1) % TWO32 / SS
  }

  /** What one turn of the loop works out before its checks. */
  function Attempt(p: Params, ty: FatType, pau: nat): Config
    requires p.Valid() && PowerOfTwo(pau)
  {
    var est := p.szVol / pau;
    var fat := TableSectors(TableBytes(ty, est));
    var rsv, dir := if ty == FAT32 then 32 else 1, if ty == FAT32 then 0 else p.nRoot / PER_SECTOR;
    var sys := rsv + fat * p.nFat + dir;
    Config(ty, pau, rsv, fat, dir, if p.szVol < sys then 0 else (p.szVol - sys) / pau)
  }

  /** The FAT branch estimates 12 bits if few clusters are expected. */
  function FirstType(p: Params, ty: FatType, pau: nat): FatType
    requires PowerOfTwo(pau)
  {
    if ty != FAT32 && p.szVol / pau <= MaxClusters(FAT12) then FAT12 else ty
  }

  datatype Verdict = Accept | Abort | Retry(ty: FatType, szAu: nat)

  /** The checks at the end of a turn. */
  function Judge(p: Params, c: Config, szAu: nat): Verdict
    requires p.Valid()
  {
    if p.szVol < c.System(p.nFat) + c.pau * 16 then Abort
    else if c.ty == FAT32 && c.clusters <= MaxClusters(FAT16) then
      if szAu == 0 && c.pau / 2 != 0 then Retry(FAT32, c.pau / 2) else Abort
    else if c.ty == FAT16 && c.clusters > MaxClusters(FAT16) then
      if szAu == 0 && c.pau * 2 <= 64 then Retry(FAT16, c.pau * 2)
      else if p.fat32 then Retry(FAT32, szAu)
      else if szAu == 0 && c.pau * 2 <= 128 then Retry(FAT16, c.pau * 2)
      else Abort
    else if c.ty == FAT16 && c.clusters <= MaxClusters(FAT12) then
      if szAu == 0 && c.pau * 2 <= 128 then Retry(FAT16, c.pau * 2) else Abort
    else if c.ty == FAT12 && c.clusters > MaxClusters(FAT12) then Abort
    else Accept
  }

  /** The estimates for FAT32 that are refused at once. */
  predicate OutOfRange32(p: Params, ty: FatType, pau: nat)
    requires pau > 0
  {
    ty == FAT32 && (p.szVol / pau <= MaxClusters(FAT16) || p.szVol / pau > MaxClusters(FAT32))
  }

  /** A cluster size that was not asked for is the automatic one, or was changed by a factor of two, once. */
  predicate Units(ty: FatType, pau: nat, szAu: nat, auto: nat) {
    if szAu == 0 then pau == auto else szAu == pau && if ty == FAT32 then 2 * pau == auto else pau == 2 * auto
  }

  /** The checks at the end of a turn in numbers: what fits and has the right number of clusters passes, and nothing else does. */
  lemma JudgeAccepts(p: Params, c: Config, szAu: nat)
    requires p.Valid()
    ensures Judge(p, c, szAu) == Accept <==>
      && c.System(p.nFat) + 16 * c.pau <= p.szVol
      && (match c.ty case FAT12 => c.clusters <= 0xFF5 case FAT16 => 0xFF5 < c.clusters <= 0xFFF5 case FAT32 => 0xFFF5 < c.clusters)
  {
  }

  /** A turn is the last one, in vain, if 16 clusters do not fit, or if the clusters do not suit the type and their size was asked for
      or cannot be changed any more: not below one sector, not above 128, and FAT32 is no way out of too many. */
  lemma JudgeAborts(p: Params, c: Config, szAu: nat)
    requires p.Valid() && PowerOfTwo(c.pau)
    ensures Judge(p, c, szAu) == Abort <==>
      || p.szVol < c.System(p.nFat) + 16 * c.pau
      || (c.ty == FAT32 && c.clusters <= 0xFFF5 && (szAu != 0 || c.pau == 1))
      || (c.ty == FAT16 && c.clusters <= 0xFF5 && (szAu != 0 || c.pau == 128))
      || (c.ty == FAT16 && c.clusters > 0xFFF5 && !p.fat32 && (szAu != 0 || c.pau == 128))
      || (c.ty == FAT12 && c.clusters > 0xFF5)
  {
  }

  /** The retry loop: it ends, what it settles on is consistent and as the caller asked, and it gives up only if the last attempt fails. */
  method Choose(p: Params) returns (r: Outcome, ty: FatType, pau: nat, szAu: nat)
    requires p.Valid()
    ensures r == InvalidParameter <==> !p.fat && !p.fat32
    ensures r != InvalidParameter ==> PowerOfTwo(pau) && (p.szAu != 0 ==> pau == p.szAu) && (if ty == FAT32 then p.fat32 else p.fat)
    ensures r != InvalidParameter && p.szAu == 0 ==> Units(ty, pau, szAu, AutoOf(ty == FAT32, p.szVol))
    ensures r.Settled? ==> Consistent(p, r.c) && r.c == Attempt(p, FirstType(p, ty, pau), pau)
    ensures r.Aborted? ==> OutOfRange32(p, ty, pau) || Judge(p, Attempt(p, FirstType(p, ty, pau), pau), szAu).Abort?
  {
    hide Consistent, Attempt, Judge;
    ty, szAu, pau := if p.fat then FAT16 else FAT32, p.szAu, 1;
    if !p.fat && !p.fat32 {
      return InvalidParameter, ty, pau, szAu;
    }
    while true
      invariant ty != FAT12 && (szAu == 0 || PowerOfTwo(szAu))
      invariant (p.szAu != 0 ==> szAu == p.szAu) && (if ty == FAT32 then p.fat32 else p.fat)
      invariant p.szAu == 0 && szAu != 0 ==> Units(ty, szAu, szAu, AutoOf(ty == FAT32, p.szVol)) && (ty == FAT16 && p.fat32 ==> szAu <= 64)
      decreases if ty == FAT32 then 0 else 1, if szAu == 0 then 1 else 0
    {
      pau := szAu;
      if pau == 0 {
        pau := SelectUnit(ty == FAT32, p.szVol);
      }
      if OutOfRange32(p, ty, pau) {
        return Aborted, ty, pau, szAu;
      }
      var c := Attempt(p, FirstType(p, ty, pau), pau);
      AttemptShape(p, FirstType(p, ty, pau), pau);
      match Judge(p, c, szAu) {
        case Abort => return Aborted, ty, pau, szAu;
        case Accept =>
          AcceptedConsistent(p, ty, pau, szAu);
          return Settled(c), ty, pau, szAu;
        case Retry(t, a) =>
          RetryShape(p, c, szAu);
          if p.szAu == 0 && szAu != 0 && ty == FAT16 && p.fat32 {
            FewAfterDoubling(p, pau);
          }
          if p.szAu == 0 && szAu == 0 && ty == FAT16 && pau == 64 {
            ManyAtLargest(p);
          }
          ty, szAu := t, a;
      }
    }
  }

  lemma AttemptShape(p: Params, ty: FatType, pau: nat)
    requires p.Valid() && PowerOfTwo(pau)
    ensures Attempt(p, ty, pau).ty == ty && Attempt(p, ty, pau).pau == pau
  {
  }

  /** A retry either fixes a cluster size or moves on to FAT32. */
  lemma RetryShape(p: Params, c: Config, szAu: nat)
    requires p.Valid() && PowerOfTwo(c.pau) && (szAu == 0 || c.pau == szAu) && Judge(p, c, szAu).Retry?
    ensures var v := Judge(p, c, szAu);
            && v.ty != FAT12 && (v.szAu == 0 || PowerOfTwo(v.szAu)) && c.ty != FAT12
            && (if v.ty == c.ty then szAu == 0 && v.szAu != 0 && Units(v.ty, v.szAu, v.szAu, c.pau)
                else c.ty == FAT16 && v.ty == FAT32 && v.szAu == szAu && p.fat32 && c.clusters > MaxClusters(FAT16))
            && (v.ty == FAT16 && c.clusters > MaxClusters(FAT12) && p.fat32 ==> v.szAu <= 64)
  {
  }

  lemma BelowBound(v: nat, d: nat, n: nat)
    requires v < d * n
    ensures v / d < n
  {
    assert v == d * (v / d) + v % d;
    if v / d > n {
      Gap(d, n, v / d);
    }
  }

  /** A doubled automatic cluster size of at most 64 sectors leaves few clusters, whatever the volume. */
  lemma FewAfterDoubling(p: Params, pau: nat)
    requires p.Valid() && pau == 2 * AutoOf(false, p.szVol) <= 64
    ensures Attempt(p, FirstType(p, FAT16, pau), pau).clusters <= 0x8000
  {
    hide TableBytes, TableSectors;
    var c := Attempt(p, FirstType(p, FAT16, pau), pau);
    var sys := c.System(p.nFat);
    if sys <= p.szVol {
      DivDiff(p.szVol, sys, pau);
    }
    BelowBound(p.szVol, pau, 0x8000);
  }

  lemma DivDiff(a: nat, s: nat, d: nat)
    requires s <= a && d > 0
    ensures (a - s) / d <= a / d <= (a - s) / d + s
  {
    var q, r := (a - s) / d, (a - s) % d;
    var t := a / d;
    assert a - s == d * q + r && a == d * t + a % d;
    assert d * s >= s by {
      if s > 0 {
        MulAtLeast(s, d);
      }
    }
    assert d * (q + s) == d * q + d * s;
    if t < q {
      Gap(d, t, q);
    } else if t > q + s {
      Gap(d, q + s, t);
    }
  }

  lemma Gap(d: nat, i: nat, j: nat)
    requires i < j
    ensures d * i + d <= d * j
  {
    assert d * j == d * i + d * (j - i);
    MulAtLeast(d, j - i);
  }

  /** Rounding up to whole sectors. */
  lemma RoundUp(n: nat)
    ensures n <= SS * ((n + SS - 1) / SS) <= n + SS - 1
    ensures n + SS - 1 < TWO32 ==> TableSectors(n) == (n + SS - 1) / SS
    ensures TableSectors(n) < 0x80_0000
  {
    var m := n + SS - 1;
    assert m == SS * (m / SS) + m % SS;
    if m < TWO32 {
      DivModUnique(m, TWO32, 0, m);
    }
  }

  /** The largest automatic cluster size is only chosen for volumes with many clusters. */
  lemma ManyAtLargest(p: Params)
    requires p.Valid() && AutoOf(false, p.szVol) == 64
    ensures Attempt(p, FAT16, 64).clusters > MaxClusters(FAT12) && FirstType(p, FAT16, 64) == FAT16
  {
    hide TableSectors;
    var c, est := Attempt(p, FAT16, 64), p.szVol / 64;
    var n := TableBytes(FAT16, est);
    EstimateBound(p.szVol, 64);
    DivModUnique(est * 2 + 4, TWO32, 0, est * 2 + 4);
    RoundUp(n);
    assert SS * c.fat <= n + SS - 1;
    assert c.fat * p.nFat <= 2 * c.fat;
    var sys := c.System(p.nFat);
    assert sys <= 2055 + est / 64;
    DivDiff(p.szVol, sys, 64);
  }

  /** What the 16-bit branch settles on is small enough for all its fields, and neither its size nor the rounding was cut. */
  lemma Small16(est: nat, fat: nat, sys: nat, nFat: nat, dir: nat, clusters: nat)
    requires est < TWO32 && 1 <= nFat <= 2 && dir <= 2048 && fat == TableSectors(TableBytes(FAT16, est))
    requires sys == 1 + fat * nFat + dir && est <= clusters + sys && clusters <= MaxClusters(FAT16)
    ensures TableBytes(FAT16, est) == est * 2 + 4 && TableBytes(FAT16, est) + SS - 1 < TWO32 && fat < 0x1_0000
  {
    var n := TableBytes(FAT16, est);
    RoundUp(n);
    assert fat * nFat <= 2 * fat;
    assert n < TWO32;
    DivModUnique(est * 2 + 4, TWO32, 0, est * 2 + 4);
  }

  /** Twelve-bit table sizes, by parity. */
  lemma Size12(n: nat)
    ensures SizeFor(FAT12, n) == if n % 2 == 0 then 3 * (n / 2) else 3 * (n / 2) + 2
    ensures n >= 2 ==> TableBytes(FAT12, n - 2) == SizeFor(FAT12, n)
  {
    var k := n / 2;
    if n % 2 == 0 {
      DivModUnique(n * 3, 2, 3 * k, 0);
      if n >= 2 {
        DivModUnique((n - 2) * 3 + 1, 2, 3 * k - 3, 1);
      }
    } else {
      DivModUnique(n * 3, 2, 3 * k + 1, 1);
      if n >= 2 {
        DivModUnique((n - 2) * 3 + 1, 2, 3 * k - 1, 0);
      }
    }
  }

  /** The table is estimated for the clusters and the two reserved entries, no more and no less, as far as 32 bits go. */
  lemma TableExact(ty: FatType, n: nat)
    requires ty == FAT16 ==> n * 2 + 4 < TWO32
    ensures TableBytes(ty, n) == SizeFor(ty, n + 2)
  {
    match ty
    case FAT12 => Size12(n + 2);
    case FAT16 => DivModUnique(n * 2 + 4, TWO32, 0, n * 2 + 4);
    case FAT32 =>
  }

  /** An attempt in sectors: the estimate is what the volume holds, the table the least number of sectors for it, and the clusters
      what fits behind the table, as far as 32 bits go. */
  lemma AttemptIs(p: Params, ty: FatType, pau: nat, est: nat)
    requires p.Valid() && PowerOfTwo(pau) && est * pau <= p.szVol < est * pau + pau && SizeFor(ty, est + 2) + 511 < TWO32
    ensures var c := Attempt(p, ty, pau);
            && c.ty == ty && c.pau == pau && SizeFor(ty, est + 2) <= 512 * c.fat < SizeFor(ty, est + 2) + 512
            && c.System(p.nFat) == c.fat * p.nFat + (if ty == FAT32 then 32 else 1 + p.nRoot / 16)
            && (c.System(p.nFat) <= p.szVol ==>
                  c.clusters * pau <= p.szVol - c.System(p.nFat) < c.clusters * pau + pau)
  {
    hide SizeFor, TableBytes, TableSectors;
    var c := Attempt(p, ty, pau);
    DivModUnique(p.szVol, pau, est, p.szVol - est * pau);
    Estimated(ty, est);
    TableExact(ty, est);
    RoundUp(SizeFor(ty, est + 2));
    if c.System(p.nFat) <= p.szVol {
      Division(p.szVol - c.System(p.nFat), pau);
    }
  }

  lemma Division(a: nat, d: nat)
    requires d > 0
    ensures a / d * d <= a < a / d * d + d
  {
    assert a == d * (a / d) + a % d;
  }

  lemma Estimated(ty: FatType, est: nat)
    ensures ty == FAT16 ==> SizeFor(ty, est + 2) == est * 2 + 4
  {
  }

  /** The first choice of the type, and the estimates for FAT32 that are refused, by the number of sectors. */
  lemma EstimatesIs(p: Params, pau: nat)
    requires PowerOfTwo(pau)
    ensures FirstType(p, FAT32, pau) == FAT32 && FirstType(p, FAT16, pau) == if p.szVol < 0xFF6 * pau then FAT12 else FAT16
    ensures !OutOfRange32(p, FAT16, pau) && (OutOfRange32(p, FAT32, pau) <==> p.szVol < 0xFFF6 * pau || p.szVol >= 0x0FFF_FFF6 * pau)
  {
    BelowIff(p.szVol, pau, 0xFF6);
    BelowIff(p.szVol, pau, 0xFFF6);
    BelowIff(p.szVol, pau, 0x0FFF_FFF6);
  }

  lemma BelowIff(v: nat, d: nat, n: nat)
    requires d > 0
    ensures v / d < n <==> v < n * d
  {
    assert v == d * (v / d) + v % d;
    if v < n * d {
      BelowBound(v, d, n);
    } else if v / d < n {
      Gap(d, v / d, n);
    }
  }

  lemma SizeMono(ty: FatType, m: nat, n: nat)
    requires m <= n
    ensures SizeFor(ty, m) <= SizeFor(ty, n)
  {
    if ty == FAT12 {
      Size12(m);
      Size12(n);
    }
  }

  lemma TableLargeEnough(ty: FatType, est: nat)
    requires ty == FAT16 ==> TableBytes(ty, est) == est * 2 + 4
    ensures SizeFor(ty, est + 2) <= TableBytes(ty, est)
  {
    if ty == FAT12 {
      Size12(est + 2);
    }
  }

  /** What passes the checks is consistent. */
  lemma AcceptedConsistent(p: Params, ty: FatType, pau: nat, szAu: nat)
    requires p.Valid() && PowerOfTwo(pau) && ty != FAT12
    requires ty == FAT32 ==> p.szVol / pau <= MaxClusters(FAT32)
    requires Judge(p, Attempt(p, FirstType(p, ty, pau), pau), szAu) == Accept
    ensures Consistent(p, Attempt(p, FirstType(p, ty, pau), pau))
  {
    hide TableBytes, SizeFor;
    var t, est := FirstType(p, ty, pau), p.szVol / pau;
    var c := Attempt(p, t, pau);
    var sys := c.System(p.nFat);
    DivDiff(p.szVol, sys, pau);
    EstimateBound(p.szVol, pau);
    RoundUp(TableBytes(t, est));
    if t == FAT16 {
      Small16(est, c.fat, sys, p.nFat, c.dir, c.clusters);
    } else if t == FAT12 {
      Small12(est, c.fat);
    }
    NotNearLimit(t, est);
    TableLargeEnough(t, est);
    SizeMono(t, c.clusters + 2, est + 2);
    SomeBytes(t, est + 2);
  }

  lemma NotNearLimit(ty: FatType, est: nat)
    ensures ty != FAT16 && est <= MaxClusters(ty) ==> TableBytes(ty, est) + SS - 1 < TWO32
  {
  }

  lemma EstimateBound(v: dword, pau: nat)
    requires pau > 0
    ensures v / pau < TWO32
  {
    var q := v / pau;
    assert v == pau * q + v % pau;
    if q >= 1 {
      MulAtLeast(q, pau);
    }
  }

  lemma Small12(est: nat, fat: nat)
    requires est <= MaxClusters(FAT12) && fat == TableSectors(TableBytes(FAT12, est))
    ensures fat < 0x1_0000
  {
    RoundUp(TableBytes(FAT12, est));
  }

  lemma SomeBytes(ty: FatType, n: nat)
    requires n > 0
    ensures SizeFor(ty, n) > 0
  {
  }

  /* ---- the boot sector ---- */

  /** The boot sector tells the geometry. */
  predicate Describes(b: Boot, p: Params, c: Config) {
    && b.jump == 0xEB && b.signature == 0xAA55 && b.bytesPerSector == SS && b.sectorsPerCluster == c.pau && b.reserved == c.rsv
    && b.fats == p.nFat && b.rootEntries == (if c.ty == FAT32 then 0 else p.nRoot)
    && (if p.szVol < 0x1_0000 then b.sectors16 == p.szVol else b.sectors16 == 0 && b.sectors32 == p.szVol)
    && (if c.ty == FAT32 then b.fatSize16 == 0 && b.fatSize32 == c.fat && b.version == 0 && b.rootCluster == 2 && b.infoSector == 1 && b.fat32Name
        else b.fatSize16 == c.fat)
  }

  /** A new volume is recognised and mounted with the type, cluster count, FAT base and data base it was made with. */
  lemma Mountable(p: Params, c: Config, b: Boot)
    requires p.Valid() && Consistent(p, c) && Describes(b, p, c)
    ensures CheckFs(b) && MountVolume(b, p.bVol).Volume? && InOrder(MountVolume(b, p.bVol), b, p.bVol)
    ensures var m := MountVolume(b, p.bVol);
            && m.g.ty == c.ty && m.g.nFatent == c.clusters + 2 && m.g.csize == c.pau && m.g.nFats == p.nFat && m.g.fsize == c.fat
            && m.g.fatbase == p.bVol + c.rsv && m.g.database == p.bVol + c.System(p.nFat) && m.rootSectors == c.dir
            && (c.ty == FAT32 ==> m.dirbase == 2)
            && (m.infoEnabled ==> p.bVol + 1 < m.g.fatbase)
  {
    hide SizeFor;
    assert SystemSectors(b) == c.System(p.nFat);
    SumNotCut(b);
    EnoughClusters(p, c);
    SectorsFor(SizeFor(c.ty, c.clusters + 2), c.fat);
    LayoutSound(b, p.bVol);
    Accepted(b, p.bVol);
  }

  lemma EnoughClusters(p: Params, c: Config)
    requires p.Valid() && Consistent(p, c)
    ensures c.clusters >= 16 && c.System(p.nFat) < TWO32
  {
    var n := p.szVol - c.System(p.nFat);
    assert n == c.pau * c.clusters + n % c.pau;
    if c.clusters < 16 {
      Gap(c.pau, c.clusters, 16);
    }
  }

  lemma SectorsFor(n: nat, fat: nat)
    requires n <= SS * fat
    ensures (n + (SS - 1)) / SS <= fat
  {
    RoundUp(n);
  }

  /** Sixteen-bit and 32-bit fields as they are stored. */
  method PutField16(buf: array<byte>, i: nat, v: word)
    requires i + 2 <= buf.Length
    modifies buf
    ensures WordAt(buf[..], i) == v && forall k :: 0 <= k < buf.Length && !(i <= k < i + 2) ==> buf[k] == old(buf[k])
  {
    WordRoundTrip(v);
    StoreWord(buf, i, v);
  }

  method PutField32(buf: array<byte>, i: nat, v: dword)
    requires i + 4 <= buf.Length
    modifies buf
    ensures DwordAt(buf[..], i) == v && forall k :: 0 <= k < buf.Length && !(i <= k < i + 4) ==> buf[k] == old(buf[k])
  {
    hide ByteOf;
    DwordRoundTrip(v);
    StoreDword(buf, i, v);
  }

  method PutText(buf: array<byte>, i: nat, t: seq<byte>)
    requires i + |t| <= buf.Length
    modifies buf
    ensures buf[i..i + |t|] == t && forall k :: 0 <= k < buf.Length && !(i <= k < i + |t|) ==> buf[k] == old(buf[k])
  {
    for j := 0 to |t|
      invariant forall k :: 0 <= k < buf.Length ==> buf[k] == if i <= k < i + j then t[k - i] else old(buf[k])
    {
      buf[i + j] := t[j];
    }
  }

  const JUMP_AND_NAME: seq<byte> := [0xEB, 0xFE, 0x90, 0x4D, 0x53, 0x44, 0x4F, 0x53, 0x35, 0x2E, 0x30]
  const NO_NAME: seq<byte> := [0x4E, 0x4F, 0x20, 0x4E, 0x41, 0x4D, 0x45, 0x20, 0x20, 0x20, 0x20]
  const FAT_NAME: seq<byte> := [0x46, 0x41, 0x54, 0x20, 0x20, 0x20, 0x20, 0x20]

  /** The jump, the sector and cluster size and the counts. */
  method FirstFields(buf: array<byte>, p: Params, c: Config)
    requires buf.Length == SS && p.Valid() && Consistent(p, c) && c.rsv < 0x1_0000
    modifies buf
    ensures var b := buf[..];
            && b[0] == 0xEB && WordAt(b, 11) == SS && b[13] == c.pau && WordAt(b, 14) == c.rsv && b[16] == p.nFat
            && WordAt(b, 17) == (if c.ty == FAT32 then 0 else p.nRoot)
    ensures forall k :: 19 <= k < SS ==> buf[k] == 0
  {
    hide LdWord, LdDword, ByteOf;
    forall k | 0 <= k < SS {
      buf[k] := 0;
    }
    PutText(buf, 0, JUMP_AND_NAME);
    assert buf[0] == buf[0..0 + 11][0];
    PutField16(buf, 11, SS);
    buf[13] := c.pau;
    PutField16(buf, 14, c.rsv);
    buf[16] := p.nFat;
    PutField16(buf, 17, if c.ty == FAT32 then 0 else p.nRoot);
  }

  /** The volume size and the fields for old drives. */
  method SizeFields(buf: array<byte>, p: Params)
    requires buf.Length == SS && forall k :: 19 <= k < SS ==> buf[k] == 0
    modifies buf
    ensures var b := buf[..];
            if p.szVol < 0x1_0000 then WordAt(b, 19) == p.szVol else WordAt(b, 19) == 0 && DwordAt(b, 32) == p.szVol
    ensures forall k :: 0 <= k < 19 ==> buf[k] == old(buf[k])
    ensures buf[22] == 0 && buf[23] == 0 && forall k :: 36 <= k < SS ==> buf[k] == 0
  {
    hide LdWord, LdDword, ByteOf;
    ZeroWord();
    if p.szVol < 0x1_0000 {
      PutField16(buf, 19, p.szVol);
    } else {
      PutField32(buf, 32, p.szVol);
    }
    buf[21] := 0xF8;
    PutField16(buf, 24, 63);
    PutField16(buf, 26, 255);
    PutField32(buf, 28, p.bVol);
  }

  lemma ZeroWord()
    ensures LdWord(0, 0) == 0
  {
  }

  /** The fields of a FAT32 volume. */
  method Fat32Fields(buf: array<byte>, fat: dword, vsn: dword)
    requires buf.Length == SS && buf[42] == 0 && buf[43] == 0
    modifies buf
    ensures var b := buf[..];
            DwordAt(b, 36) == fat && WordAt(b, 42) == 0 && DwordAt(b, 44) == 2 && WordAt(b, 48) == 1 && b[82..90] == FAT32_NAME
    ensures forall k :: 0 <= k < 36 ==> buf[k] == old(buf[k])
  {
    hide LdWord, LdDword, ByteOf;
    ZeroWord();
    PutField32(buf, 67, vsn);
    PutField32(buf, 36, fat);
    PutField32(buf, 44, 2);
    PutField16(buf, 48, 1);
    PutField16(buf, 50, 6);
    buf[64] := 0x80;
    buf[66] := 0x29;
    PutText(buf, 71, NO_NAME);
    PutText(buf, 82, FAT32_NAME);
  }

  /** The fields of a FAT12 or FAT16 volume. */
  method Fat16Fields(buf: array<byte>, fat: word, vsn: dword)
    requires buf.Length == SS
    modifies buf
    ensures WordAt(buf[..], 22) == fat && forall k :: 0 <= k < 36 && k != 22 && k != 23 ==> buf[k] == old(buf[k])
  {
    hide LdWord, LdDword, ByteOf;
    PutField32(buf, 39, vsn);
    PutField16(buf, 22, fat);
    buf[36] := 0x80;
    buf[38] := 0x29;
    PutText(buf, 43, NO_NAME);
    PutText(buf, 54, FAT_NAME);
  }

  /** The boot sector of a new volume. */
  method WriteBoot(buf: array<byte>, p: Params, c: Config, vsn: dword)
    requires buf.Length == SS && p.Valid() && Consistent(p, c) && c.rsv < 0x1_0000 && c.fat < TWO32
    modifies buf
    ensures Describes(Fields(buf[..]), p, c)
  {
    hide LdWord, LdDword, ByteOf, Consistent;
    FirstFields(buf, p, c);
    SizeFields(buf, p);
    ZeroWord();
    if c.ty == FAT32 {
      Fat32Fields(buf, c.fat, vsn);
    } else {
      TableWord(p, c);
      Fat16Fields(buf, c.fat, vsn);
    }
    ghost var b := buf[..];
    PutField16(buf, 510, 0xAA55);
    assert buf[82..90] == b[82..90];
  }

  lemma TableWord(p: Params, c: Config)
    requires Consistent(p, c) && c.ty != FAT32
    ensures c.fat < 0x1_0000
  {
  }

  /* ---- the tables ---- */

  /** The first bytes of a new table: the reserved entries and, on FAT32, the root directory in cluster 2. */
  function HeadByte(ty: FatType, k: nat): byte {
    match ty
    case FAT12 => if k == 0 then 0xF8 else if k < 3 then 0xFF else 0
    case FAT16 => if k == 0 then 0xF8 else if k < 4 then 0xFF else 0
    case FAT32 => if k == 0 then 0xF8 else if k < 11 then 0xFF else if k == 11 then 0x0F else 0
  }

  function TableSector(ty: FatType, i: nat): Sector {
    seq(SS, k requires 0 <= k < SS => if i == 0 then HeadByte(ty, k) else 0)
  }

  /** The sectors from `base` on are a new table of `n` sectors. */
  ghost predicate NewTable(v: seq<Sector>, base: nat, n: nat, ty: FatType) {
    base + n <= |v| && forall s :: base <= s < base + n ==> v[s] == TableSector(ty, s - base)
  }

  predicate AllZero(b: seq<byte>) {
    forall k :: 0 <= k < |b| ==> b[k] == 0
  }

  /** The buffer holds the start of a table from sector `i` on: the reserved entries, or nothing. */
  ghost predicate Prepared(b: seq<byte>, ty: FatType, i: nat) {
    forall k :: 0 <= k < |b| ==> b[k] == if i == 0 then HeadByte(ty, k) else 0
  }

  /** The reserved entries, as stored by the two or three double words of the code. */
  method PutHead(buf: array<byte>, ty: FatType)
    requires buf.Length >= SS && AllZero(buf[..])
    modifies buf
    ensures Prepared(buf[..], ty, 0)
  {
    hide ByteOf;
    HeadWords();
    if ty == FAT32 {
      StoreDword(buf, 0, 0xFFFF_FFF8);
      StoreDword(buf, 4, 0xFFFF_FFFF);
      StoreDword(buf, 8, 0x0FFF_FFFF);
    } else if ty == FAT12 {
      StoreDword(buf, 0, 0xFF_FFF8);
    } else {
      StoreDword(buf, 0, 0xFFFF_FFF8);
    }
  }

  lemma HeadWords()
    ensures ByteOf(0xFFFF_FFF8, 0) == 0xF8 && ByteOf(0xFFFF_FFF8, 1) == ByteOf(0xFFFF_FFF8, 2) == ByteOf(0xFFFF_FFF8, 3) == 0xFF
    ensures ByteOf(0xFFFF_FFFF, 0) == ByteOf(0xFFFF_FFFF, 1) == ByteOf(0xFFFF_FFFF, 2) == ByteOf(0xFFFF_FFFF, 3) == 0xFF
    ensures ByteOf(0x0FFF_FFFF, 0) == ByteOf(0x0FFF_FFFF, 1) == ByteOf(0x0FFF_FFFF, 2) == 0xFF && ByteOf(0x0FFF_FFFF, 3) == 0x0F
    ensures ByteOf(0xFF_FFF8, 0) == 0xF8 && ByteOf(0xFF_FFF8, 1) == ByteOf(0xFF_FFF8, 2) == 0xFF && ByteOf(0xFF_FFF8, 3) == 0
  {
  }

  lemma ChunkOfTable(b: seq<byte>, ty: FatType, i: nat, n: nat, j: nat)
    requires Prepared(b, ty, i) && SS * n <= |b| && j < n
    ensures Chunk(b[0..0 + SS * n], j) == TableSector(ty, i + j)
  {
    ChunkOfSlice(b, 0, n, j);
    var x := b[0 + SS * j..0 + SS * j + SS];
    forall k | 0 <= k < SS ensures x[k] == TableSector(ty, i + j)[k] {
      assert x[k] == b[SS * j + k];
      if i == 0 && j > 0 {
        assert SS * j >= SS;
      }
    }
  }

  /** The loop that fills one copy of the table, `szBuf` sectors at a time. */
  method FillCopy(dev: Device, buf: array<byte>, base: dword, fat: nat, szBuf: nat, ty: FatType) returns (ok: bool)
    requires szBuf > 0 && buf.Length == SS * szBuf && AllZero(buf[..]) && fat > 0 && base + fat <= TWO32
    modifies dev, buf
    ensures |dev.sectors| == old(|dev.sectors|)
    ensures dev.reliable && base + fat <= |dev.sectors| ==> ok
    ensures ok ==> NewTable(dev.sectors, base, fat, ty) && AllZero(buf[..])
    ensures forall s :: 0 <= s < |dev.sectors| && !(base <= s < base + fat) ==> dev.sectors[s] == old(dev.sectors)[s]
  {
    hide HeadByte;
    PutHead(buf, ty);
    var i := 0;
    while i < fat
      invariant i <= fat && |dev.sectors| == old(|dev.sectors|) && Prepared(buf[..], ty, i)
      invariant i > 0 ==> NewTable(dev.sectors, base, i, ty)
      invariant forall s :: 0 <= s < |dev.sectors| && !(base <= s < base + fat) ==> dev.sectors[s] == old(dev.sectors)[s]
    {
      var n := if fat - i > szBuf then szBuf else fat - i;
      ghost var b, d := buf[..], dev.sectors;
      ok := dev.Write(buf, 0, base + i, n);
      if !ok {
        return;
      }
      forall s | base <= s < base + i + n ensures dev.sectors[s] == TableSector(ty, s - base) {
        if s >= base + i {
          ChunkOfTable(b, ty, i, n, s - base - i);
        }
      }
      ClearFirst(buf, ty, i);
      i := i + n;
    }
    ok := true;
  }

  /** memset of the first sector of the buffer. */
  method ClearFirst(buf: array<byte>, ty: FatType, ghost i: nat)
    requires buf.Length >= SS && Prepared(buf[..], ty, i)
    modifies buf
    ensures AllZero(buf[..]) && forall j: nat :: j > 0 ==> Prepared(buf[..], ty, j)
  {
    forall k | 0 <= k < SS {
      buf[k] := 0;
    }
  }

  /** The chains of a new volume: the root directory on FAT32, none otherwise. */
  function FirstChains(ty: FatType): set<seq<nat>> {
    if ty == FAT32 then {[2]} else {}
  }

  lemma NewBytes(g: Geometry, v: seq<Sector>, k: nat)
    requires g.Valid() && g.volEnd <= |v| && NewTable(v, g.fatbase, g.fsize, g.ty) && k < SS * g.fsize
    ensures g.FatBytes(v)[k] == if k < SS then HeadByte(g.ty, k) else 0
  {
    hide HeadByte;
    var q, o := SecNo(k), SecOfs(k);
    assert v[g.fatbase + q] == TableSector(g.ty, q);
  }

  /** The media mark, then end marks in the other reserved entry and for the root directory, and free clusters. */
  function NewValue(ty: FatType, c: nat): nat {
    if c == 0 then EntryLimit(ty) - 8 else if c == 1 || (ty == FAT32 && c == 2) then EntryLimit(ty) - 1 else 0
  }

  /** The entries of a new table: end marks in the reserved entries and the root directory, zero elsewhere. */
  lemma NewEntry(g: Geometry, v: seq<Sector>, c: nat)
    requires g.Valid() && g.volEnd <= |v| && NewTable(v, g.fatbase, g.fsize, g.ty) && c < g.nFatent
    ensures g.Fat(v)[c] == NewValue(g.ty, c)
  {
    hide Geometry.FatBytes, Geometry.Fat, NewTable, Entry, HeadByte;
    g.FatAt(v, c);
    forall k | 0 <= k < SS * g.fsize ensures g.FatBytes(v)[k] == if k < SS then HeadByte(g.ty, k) else 0 {
      NewBytes(g, v, k);
    }
    match g.ty
    case FAT12 => Entry12(g.FatBytes(v), c);
    case FAT16 => Entry16(g.FatBytes(v), c);
    case FAT32 => Entry32(g.FatBytes(v), c);
  }

  ghost predicate HeadOnly(ty: FatType, fb: seq<byte>) {
    forall k :: 0 <= k < |fb| ==> fb[k] == if k < SS then HeadByte(ty, k) else 0
  }

  lemma Entry12(fb: seq<byte>, c: nat)
    requires HeadOnly(FAT12, fb) && Offset(FAT12, c) + Width(FAT12) <= |fb|
    ensures Entry(FAT12, fb, c) == NewValue(FAT12, c)
  {
    var o := c + c / 2;
    if c >= 2 {
      assert o >= 3;
      assert fb[o] == 0 && fb[o + 1] == 0;
    } else if c == 0 {
      assert fb[0] == 0xF8 && fb[1] == 0xFF;
    } else {
      assert o == 1 && fb[1] == 0xFF && fb[2] == 0xFF;
    }
  }

  lemma Entry16(fb: seq<byte>, c: nat)
    requires HeadOnly(FAT16, fb) && Offset(FAT16, c) + Width(FAT16) <= |fb|
    ensures Entry(FAT16, fb, c) == NewValue(FAT16, c)
  {
    assert c >= 2 ==> fb[2 * c] == 0 && fb[2 * c + 1] == 0;
  }

  lemma Entry32(fb: seq<byte>, c: nat)
    requires HeadOnly(FAT32, fb) && Offset(FAT32, c) + Width(FAT32) <= |fb|
    ensures Entry(FAT32, fb, c) == NewValue(FAT32, c)
  {
    hide HeadOnly, Decode32;
    var o := 4 * c;
    Head32(fb, o);
    Masked(fb[o], fb[o + 1], fb[o + 2], fb[o + 3], fb[o + 3] / 16, fb[o + 3] % 16);
  }

  /** The upper four bits of an entry do not count. */
  lemma Masked(b0: byte, b1: byte, b2: byte, b3: byte, hi: nat, lo: nat)
    requires b3 == 16 * hi + lo && lo < 16
    ensures Decode32(b0, b1, b2, b3) == b0 + 0x100 * b1 + 0x1_0000 * b2 + 0x100_0000 * lo
  {
    DivModUnique(LdDword(b0, b1, b2, b3), 0x1000_0000, hi, b0 + 0x100 * b1 + 0x1_0000 * b2 + 0x100_0000 * lo);
  }

  lemma Head32(fb: seq<byte>, o: nat)
    requires HeadOnly(FAT32, fb) && o + 4 <= |fb|
    ensures o == 0 ==> fb[0] == 0xF8 && fb[1] == fb[2] == fb[3] == 0xFF
    ensures o == 4 ==> fb[4] == fb[5] == fb[6] == fb[7] == 0xFF
    ensures o == 8 ==> fb[8] == fb[9] == fb[10] == 0xFF && fb[11] == 0x0F
    ensures o >= 12 ==> fb[o] == fb[o + 1] == fb[o + 2] == fb[o + 3] == 0
  {
  }

  /** The table of a new volume is well formed, its chains are as they should be, and everything else is free. */
  lemma NewVolume(g: Geometry, v: seq<Sector>)
    requires g.Valid() && g.volEnd <= |v| && NewTable(v, g.fatbase, g.fsize, g.ty)
    ensures WellFormed(g.Fat(v), FirstChains(g.ty)) && NoBadEntry(g.Fat(v)) && ReservedUsed(g.Fat(v))
    ensures forall c :: 2 <= c < g.nFatent ==> (g.Fat(v)[c] == 0 <==> !(g.ty == FAT32 && c == 2))
  {
    hide Geometry.Fat, NewTable;
    var fat := g.Fat(v);
    forall c | 0 <= c < g.nFatent
      ensures if c < 2 then fat[c] != 0 else fat[c] == if g.ty == FAT32 && c == 2 then 0x0FFF_FFFF else 0
    {
      NewEntry(g, v, c);
    }
    forall c | 2 <= c < |fat| && fat[c] != 0 ensures Owned(FirstChains(g.ty), c) {
      assert [2] in FirstChains(g.ty) && c in [2];
    }
  }

  /** The part of f_mkfs that initialises all copies of the table. */
  method FillTables(dev: Device, c: Config, base: dword, nFat: nat, szBuf: nat) returns (ok: bool)
    requires szBuf > 0 && c.fat > 0 && 1 <= nFat <= 2 && base + c.fat * nFat <= TWO32
    modifies dev
    ensures |dev.sectors| == old(|dev.sectors|)
    ensures dev.reliable && base + c.fat * nFat <= |dev.sectors| ==> ok
    ensures ok ==> NewTable(dev.sectors, base, c.fat, c.ty) && (nFat == 2 ==> NewTable(dev.sectors, base + c.fat, c.fat, c.ty))
    ensures forall s :: 0 <= s < |dev.sectors| && !(base <= s < base + c.fat * nFat) ==> dev.sectors[s] == old(dev.sectors)[s]
  {
    var buf := new byte[SS * szBuf](_ => 0);
    ok := FillCopy(dev, buf, base, c.fat, szBuf, c.ty);
    if ok && nFat == 2 {
      ghost var v := dev.sectors;
      ok := FillCopy(dev, buf, base + c.fat, c.fat, szBuf, c.ty);
      assert forall s :: base <= s < base + c.fat && s < |v| ==> dev.sectors[s] == v[s];
    }
  }

  /* ---- formatting a device ---- */

  const ZERO_SECTOR: Sector := seq(SS, _ => 0)

  /** The loop that clears the root directory. */
  method ClearRoot(dev: Device, base: dword, count: nat, szBuf: nat) returns (ok: bool)
    requires szBuf > 0 && base + count <= TWO32
    modifies dev
    ensures |dev.sectors| == old(|dev.sectors|)
    ensures dev.reliable && base + count <= |dev.sectors| ==> ok
    ensures ok ==> forall s :: base <= s < base + count && s < |dev.sectors| ==> dev.sectors[s] == ZERO_SECTOR
    ensures forall s :: 0 <= s < |dev.sectors| && !(base <= s < base + count) ==> dev.sectors[s] == old(dev.sectors)[s]
  {
    var buf := new byte[SS * szBuf](_ => 0);
    var i := 0;
    while i < count
      invariant i <= count && |dev.sectors| == old(|dev.sectors|) && AllZero(buf[..])
      invariant forall s :: base <= s < base + i && s < |dev.sectors| ==> dev.sectors[s] == ZERO_SECTOR
      invariant forall s :: 0 <= s < |dev.sectors| && !(base <= s < base + count) ==> dev.sectors[s] == old(dev.sectors)[s]
    {
      var n := if count - i > szBuf then szBuf else count - i;
      ok := dev.Write(buf, 0, base + i, n);
      if !ok {
        return;
      }
      forall s | base + i <= s < base + i + n ensures dev.sectors[s] == ZERO_SECTOR {
        ChunkOfZero(buf[..], n, s - base - i);
      }
      i := i + n;
    }
    ok := true;
  }

  lemma ChunkOfZero(b: seq<byte>, n: nat, j: nat)
    requires AllZero(b) && SS * n <= |b| && j < n
    ensures Chunk(b[0..0 + SS * n], j) == ZERO_SECTOR
  {
    ChunkOfSlice(b, 0, n, j);
  }

  /** What a formatted device tells a later mount. */
  ghost predicate Formatted(v: seq<Sector>, p: Params, c: Config) {
    && p.Valid() && Consistent(p, c) && p.bVol + p.szVol <= |v| && Describes(Fields(v[p.bVol]), p, c)
    && NewTable(v, p.bVol + c.rsv, c.fat, c.ty) && (p.nFat == 2 ==> NewTable(v, p.bVol + c.rsv + c.fat, c.fat, c.ty))
  }

  /** A formatted device mounts, with the geometry chosen, over a well-formed table whose copies agree. */
  lemma FormattedMounts(v: seq<Sector>, p: Params, c: Config)
    requires Formatted(v, p, c)
    ensures var b := Fields(v[p.bVol]);
            var m := MountVolume(b, p.bVol);
            && CheckFs(b) && m.Volume? && InOrder(m, b, p.bVol) && m.g.volEnd <= |v|
            && m.g.ty == c.ty && m.g.nFatent == c.clusters + 2 && m.g.fatbase == p.bVol + c.rsv
            && m.g.database == p.bVol + c.System(p.nFat)
            && WellFormed(m.g.Fat(v), FirstChains(c.ty)) && NoBadEntry(m.g.Fat(v)) && ReservedUsed(m.g.Fat(v)) && m.g.CopiesAgree(v, -1)
  {
    hide Consistent, Describes, MountVolume, Geometry.Fat, CheckFs, WellFormed, NoBadEntry, ReservedUsed, TableSector, Fields;
    var b := Fields(v[p.bVol]);
    Mountable(p, c, b);
    SizeIs(p, c, b);
    var g := MountVolume(b, p.bVol).g;
    NewVolume(g, v);
    forall s | g.InMirror(s) ensures v[s] == v[s - g.fsize] {
      assert v[s] == TableSector(c.ty, s - (p.bVol + c.rsv + c.fat));
      assert v[s - g.fsize] == TableSector(c.ty, s - g.fsize - (p.bVol + c.rsv));
    }
  }

  lemma SizeIs(p: Params, c: Config, b: Boot)
    requires p.Valid() && Describes(b, p, c)
    ensures TotalSectors(b) == p.szVol
  {
  }

  /** The root directory, fixed or in cluster 2, is empty. */
  ghost predicate RootCleared(v: seq<Sector>, p: Params, c: Config) {
    var base := p.bVol + c.rsv + c.fat * p.nFat;
    forall s :: base <= s < base + (if c.ty == FAT32 then c.pau else c.dir) && s < |v| ==> AllZero(v[s])
  }

  /** On FAT32 there is a backup of the boot sector and, twice, an information sector with the free count, which mounting will not take. */
  ghost predicate InfoLeft(v: seq<Sector>, p: Params, c: Config) {
    c.ty == FAT32 && p.bVol + 7 < |v| ==>
      && v[p.bVol + 6] == v[p.bVol] && v[p.bVol + 7] == v[p.bVol + 1]
      && DwordAt(v[p.bVol + 1], 488) == c.clusters - 1 && LoadInfo(v[p.bVol + 1]).Unknown?
  }

  /** The backup of the boot sector in `buf` and the two information sectors of a new FAT32 volume; errors are ignored. */
  method WriteInfo(dev: Device, buf: array<byte>, bVol: dword, clusters: nat)
    requires buf.Length == SS && bVol + 7 < TWO32 && 1 <= clusters <= TWO32
    modifies dev, buf
    ensures |dev.sectors| == old(|dev.sectors|)
    ensures forall s :: 0 <= s < |dev.sectors| && s != bVol + 1 && s != bVol + 6 && s != bVol + 7 ==> dev.sectors[s] == old(dev.sectors)[s]
    ensures dev.reliable && bVol + 7 < |dev.sectors| ==>
      && dev.sectors[bVol + 6] == old(buf[..]) && dev.sectors[bVol + 7] == dev.sectors[bVol + 1]
      && DwordAt(dev.sectors[bVol + 1], 488) == clusters - 1 && LoadInfo(dev.sectors[bVol + 1]).Unknown?
      && DwordAt(dev.sectors[bVol + 1], 0) == 0x4161_5252 && DwordAt(dev.sectors[bVol + 1], 484) == 0x6141_7272
      && DwordAt(dev.sectors[bVol + 1], 492) == 2 && WordAt(dev.sectors[bVol + 1], 510) == 0xAA55
  {
    hide LdDword, LdWord;
    assert buf[0..0 + SS] == buf[..];
    var _ := dev.Write(buf, 0, bVol + 6, 1);
    forall k | 0 <= k < SS {
      buf[k] := 0;
    }
    PutField32(buf, 0, 0x4161_5252);
    PutField32(buf, 484, 0x6141_7272);
    PutField32(buf, 488, clusters - 1);
    PutField32(buf, 492, 2);
    PutField16(buf, 510, 0xAA55);
    ghost var info := buf[..];
    NoTrailer(info);
    assert buf[0..0 + SS] == info;
    var _ := dev.Write(buf, 0, bVol + 7, 1);
    var _ := dev.Write(buf, 0, bVol + 1, 1);
  }

  /** Without the trailing signature mounting takes nothing from an information sector. */
  lemma NoTrailer(s: Sector)
    requires s[498] == s[499] == s[500] == s[501] == 0
    ensures LoadInfo(s) == Unknown
  {
  }

  /** The FAT part of f_mkfs: the geometry, the boot sector, the sectors that go with it on FAT32, the tables and the root directory. */
  method Format(dev: Device, p: Params, vsn: dword, szBuf: nat) returns (r: Outcome, ok: bool)
    requires p.Valid() && szBuf > 0
    modifies dev
    ensures |dev.sectors| == old(|dev.sectors|)
    ensures r.Settled? && ok && p.bVol + p.szVol <= |dev.sectors| ==> Formatted(dev.sectors, p, r.c)
    ensures r.Settled? && ok ==> RootCleared(dev.sectors, p, r.c) && (dev.reliable ==> InfoLeft(dev.sectors, p, r.c))
    ensures r.Settled? && dev.reliable && p.bVol + p.szVol <= |dev.sectors| ==> ok
    ensures forall s :: 0 <= s < |dev.sectors| && !(p.bVol <= s < p.bVol + p.szVol) ==> dev.sectors[s] == old(dev.sectors)[s]
  {
    hide Consistent, Describes, Fields, NewTable, Attempt, Judge, FirstType, OutOfRange32, PowerOfTwo, LoadInfo, RootCleared;
    ok := false;
    var ty, pau, szAu;
    r, ty, pau, szAu := Choose(p);
    if r.Settled? {
      var c := r.c;
      Room(p, c);
      var buf := new byte[SS](_ => 0);
      WriteBoot(buf, p, c, vsn);
      ghost var boot := buf[..];
      ok := dev.Write(buf, 0, p.bVol, 1);
      assert buf[0..0 + SS] == boot;
      if ok {
        if c.ty == FAT32 {
          WriteInfo(dev, buf, p.bVol, c.clusters);
        }
        ok := FillAreas(dev, p, c, szBuf);
      }
    }
  }

  /** The tables and the root directory. */
  method FillAreas(dev: Device, p: Params, c: Config, szBuf: nat) returns (ok: bool)
    requires p.Valid() && Consistent(p, c) && szBuf > 0
    modifies dev
    ensures |dev.sectors| == old(|dev.sectors|)
    ensures dev.reliable && p.bVol + p.szVol <= |dev.sectors| ==> ok
    ensures ok ==> NewTable(dev.sectors, p.bVol + c.rsv, c.fat, c.ty) && RootCleared(dev.sectors, p, c)
    ensures ok && p.nFat == 2 ==> NewTable(dev.sectors, p.bVol + c.rsv + c.fat, c.fat, c.ty)
    ensures forall s :: 0 <= s < |dev.sectors| && !(p.bVol + c.rsv <= s < p.bVol + p.szVol) ==> dev.sectors[s] == old(dev.sectors)[s]
  {
    hide Consistent, NewTable, PowerOfTwo;
    Room(p, c);
    ok := FillTables(dev, c, p.bVol + c.rsv, p.nFat, szBuf);
    if ok {
      ghost var v := dev.sectors;
      var count := if c.ty == FAT32 then c.pau else c.dir;
      ok := ClearRoot(dev, p.bVol + c.rsv + c.fat * p.nFat, count, szBuf);
      TablesKept(v, dev.sectors, p, c);
    }
  }

  /** All areas f_mkfs writes to lie inside the volume. */
  lemma Room(p: Params, c: Config)
    requires p.Valid() && Consistent(p, c)
    ensures c.ty == FAT32 ==> c.rsv == 32 && c.clusters >= 1 && p.bVol + 7 < TWO32 && c.clusters < TWO32
    ensures 0 < c.rsv < 0x1_0000 && 0 < c.fat && c.fat < TWO32 && p.bVol + c.rsv + c.fat * p.nFat <= TWO32
    ensures p.bVol + c.rsv + c.fat * p.nFat + (if c.ty == FAT32 then c.pau else c.dir) <= p.bVol + p.szVol
    ensures p.bVol + c.rsv < TWO32 && p.bVol + c.rsv + c.fat * p.nFat < TWO32
  {
  }

  lemma TablesKept(v: seq<Sector>, w: seq<Sector>, p: Params, c: Config)
    requires |w| == |v| && 1 <= p.nFat <= 2
    requires forall s :: 0 <= s < |v| && s < p.bVol + c.rsv + c.fat * p.nFat ==> w[s] == v[s]
    ensures NewTable(v, p.bVol + c.rsv, c.fat, c.ty) ==> NewTable(w, p.bVol + c.rsv, c.fat, c.ty)
    ensures p.nFat == 2 && NewTable(v, p.bVol + c.rsv + c.fat, c.fat, c.ty) ==> NewTable(w, p.bVol + c.rsv + c.fat, c.fat, c.ty)
  {
    hide TableSector;
  }
}
