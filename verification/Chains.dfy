/** Cluster allocation over the FAT seen as a plain array of entries. */
module Chains {

  /** The allocator's state: the entries, the last allocated cluster and the free count (unknown if too large). */
  datatype Alloc = Alloc(fat: seq<nat>, last: nat, free: nat)

  /** Zero entries from `lo` on. */
  function CountFree(fat: seq<nat>, lo: nat): nat
    requires lo <= |fat|
    decreases |fat| - lo
  {
    if lo == |fat| then 0 else (if fat[lo] == 0 then 1 else 0) + CountFree(fat, lo + 1)
  }

  /** The free count is either unknown or right. */
  ghost predicate FreeKnown(a: Alloc)
    requires |a.fat| >= 2
  {
    a.free > |a.fat| - 2 || a.free == CountFree(a.fat, 2)
  }

  lemma {:induction false} CountUpdate(fat: seq<nat>, lo: nat, c: nat, v: nat)
    requires lo <= |fat| && c < |fat|
    ensures CountFree(fat[c := v], lo) ==
            CountFree(fat, lo) + (if c < lo then 0 else (if v == 0 then 1 else 0) - (if fat[c] == 0 then 1 else 0))
    decreases |fat| - lo
  {
    if lo < |fat| {
      CountUpdate(fat, lo + 1, c, v);
    }
  }

  lemma {:induction false} CountPositive(fat: seq<nat>, lo: nat)
    requires lo <= |fat|
    ensures CountFree(fat, lo) <= |fat| - lo
    ensures CountFree(fat, lo) > 0 <==> exists c :: lo <= c < |fat| && fat[c] == 0
    ensures CountFree(fat, lo) == |fat| - lo ==> forall c :: lo <= c < |fat| ==> fat[c] == 0
    decreases |fat| - lo
  {
    if lo < |fat| {
      CountPositive(fat, lo + 1);
    }
  }

  /* ---- create_chain ---- */

  /** Candidates not yet probed once `ncl` has been: the measure of the circular search. */
  function Unprobed(n: nat, scl: nat, ncl: nat): int {
    if ncl >= scl then (n - 1 - ncl) + (scl - 1) else scl - ncl
  }

  /** The search loop after `ncl` was probed in vain: the cluster found, 0 for none, 1 for a bad entry. */
  function Search(fat: seq<nat>, scl: nat, ncl: nat): nat
    requires 3 <= |fat| && 1 <= scl < |fat| && 1 <= ncl < |fat|
    decreases Unprobed(|fat|, scl, ncl)
  {
    var c := if ncl + 1 < |fat| then ncl + 1 else 2;
    if c == 2 && ncl + 1 >= |fat| && 2 > scl then 0
    else if fat[c] == 0 then c
    else if fat[c] == 1 then 1
    else if c == scl then 0
    else Search(fat, scl, c)
  }

  /** `c` comes after `ncl` in the circular order that ends with `scl`. */
  predicate Ahead(n: nat, scl: nat, ncl: nat, c: int) {
    2 <= c < n && (if ncl >= scl then c > ncl || c <= scl else ncl < c <= scl)
  }

  /** The search probes every cluster ahead: it finds a free one unless there is none or an entry is bad. */
  lemma {:induction false} SearchFinds(fat: seq<nat>, scl: nat, ncl: nat)
    requires 3 <= |fat| && 1 <= scl < |fat| && 1 <= ncl < |fat|
    ensures var r := Search(fat, scl, ncl);
            && (r >= 2 ==> r < |fat| && fat[r] == 0)
            && (r == 1 ==> exists c :: 2 <= c < |fat| && fat[c] == 1)
            && (r == 0 ==> forall c :: Ahead(|fat|, scl, ncl, c) ==> fat[c] != 0)
    decreases Unprobed(|fat|, scl, ncl)
  {
    var c := if ncl + 1 < |fat| then ncl + 1 else 2;
    if c == 2 && ncl + 1 >= |fat| && 2 > scl {
    } else if fat[c] <= 1 || c == scl {
    } else {
      SearchFinds(fat, scl, c);
      assert forall d :: Ahead(|fat|, scl, ncl, d) ==> d == c || Ahead(|fat|, scl, c, d);
    }
  }

  /** The cluster `k` steps after `scl`: upwards, and from the last cluster on to cluster 2. */
  function Walk(n: nat, scl: nat, k: nat): (r: nat)
    requires 1 <= scl < n && k <= n - 2
    ensures k > 0 ==> 2 <= r < n
  {
    if scl + k < n then scl + k else scl + k - (n - 2)
  }

  /** The walk meets every cluster once, and comes to `scl` last. */
  lemma WalkMeets(n: nat, scl: nat, c: nat) returns (k: nat)
    requires 1 <= scl < n && 2 <= c < n
    ensures 1 <= k <= n - 2 && Walk(n, scl, k) == c
    ensures forall j :: 1 <= j <= n - 2 && j != k ==> Walk(n, scl, j) != c
    ensures c == scl <==> k == n - 2 && scl >= 2
  {
    k := if c > scl then c - scl else c - scl + (n - 2);
  }

  /** The search takes the nearest free cluster: step `j` is the first one, after `k`, that meets a free or a bad entry. */
  lemma {:induction false} SearchNearest(fat: seq<nat>, scl: nat, k: nat) returns (j: nat)
    requires 3 <= |fat| && 1 <= scl < |fat| && k <= |fat| - 2 && (scl >= 2 ==> k < |fat| - 2)
    ensures k < j <= |fat| - 1
    ensures forall i :: k < i < j ==> fat[Walk(|fat|, scl, i)] > 1
    ensures var r := Search(fat, scl, Walk(|fat|, scl, k));
            if j == |fat| - 1 then r == 0
            else var c := Walk(|fat|, scl, j); fat[c] <= 1 && r == if fat[c] == 0 then c else 1
    decreases |fat| - k
  {
    var n := |fat|;
    j := k + 1;
    if j < n - 1 && fat[Walk(n, scl, j)] > 1 {
      if j == n - 2 && scl >= 2 {
        j := n - 1;
      } else {
        j := SearchNearest(fat, scl, j);
      }
    }
  }

  /** Take the free cluster `ncl`, as a new chain or as the successor of `clst`. */
  function Link(a: Alloc, eoc: nat, clst: nat, ncl: nat): (r: Alloc)
    requires ncl < |a.fat| && clst < |a.fat|
    ensures |r.fat| == |a.fat|
  {
    var fat := a.fat[ncl := eoc];
    Alloc(if clst != 0 then fat[clst := ncl] else fat,
          ncl,
          if 0 < a.free <= |fat| - 2 then a.free - 1 else a.free)
  }

  /** Finish an allocation whose search gave `r`. */
  function Take(a: Alloc, eoc: nat, clst: nat, r: nat): (Alloc, nat)
    requires r < |a.fat| && clst < |a.fat|
  {
    if r < 2 then (a, r) else (Link(a, eoc, clst, r), r)
  }

  /** The cluster the search for a new chain starts from. */
  function NewHint(a: Alloc): nat {
    if a.last == 0 || a.last >= |a.fat| then 1 else a.last
  }

  /** create_chain on a fault-free device: the new state, and the cluster, 0 (none) or 1 (error). */
  function Create(a: Alloc, eoc: nat, clst: nat): (Alloc, nat)
    requires 3 <= |a.fat|
  {
    var n := |a.fat|;
    if clst == 0 then
      if a.free == 0 then (a, 0)
      else SearchBound(a.fat, NewHint(a), NewHint(a)); Take(a, eoc, 0, Search(a.fat, NewHint(a), NewHint(a)))
    else if clst < 2 || clst >= n || a.fat[clst] < 2 then (a, 1)
    else if a.fat[clst] < n then (a, a.fat[clst])
    else if a.free == 0 then (a, 0)
    else
      var ncl := if clst + 1 >= n then 2 else clst + 1;
      if a.fat[ncl] == 1 then (a, 1)
      else if a.fat[ncl] == 0 then (Link(a, eoc, clst, ncl), ncl)
      else
        var scl := if 2 <= a.last < n then a.last else clst;
        SearchBound(a.fat, scl, scl);
        Take(a, eoc, clst, Search(a.fat, scl, scl))
  }

  lemma SearchBound(fat: seq<nat>, scl: nat, ncl: nat)
    requires 3 <= |fat| && 1 <= scl < |fat| && 1 <= ncl < |fat|
    ensures Search(fat, scl, ncl) < |fat|
  {
    SearchFinds(fat, scl, ncl);
  }

  ghost predicate NoBadEntry(fat: seq<nat>) {
    forall c :: 2 <= c < |fat| ==> fat[c] != 1
  }

  /** The two reserved entries are nonzero, as formatting leaves them. */
  ghost predicate ReservedUsed(fat: seq<nat>) {
    |fat| >= 2 && fat[0] != 0 && fat[1] != 0
  }

  /** For every hint, a request for a new cluster fails exactly when none is free. */
  lemma CreateFailsIffFull(a: Alloc, eoc: nat, clst: nat)
    requires 3 <= |a.fat| && FreeKnown(a) && NoBadEntry(a.fat)
    requires clst == 0 || (2 <= clst < |a.fat| && a.fat[clst] >= |a.fat|)
    ensures Create(a, eoc, clst).1 == 0 <==> CountFree(a.fat, 2) == 0
    ensures var r := Create(a, eoc, clst).1;
            r != 0 ==> 2 <= r < |a.fat| && a.fat[r] == 0 && Create(a, eoc, clst).0 == Link(a, eoc, clst, r)
  {
    CountPositive(a.fat, 2);
    SearchFinds(a.fat, NewHint(a), NewHint(a));
    if clst != 0 {
      var scl := if 2 <= a.last < |a.fat| then a.last else clst;
      SearchFinds(a.fat, scl, scl);
      var ncl := if clst + 1 >= |a.fat| then 2 else clst + 1;
      assert Search(a.fat, scl, scl) == 0 ==> forall c :: 2 <= c < |a.fat| ==> Ahead(|a.fat|, scl, scl, c);
    }
  }

  /** A successful allocation keeps the free count right and takes exactly one cluster. */
  lemma CreateCounts(a: Alloc, eoc: nat, clst: nat)
    requires 3 <= |a.fat| <= eoc && FreeKnown(a)
    ensures var (b, r) := Create(a, eoc, clst);
            && |b.fat| == |a.fat|
            && FreeKnown(b)
            && CountFree(b.fat, 2) == CountFree(a.fat, 2) - (if b == a then 0 else 1)
  {
    var (b, r) := Create(a, eoc, clst);
    SearchFinds(a.fat, NewHint(a), NewHint(a));
    if 2 <= clst < |a.fat| {
      var scl := if 2 <= a.last < |a.fat| then a.last else clst;
      SearchFinds(a.fat, scl, scl);
    }
    if b != a {
      LinkCounts(a, eoc, clst, r);
    }
  }

  /** What an allocation changes: one free cluster ends its chain, follows `clst` if that was given, and becomes the hint. */
  lemma CreateTakes(a: Alloc, eoc: nat, clst: nat)
    requires 3 <= |a.fat| <= eoc
    ensures var (b, r) := Create(a, eoc, clst);
            b != a ==>
              && 2 <= r < |a.fat| && a.fat[r] == 0 && b.last == r && |b.fat| == |a.fat| && b.fat[r] == eoc
              && (clst != 0 ==> 2 <= clst < |a.fat| && a.fat[clst] >= |a.fat| && b.fat[clst] == r)
              && forall c :: 0 <= c < |a.fat| && c != r && (c != clst || c == 0) ==> b.fat[c] == a.fat[c]
  {
    SearchFinds(a.fat, NewHint(a), NewHint(a));
    if 2 <= clst < |a.fat| {
      var scl := if 2 <= a.last < |a.fat| then a.last else clst;
      SearchFinds(a.fat, scl, scl);
    }
  }

  /** A chain is stretched into the next cluster if that is free, cluster 2 being next to the last one. */
  lemma StretchesOn(a: Alloc, eoc: nat, clst: nat)
    requires 2 <= clst < |a.fat| <= eoc && a.fat[clst] >= |a.fat| && a.free != 0 && a.fat[Walk(|a.fat|, clst, 1)] == 0
    ensures Create(a, eoc, clst).1 == Walk(|a.fat|, clst, 1) && Create(a, eoc, clst).0 != a
  {
  }

  /** Otherwise, and for a new chain, the nearest free cluster behind the hint is taken, unless a bad entry comes before it. */
  lemma TakesNearest(a: Alloc, eoc: nat, clst: nat) returns (hint: nat, j: nat)
    requires 3 <= |a.fat| <= eoc && a.free != 0
    requires clst == 0 || (2 <= clst < |a.fat| && a.fat[clst] >= |a.fat| && a.fat[Walk(|a.fat|, clst, 1)] > 1)
    ensures hint == if 2 <= a.last < |a.fat| || (a.last == 1 && clst == 0) then a.last else if clst == 0 then 1 else clst
    ensures 1 <= j <= |a.fat| - 1 && forall i :: 1 <= i < j ==> a.fat[Walk(|a.fat|, hint, i)] > 1
    ensures if j == |a.fat| - 1 then Create(a, eoc, clst) == (a, 0)
            else var c := Walk(|a.fat|, hint, j);
                 if a.fat[c] == 0 then Create(a, eoc, clst).1 == c else a.fat[c] == 1 && Create(a, eoc, clst) == (a, 1)
  {
    hide Search;
    hint := if clst == 0 then NewHint(a) else if 2 <= a.last < |a.fat| then a.last else clst;
    j := SearchNearest(a.fat, hint, 0);
    SearchBound(a.fat, hint, hint);
  }

  /** A cluster that is taken for a new chain and freed at once is not taken again unless it is the only free one. */
  lemma FreedComesLast(a: Alloc, eoc: nat)
    requires 3 <= |a.fat| <= eoc && NoBadEntry(a.fat) && Create(a, eoc, 0).1 != 0
    ensures var (b, r) := Create(a, eoc, 0);
            var (ok, c) := Remove(b, eoc, r, 0);
            ok && c.fat == a.fat && c.last == r && c.free > 0
            && (Create(c, eoc, 0).1 == r <==> forall d :: 2 <= d < |a.fat| && d != r ==> a.fat[d] != 0)
  {
    hide Search;
    var h, i := TakesNearest(a, eoc, 0);
    var (b, r) := Create(a, eoc, 0);
    CreateTakes(a, eoc, 0);
    assert b.fat[r := 0] == a.fat;
    var (ok, c) := Remove(b, eoc, r, 0);
    var g, j := TakesNearest(c, eoc, 0);
    assert g == r;
    if d :| 2 <= d < |a.fat| && d != r && a.fat[d] == 0 {
      var k := WalkMeets(|a.fat|, r, d);
      var m := WalkMeets(|a.fat|, r, r);
      assert j <= k < m;
    } else {
      var m := WalkMeets(|a.fat|, r, r);
      assert j <= m;
    }
  }

  lemma LinkCounts(a: Alloc, eoc: nat, clst: nat, ncl: nat)
    requires 3 <= |a.fat| <= eoc && FreeKnown(a)
    requires 2 <= ncl < |a.fat| && a.fat[ncl] == 0 && (clst == 0 || (2 <= clst < |a.fat| && a.fat[clst] != 0))
    ensures FreeKnown(Link(a, eoc, clst, ncl))
    ensures CountFree(Link(a, eoc, clst, ncl).fat, 2) == CountFree(a.fat, 2) - 1
  {
    CountUpdate(a.fat, 2, ncl, eoc);
    if clst != 0 {
      CountUpdate(a.fat[ncl := eoc], 2, clst, ncl);
    }
    CountPositive(a.fat, 2);
  }

  /* ---- remove_chain ---- */

  function CountUsed(fat: seq<nat>): nat {
    if fat == [] then 0 else (if fat[|fat| - 1] != 0 then 1 else 0) + CountUsed(fat[..|fat| - 1])
  }

  lemma {:induction false} CountUsedDrops(fat: seq<nat>, c: nat)
    requires c < |fat| && fat[c] != 0
    ensures CountUsed(fat[c := 0]) == CountUsed(fat) - 1
  {
    var m := |fat| - 1;
    if c == m {
      assert fat[c := 0][..m] == fat[..m];
    } else {
      assert fat[c := 0][..m] == fat[..m][c := 0];
      CountUsedDrops(fat[..m], c);
    }
  }

  function Freed(n: nat, free: nat): nat {
    if free < n - 2 then free + 1 else free
  }

  /** The removal loop, on any table whatever: it ends because each turn clears a nonzero entry. */
  function Unlink(fat: seq<nat>, free: nat, clst: nat): (r: (bool, seq<nat>, nat))
    requires 2 <= clst < |fat|
    ensures |r.1| == |fat|
    decreases CountUsed(fat)
  {
    var nxt := fat[clst];
    if nxt == 0 then (true, fat, free)
    else if nxt == 1 then (false, fat, free)
    else
      CountUsedDrops(fat, clst);
      if nxt < |fat| then Unlink(fat[clst := 0], Freed(|fat|, free), nxt)
      else (true, fat[clst := 0], Freed(|fat|, free))
  }

  /** remove_chain on a fault-free device: success, and the new state. */
  function Remove(a: Alloc, eoc: nat, clst: nat, pclst: nat): (bool, Alloc)
  {
    var n := |a.fat|;
    if clst < 2 || clst >= n then (false, a)
    else if pclst != 0 && (pclst < 2 || pclst >= n) then (false, a)
    else
      var fat := if pclst != 0 then a.fat[pclst := eoc] else a.fat;
      var u := Unlink(fat, a.free, clst);
      (u.0, a.(fat := u.1, free := u.2))
  }

  /* ---- the free count after a removal, on any table ---- */

  /** The removal loop keeps a count that is unknown or right, cyclic and cross-linked tables included. */
  lemma {:induction false} UnlinkCounts(fat: seq<nat>, free: nat, clst: nat)
    requires 2 <= clst < |fat| && FreeKnown(Alloc(fat, 0, free))
    ensures FreeKnown(Alloc(Unlink(fat, free, clst).1, 0, Unlink(fat, free, clst).2))
    decreases CountUsed(fat)
  {
    var nxt := fat[clst];
    if nxt >= 2 {
      CountUsedDrops(fat, clst);
      CountUpdate(fat, 2, clst, 0);
      CountPositive(fat[clst := 0], 2);
      if nxt < |fat| {
        UnlinkCounts(fat[clst := 0], Freed(|fat|, free), nxt);
      }
    }
  }

  /** Every used cluster lies on the way from `clst` to `p`, and `p` itself is free. */
  ghost predicate Drains(fat: seq<nat>, clst: nat, p: nat)
    requires 2 <= clst < |fat|
    decreases CountUsed(fat)
  {
    if clst == p then CountFree(fat, 2) == |fat| - 2
    else if 2 <= fat[clst] < |fat| then
      CountUsedDrops(fat, clst);
      Drains(fat[clst := 0], fat[clst], p)
    else false
  }

  /** Two used clusters leave at most all but two free. */
  lemma TwoUsed(fat: seq<nat>, c: nat, d: nat)
    requires 2 <= c < |fat| && 2 <= d < |fat| && c != d && fat[c] != 0 && fat[d] != 0
    ensures CountFree(fat, 2) <= |fat| - 4
  {
    CountUpdate(fat, 2, c, 0);
    CountUpdate(fat[c := 0], 2, d, 0);
    CountPositive(fat[c := 0][d := 0], 2);
  }

  /** A count that is one too large stays so, unless the loop drains the table: then it stops at the largest value, which is right. */
  lemma {:induction false} UnlinkOff(fat: seq<nat>, free: nat, clst: nat, p: nat)
    requires 2 <= clst < |fat| && 2 <= p < |fat| && fat[p] >= |fat| && free == CountFree(fat, 2) + 1
    ensures var r := Unlink(fat, free, clst);
            r.2 == CountFree(r.1, 2) + (if Drains(fat[p := 0], clst, p) then 0 else 1)
    decreases CountUsed(fat)
  {
    var nxt := fat[clst];
    CountUpdate(fat, 2, p, 0);
    CountPositive(fat[p := 0], 2);
    if clst != p && nxt >= 2 {
      TwoUsed(fat, clst, p);
      CountUsedDrops(fat, clst);
      CountUpdate(fat, 2, clst, 0);
      if nxt < |fat| {
        UnlinkOff(fat[clst := 0], free + 1, nxt, p);
        assert fat[clst := 0][p := 0] == fat[p := 0][clst := 0];
      }
    }
  }

  /** What a caller of remove_chain must see to for the free count: the predecessor to be marked is in use. */
  ghost predicate CountSafe(a: Alloc, clst: nat, pclst: nat) {
    var n := |a.fat|;
    || !(2 <= clst < n) || pclst == 0 || !(2 <= pclst < n)
    || a.free > n - 2 || a.fat[pclst] != 0 || Drains(a.fat, clst, pclst)
  }

  /** remove_chain keeps an unknown or right count exactly if the predecessor is in use, or nothing but the way to it was. */
  lemma RemoveCounts(a: Alloc, eoc: nat, clst: nat, pclst: nat)
    requires 3 <= |a.fat| <= eoc && FreeKnown(a)
    ensures |Remove(a, eoc, clst, pclst).1.fat| == |a.fat|
    ensures FreeKnown(Remove(a, eoc, clst, pclst).1) <==> CountSafe(a, clst, pclst)
  {
    var n := |a.fat|;
    if 2 <= clst < n {
      if pclst == 0 {
        UnlinkCounts(a.fat, a.free, clst);
      } else if 2 <= pclst < n {
        var fat := a.fat[pclst := eoc];
        CountUpdate(a.fat, 2, pclst, eoc);
        if a.free > n - 2 || a.fat[pclst] != 0 {
          UnlinkCounts(fat, a.free, clst);
        } else {
          CountPositive(a.fat, 2);
          UnlinkOff(fat, a.free, clst, pclst);
          assert fat[pclst := 0] == a.fat;
          UnlinkRange(fat, a.free, clst);
        }
      }
    }
  }

  lemma {:induction false} UnlinkRange(fat: seq<nat>, free: nat, clst: nat)
    requires 2 <= clst < |fat| && free <= |fat| - 2
    ensures Unlink(fat, free, clst).2 <= |fat| - 2
    decreases CountUsed(fat)
  {
    var nxt := fat[clst];
    if 2 <= nxt < |fat| {
      CountUsedDrops(fat, clst);
      UnlinkRange(fat[clst := 0], Freed(|fat|, free), nxt);
    }
  }

  /** An end mark put into a free entry: the removal succeeds and the count is wrong. */
  lemma MarkedFreeEntry()
    ensures var a := Alloc([9, 9, 9, 0, 0], 0, 2);
            && FreeKnown(a) && Remove(a, 9, 2, 3) == (true, Alloc([9, 9, 0, 9, 0], 0, 3))
            && !FreeKnown(Remove(a, 9, 2, 3).1)
  {
    var fat := [9, 9, 9, 0, 0];
    var marked := fat[3 := 9];
    assert CountFree(fat, 5) == 0 && CountFree(fat, 4) == 1 && CountFree(fat, 3) == 2;
    var after := [9, 9, 0, 9, 0];
    assert marked[2 := 0] == after;
    assert Unlink(marked, 2, 2) == (true, after, 3);
    assert CountFree(after, 5) == 0 && CountFree(after, 4) == 1 && CountFree(after, 3) == 1;
  }
}
