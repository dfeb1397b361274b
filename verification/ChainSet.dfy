/** The used clusters as a set of disjoint end-marked chains, and what allocation does to them. */
module ChainSet {
  import opened Chains

  /** `s` follows the links from its first cluster to an end mark. */
  ghost predicate IsChain(fat: seq<nat>, s: seq<nat>) {
    && |s| > 0
    && (forall i :: 0 <= i < |s| ==> 2 <= s[i] < |fat|)
    && (forall i :: 0 <= i < |s| - 1 ==> fat[s[i]] == s[i + 1])
    && fat[s[|s| - 1]] >= |fat|
  }

  ghost predicate Apart(s: seq<nat>, t: seq<nat>) {
    forall c :: c in s ==> c !in t
  }

  ghost predicate Disjoint(cs: set<seq<nat>>) {
    forall s, t :: s in cs && t in cs && s != t ==> Apart(s, t)
  }

  ghost predicate AllChains(fat: seq<nat>, cs: set<seq<nat>>) {
    forall s :: s in cs ==> IsChain(fat, s)
  }

  ghost predicate AllOwned(fat: seq<nat>, cs: set<seq<nat>>) {
    forall c :: 2 <= c < |fat| && fat[c] != 0 ==> Owned(cs, c)
  }

  /** The used clusters of the table are exactly the members of pairwise disjoint chains. */
  ghost predicate WellFormed(fat: seq<nat>, cs: set<seq<nat>>) {
    AllChains(fat, cs) && Disjoint(cs) && AllOwned(fat, cs)
  }

  ghost predicate Owned(cs: set<seq<nat>>, c: nat) {
    exists s :: s in cs && c in s
  }

  /** Entries along a chain: the next cluster, or an end mark at the last one. */
  lemma Follow(fat: seq<nat>, s: seq<nat>, i: nat)
    requires IsChain(fat, s) && i < |s|
    ensures 2 <= s[i] < |fat| && fat[s[i]] >= 2
    ensures if i < |s| - 1 then fat[s[i]] == s[i + 1] && s[i + 1] < |fat| else fat[s[i]] >= |fat|
  {
    assert i < |s| - 1 ==> s[i + 1] >= 2;
  }

  /** A chain never returns to a cluster. */
  lemma {:induction false} ChainDistinct(fat: seq<nat>, s: seq<nat>, i: nat, j: nat)
    requires IsChain(fat, s) && i < j < |s|
    ensures s[i] != s[j]
    decreases |s| - j
  {
    Follow(fat, s, i);
    Follow(fat, s, j);
    if j < |s| - 1 {
      ChainDistinct(fat, s, i + 1, j + 1);
    }
  }

  /** The table and the first cluster determine the chain. */
  lemma {:induction false} ChainUnique(fat: seq<nat>, s: seq<nat>, t: seq<nat>)
    requires IsChain(fat, s) && IsChain(fat, t) && s[0] == t[0]
    ensures s == t
    decreases |s|
  {
    Follow(fat, s, 0);
    Follow(fat, t, 0);
    if |s| > 1 {
      SuffixIsChain(fat, s, 1);
      SuffixIsChain(fat, t, 1);
      ChainUnique(fat, s[1..], t[1..]);
      assert s == [s[0]] + s[1..] && t == [t[0]] + t[1..];
    }
  }

  lemma SuffixIsChain(fat: seq<nat>, s: seq<nat>, k: nat)
    requires IsChain(fat, s) && k < |s|
    ensures IsChain(fat, s[k..])
  {
  }

  /** A chain is not affected by entries outside it. */
  lemma ChainFrame(fat: seq<nat>, fat': seq<nat>, s: seq<nat>)
    requires IsChain(fat, s) && |fat'| == |fat|
    requires forall c :: c in s && c < |fat| ==> fat'[c] == fat[c]
    ensures IsChain(fat', s)
  {
    forall i | 0 <= i < |s| ensures fat'[s[i]] == fat[s[i]] {
      assert s[i] in s;
    }
  }

  /** Members of chains are in range and not free. */
  lemma MemberUsed(fat: seq<nat>, s: seq<nat>, c: nat)
    requires IsChain(fat, s) && c in s
    ensures 2 <= c < |fat| && fat[c] >= 2 && (fat[c] >= |fat| ==> s[|s| - 1] == c)
  {
    var i :| 0 <= i < |s| && s[i] == c;
    Follow(fat, s, i);
  }

  /** `cs` with the chain `s` (if any) replaced by `t` (if any). */
  function Replaced(cs: set<seq<nat>>, s: seq<nat>, t: seq<nat>): set<seq<nat>> {
    if t == [] then cs - {s} else cs - {s} + {t}
  }

  /** Chain `s` turns into chain `t`: what `t` gains was free, what it loses becomes free, the rest stays. */
  ghost predicate TurnsInto(fat: seq<nat>, fat': seq<nat>, s: seq<nat>, t: seq<nat>) {
    && |fat'| == |fat|
    && (t == [] || IsChain(fat', t))
    && (forall c :: 0 <= c < |fat| && c in t ==> c in s || fat[c] == 0)
    && (forall c :: 0 <= c < |fat| && c !in t ==> fat'[c] == if c in s then 0 else fat[c])
  }

  lemma ReplaceKeeps(fat: seq<nat>, fat': seq<nat>, cs: set<seq<nat>>, s: seq<nat>, t: seq<nat>)
    requires WellFormed(fat, cs) && (s == [] || s in cs) && TurnsInto(fat, fat', s, t)
    ensures WellFormed(fat', Replaced(cs, s, t))
  {
    hide IsChain, Apart, Owned;
    var cs' := Replaced(cs, s, t);
    forall u | u in cs && u != s ensures IsChain(fat', u) && Apart(u, t) && Apart(t, u) {
      assert s != [] ==> Apart(u, s);
      OthersKept(fat, fat', s, t, u);
    }
    forall c | 2 <= c < |fat'| && fat'[c] != 0 ensures Owned(cs', c) {
      StillOwned(fat, fat', cs, s, t, c);
    }
  }

  lemma OthersKept(fat: seq<nat>, fat': seq<nat>, s: seq<nat>, t: seq<nat>, u: seq<nat>)
    requires TurnsInto(fat, fat', s, t) && IsChain(fat, u) && (s == [] || Apart(u, s))
    ensures IsChain(fat', u) && Apart(u, t) && Apart(t, u)
  {
    hide IsChain;
    forall c | c in u ensures c !in s && c !in t {
      MemberUsed(fat, u, c);
    }
    ChainFrame(fat, fat', u);
  }

  lemma StillOwned(fat: seq<nat>, fat': seq<nat>, cs: set<seq<nat>>, s: seq<nat>, t: seq<nat>, c: nat)
    requires AllOwned(fat, cs) && TurnsInto(fat, fat', s, t) && 2 <= c < |fat'| && fat'[c] != 0
    ensures Owned(Replaced(cs, s, t), c)
  {
    hide IsChain;
    if c in t {
      assert t in Replaced(cs, s, t);
    } else {
      var u := OwnerOf(cs, c);
      assert u in Replaced(cs, s, t);
    }
  }

  /** The chain that owns a cluster. */
  ghost function OwnerOf(cs: set<seq<nat>>, c: nat): (s: seq<nat>)
    requires Owned(cs, c)
    ensures s in cs && c in s
  {
    var s :| s in cs && c in s;
    s
  }

  /** Linking a free cluster after the last one lengthens the chain by it; alone it is a new chain. */
  lemma Stretched(a: Alloc, eoc: nat, s: seq<nat>, ncl: nat)
    requires |a.fat| <= eoc && (s == [] || IsChain(a.fat, s)) && 2 <= ncl < |a.fat| && a.fat[ncl] == 0
    ensures var clst := if s == [] then 0 else s[|s| - 1];
            clst < |a.fat| && TurnsInto(a.fat, Link(a, eoc, clst, ncl).fat, s, s + [ncl])
  {
    if s != [] {
      forall c | c in s ensures c != ncl {
        MemberUsed(a.fat, s, c);
      }
      forall i | 0 <= i < |s| - 1 ensures s[i] != s[|s| - 1] {
        ChainDistinct(a.fat, s, i, |s| - 1);
      }
    }
  }

  /** The chain that create_chain extends: none, or the owner of the cluster to stretch. */
  ghost function Extended(cs: set<seq<nat>>, clst: nat): seq<nat> {
    if clst != 0 && Owned(cs, clst) then OwnerOf(cs, clst) else []
  }

  /** The chains after create_chain: unchanged, one new singleton, or one chain with a new tail. */
  ghost function GrownChains(a: Alloc, eoc: nat, cs: set<seq<nat>>, clst: nat): set<seq<nat>>
    requires 3 <= |a.fat|
  {
    var (b, r) := Create(a, eoc, clst);
    if b == a then cs else Replaced(cs, Extended(cs, clst), Extended(cs, clst) + [r])
  }

  /** What an allocation that changes anything does. */
  lemma CreateLinks(a: Alloc, eoc: nat, clst: nat)
    requires 3 <= |a.fat|
    ensures var (b, r) := Create(a, eoc, clst);
            b != a ==>
              && 2 <= r < |a.fat| && a.fat[r] == 0
              && (clst == 0 || (2 <= clst < |a.fat| && a.fat[clst] >= |a.fat|))
              && b == Link(a, eoc, clst, r)
  {
    SearchFinds(a.fat, NewHint(a), NewHint(a));
    if 2 <= clst < |a.fat| {
      var scl := if 2 <= a.last < |a.fat| then a.last else clst;
      SearchFinds(a.fat, scl, scl);
    }
  }

  /** create_chain keeps the chains well formed, for every argument and every hint. */
  lemma CreateKeeps(a: Alloc, eoc: nat, cs: set<seq<nat>>, clst: nat)
    requires 3 <= |a.fat| <= eoc && WellFormed(a.fat, cs)
    ensures WellFormed(Create(a, eoc, clst).0.fat, GrownChains(a, eoc, cs, clst))
  {
    hide Create, WellFormed, TurnsInto, Link, Replaced;
    var (b, r) := Create(a, eoc, clst);
    if b != a {
      CreateLinks(a, eoc, clst);
      var s := Extended(cs, clst);
      ExtendedIsChain(a.fat, cs, clst);
      Stretched(a, eoc, s, r);
      ReplaceKeeps(a.fat, b.fat, cs, s, s + [r]);
    }
  }

  lemma ExtendedIsChain(fat: seq<nat>, cs: set<seq<nat>>, clst: nat)
    requires WellFormed(fat, cs) && (clst == 0 || (2 <= clst < |fat| && fat[clst] >= |fat|))
    ensures var s := Extended(cs, clst);
            if clst == 0 then s == [] else s in cs && IsChain(fat, s) && s[|s| - 1] == clst
  {
    hide IsChain, Disjoint;
    if clst != 0 {
      assert Owned(cs, clst);
      MemberUsed(fat, OwnerOf(cs, clst), clst);
    }
  }

  /* ---- remove_chain ---- */

  function Zeroed(fat: seq<nat>, t: seq<nat>): (r: seq<nat>)
    ensures |r| == |fat|
  {
    seq(|fat|, c requires 0 <= c < |fat| => if c in t then 0 else fat[c])
  }

  /** Clearing the first cluster leaves the rest a chain. */
  lemma RestKept(fat: seq<nat>, t: seq<nat>)
    requires IsChain(fat, t) && |t| > 1
    ensures t[0] < |fat| && IsChain(fat[t[0] := 0], t[1..])
    ensures Zeroed(fat[t[0] := 0], t[1..]) == Zeroed(fat, t)
  {
    var fat1, u := fat[t[0] := 0], t[1..];
    SuffixIsChain(fat, t, 1);
    forall c | c in u ensures c != t[0] {
      var i :| 0 <= i < |u| && u[i] == c;
      ChainDistinct(fat, t, 0, i + 1);
    }
    ChainFrame(fat, fat1, u);
    assert t == [t[0]] + u;
    assert Zeroed(fat1, u) == Zeroed(fat, t);
  }

  /** On a chain the removal loop frees exactly its clusters and counts them. */
  lemma {:induction false} UnlinkChain(fat: seq<nat>, free: nat, t: seq<nat>)
    requires IsChain(fat, t)
    ensures 2 <= t[0] < |fat|
    ensures var (ok, fat', free') := Unlink(fat, free, t[0]);
            && ok && fat' == Zeroed(fat, t)
            && CountFree(fat', 2) == CountFree(fat, 2) + |t|
            && (FreeKnown(Alloc(fat, 0, free)) ==> FreeKnown(Alloc(fat', 0, free')))
    decreases |t|
  {
    Follow(fat, t, 0);
    CountUpdate(fat, 2, t[0], 0);
    CountPositive(fat, 2);
    if |t| == 1 {
      assert fat[t[0] := 0] == Zeroed(fat, t);
    } else {
      RestKept(fat, t);
      UnlinkChain(fat[t[0] := 0], Freed(|fat|, free), t[1..]);
    }
  }

  /** The clusters passed to remove_chain when chain `s` is to be cut before position `k`. */
  function CutPred(s: seq<nat>, k: nat): nat
    requires k < |s|
  {
    if k == 0 then 0 else s[k - 1]
  }

  /** A cluster of a chain is in exactly one of its two parts. */
  lemma PartsApart(fat: seq<nat>, s: seq<nat>, k: nat, c: nat)
    requires IsChain(fat, s) && k < |s|
    ensures c in s <==> c in s[..k] || c in s[k..]
    ensures !(c in s[..k] && c in s[k..])
  {
    assert s == s[..k] + s[k..];
    if c in s[..k] && c in s[k..] {
      var i :| 0 <= i < k && s[..k][i] == c;
      var j :| 0 <= j < |s| - k && s[k..][j] == c;
      ChainDistinct(fat, s, i, k + j);
    }
  }

  /** Marking the predecessor leaves the part to be removed a chain. */
  lemma TailKept(fat: seq<nat>, eoc: nat, s: seq<nat>, k: nat)
    requires IsChain(fat, s) && 0 < k < |s|
    ensures IsChain(fat[s[k - 1] := eoc], s[k..])
  {
    hide IsChain;
    assert s[k - 1] in s[..k] && 2 <= s[k - 1] < |fat| by {
      assert s[..k][k - 1] == s[k - 1];
      Follow(fat, s, k - 1);
    }
    forall c | c in s[k..] ensures c != s[k - 1] {
      PartsApart(fat, s, k, c);
    }
    SuffixIsChain(fat, s, k);
    ChainFrame(fat, fat[s[k - 1] := eoc], s[k..]);
  }

  /** The marked first part is a chain of its own once the rest is cleared. */
  lemma HeadMarked(fat: seq<nat>, eoc: nat, s: seq<nat>, k: nat)
    requires |fat| <= eoc && IsChain(fat, s) && 0 < k < |s|
    ensures IsChain(Zeroed(fat[s[k - 1] := eoc], s[k..]), s[..k])
  {
    var fat' := Zeroed(fat[s[k - 1] := eoc], s[k..]);
    forall i | 0 <= i < k ensures fat'[s[i]] == if i == k - 1 then eoc else fat[s[i]] {
      assert s[..k][i] == s[i];
      PartsApart(fat, s, k, s[i]);
      if i < k - 1 {
        ChainDistinct(fat, s, i, k - 1);
      }
    }
  }

  lemma CutTurns(fat: seq<nat>, eoc: nat, s: seq<nat>, k: nat)
    requires 3 <= |fat| <= eoc && IsChain(fat, s) && k < |s|
    ensures var fat1 := if k == 0 then fat else fat[s[k - 1] := eoc];
            TurnsInto(fat, Zeroed(fat1, s[k..]), s, s[..k])
  {
    hide IsChain;
    if k > 0 {
      Follow(fat, s, k - 1);
    }
    var fat1 := if k == 0 then fat else fat[s[k - 1] := eoc];
    var fat' := Zeroed(fat1, s[k..]);
    if k > 0 {
      HeadMarked(fat, eoc, s, k);
      assert s[..k][k - 1] == s[k - 1];
    }
    forall c | 0 <= c < |fat|
      ensures c in s[..k] ==> c in s
      ensures c !in s[..k] ==> fat'[c] == if c in s then 0 else fat[c]
    {
      PartsApart(fat, s, k, c);
    }
  }

  /** Cutting chain `s` before position `k` leaves the first `k` clusters, end-marked, and frees the others. */
  lemma RemoveCuts(a: Alloc, eoc: nat, s: seq<nat>, k: nat)
    requires 3 <= |a.fat| <= eoc && IsChain(a.fat, s) && k < |s|
    ensures var (ok, b) := Remove(a, eoc, s[k], CutPred(s, k));
            && ok && b.last == a.last
            && TurnsInto(a.fat, b.fat, s, s[..k])
            && CountFree(b.fat, 2) == CountFree(a.fat, 2) + |s| - k
            && (FreeKnown(a) ==> FreeKnown(b))
  {
    hide IsChain, TurnsInto, Zeroed;
    Follow(a.fat, s, k);
    CutTurns(a.fat, eoc, s, k);
    if k > 0 {
      Follow(a.fat, s, k - 1);
      TailKept(a.fat, eoc, s, k);
      CountUpdate(a.fat, 2, s[k - 1], eoc);
      UnlinkChain(a.fat[s[k - 1] := eoc], a.free, s[k..]);
    } else {
      SuffixIsChain(a.fat, s, k);
      UnlinkChain(a.fat, a.free, s[k..]);
    }
  }

  /* ---- every run ---- */

  datatype Op = CreateOp(clst: nat) | RemoveOp(clst: nat, pclst: nat)

  /** The caller's duty for remove_chain: the cluster and its predecessor in one chain. */
  ghost predicate CutsChain(s: seq<nat>, k: nat, clst: nat, pclst: nat) {
    k < |s| && s[k] == clst && CutPred(s, k) == pclst
  }

  ghost predicate Legal(cs: set<seq<nat>>, op: Op) {
    op.RemoveOp? ==> exists s, k :: s in cs && CutsChain(s, k, op.clst, op.pclst)
  }

  function Step(a: Alloc, eoc: nat, op: Op): Alloc
    requires 3 <= |a.fat|
  {
    match op
    case CreateOp(clst) => Create(a, eoc, clst).0
    case RemoveOp(clst, pclst) => Remove(a, eoc, clst, pclst).1
  }

  ghost function StepChains(a: Alloc, eoc: nat, cs: set<seq<nat>>, op: Op): set<seq<nat>>
    requires 3 <= |a.fat| && Legal(cs, op)
  {
    match op
    case CreateOp(clst) => GrownChains(a, eoc, cs, clst)
    case RemoveOp(clst, pclst) =>
      var s, k :| s in cs && CutsChain(s, k, clst, pclst);
      Replaced(cs, s, s[..k])
  }

  ghost predicate Sound(a: Alloc, eoc: nat, cs: set<seq<nat>>) {
    3 <= |a.fat| <= eoc && WellFormed(a.fat, cs) && FreeKnown(a)
  }

  lemma StepKeeps(a: Alloc, eoc: nat, cs: set<seq<nat>>, op: Op)
    requires Sound(a, eoc, cs) && Legal(cs, op)
    ensures |Step(a, eoc, op).fat| == |a.fat| && Sound(Step(a, eoc, op), eoc, StepChains(a, eoc, cs, op))
  {
    hide Create, Remove, GrownChains, Disjoint, AllOwned, FreeKnown, IsChain, TurnsInto;
    match op
    case CreateOp(clst) =>
      CreateKeeps(a, eoc, cs, clst);
      CreateCounts(a, eoc, clst);
    case RemoveOp(clst, pclst) =>
      var s, k :| s in cs && CutsChain(s, k, clst, pclst) && StepChains(a, eoc, cs, op) == Replaced(cs, s, s[..k]);
      RemoveCuts(a, eoc, s, k);
      TurnsIntoSize(a.fat, Step(a, eoc, op).fat, s, s[..k]);
      ReplaceKeeps(a.fat, Step(a, eoc, op).fat, cs, s, s[..k]);
  }

  lemma TurnsIntoSize(fat: seq<nat>, fat': seq<nat>, s: seq<nat>, t: seq<nat>)
    requires TurnsInto(fat, fat', s, t)
    ensures |fat'| == |fat|
  {
  }

  /** A legal run from a sound state: every operation is legal when its turn comes. */
  ghost predicate LegalRun(a: Alloc, eoc: nat, cs: set<seq<nat>>, ops: seq<Op>)
    requires 3 <= |a.fat|
    decreases |ops|
  {
    ops == [] ||
    (Legal(cs, ops[0]) && 3 <= |Step(a, eoc, ops[0]).fat|
     && LegalRun(Step(a, eoc, ops[0]), eoc, StepChains(a, eoc, cs, ops[0]), ops[1..]))
  }

  ghost function Run(a: Alloc, eoc: nat, cs: set<seq<nat>>, ops: seq<Op>): (r: (Alloc, set<seq<nat>>))
    requires 3 <= |a.fat| && LegalRun(a, eoc, cs, ops)
    decreases |ops|
  {
    if ops == [] then (a, cs)
    else Run(Step(a, eoc, ops[0]), eoc, StepChains(a, eoc, cs, ops[0]), ops[1..])
  }

  /** Every run of create_chain and remove_chain keeps the chains well formed and the free count right. */
  lemma {:induction false} RunKeeps(a: Alloc, eoc: nat, cs: set<seq<nat>>, ops: seq<Op>)
    requires Sound(a, eoc, cs) && LegalRun(a, eoc, cs, ops)
    ensures var (b, ds) := Run(a, eoc, cs, ops); |b.fat| == |a.fat| && Sound(b, eoc, ds)
    decreases |ops|
  {
    hide Sound;
    if ops != [] {
      StepKeeps(a, eoc, cs, ops[0]);
      RunKeeps(Step(a, eoc, ops[0]), eoc, StepChains(a, eoc, cs, ops[0]), ops[1..]);
    }
  }
}
