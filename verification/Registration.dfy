/** Registering a name in a directory table, and what finding and reading then see. */
module Registration {
  import opened Bytes
  import opened Entries
  import opened LongNames
  import opened Directories

  /** An entry that dir_clear leaves. */
  function ClearEntry(): (e: Ent)
    ensures forall k :: 0 <= k < 32 ==> e[k] == 0
  {
    seq(SZDIRE, _ => 0)
  }

  /** A short name that can stand in an entry: not an end mark, a deletion mark or a dot. */
  predicate Proper(sfn: Sfn) {
    sfn[0] != 0 && sfn[0] != DDEM && sfn[0] != 0x2E
  }

  /** The cleared entry with the short name and the case flags. */
  function SfnEntry(sfn: Sfn, nt: byte): (e: Ent)
    ensures SfnOf(e) == sfn && e[11] == 0 && e[12] == nt && forall k :: 13 <= k < 32 ==> e[k] == 0
  {
    sfn + [0, nt] + seq(19, _ => 0)
  }

  lemma SfnEntryKind(sfn: Sfn, nt: byte)
    requires Proper(sfn)
    ensures IsSfn(SfnEntry(sfn, nt)) && Listed(SfnEntry(sfn, nt))
  {
    assert SfnEntry(sfn, nt)[0] == SfnOf(SfnEntry(sfn, nt))[0];
  }

  /** Behind an end mark there are only end marks. */
  ghost predicate Ended(t: seq<Ent>) {
    forall i, k :: 0 <= i < k < |t| && t[i][0] == 0 ==> t[k][0] == 0
  }

  /** The entries that a scan reaches have different short names. */
  ghost predicate Distinct(t: seq<Ent>) {
    forall i: nat, k: nat :: i < k && Live(t, k) && IsSfn(t[i]) && IsSfn(t[k]) ==> SfnOf(t[i]) != SfnOf(t[k])
  }

  /** The table, stretched by cleared entries. */
  ghost predicate Grown(t: seq<Ent>, u: seq<Ent>) {
    |t| <= |u| && u[..|t|] == t && forall i :: |t| <= i < |u| ==> u[i] == ClearEntry()
  }

  /** `n` free entries in a row start at `lo`. */
  ghost predicate AllFree(t: seq<Ent>, lo: nat, n: nat) {
    lo + n <= |t| && forall i :: lo <= i < lo + n ==> Unused(t[i])
  }

  /** No `n` free entries in a row start below `hi`. */
  ghost predicate NoRoomBelow(t: seq<Ent>, n: nat, hi: nat) {
    forall s: nat :: s < hi ==> !AllFree(t, s, n)
  }

  /** Nowhere within the limit are there `n` free entries in a row. */
  ghost predicate NoRoom(t: seq<Ent>, n: nat) {
    forall s: nat :: s + n <= MAX_ENTRIES ==> !AllFree(t, s, n)
  }

  /** All numbered short names are in use. */
  ghost predicate AllTaken(t: seq<Ent>, name: Name, numbered: nat -> Sfn) {
    forall n :: 1 <= n < 100 ==> !NoMatch(t, name.(sfn := numbered(n), loss := false), Never)
  }

  /** The first of the numbered names that is not in use. */
  ghost predicate FirstNumber(t: seq<Ent>, name: Name, numbered: nat -> Sfn, n: nat) {
    && 1 <= n <= 99 && NoMatch(t, name.(sfn := numbered(n), loss := false), Never)
    && forall i :: 1 <= i < n ==> !NoMatch(t, name.(sfn := numbered(i), loss := false), Never)
  }

  /** Either one of the 99 numbered names is the first that is free, or all are taken. */
  lemma NumberOrTaken(t: seq<Ent>, name: Name, numbered: nat -> Sfn)
    ensures AllTaken(t, name, numbered) <==> forall n :: !FirstNumber(t, name, numbered, n)
  {
    if !AllTaken(t, name, numbered) {
      var n: nat :| 1 <= n < 100 && NoMatch(t, name.(sfn := numbered(n), loss := false), Never);
      FirstUpTo(t, name, numbered, n);
    }
  }

  lemma {:induction false} FirstUpTo(t: seq<Ent>, name: Name, numbered: nat -> Sfn, n: nat)
    requires 1 <= n <= 99 && NoMatch(t, name.(sfn := numbered(n), loss := false), Never)
    ensures exists k :: FirstNumber(t, name, numbered, k)
  {
    if i: nat :| 1 <= i < n && NoMatch(t, name.(sfn := numbered(i), loss := false), Never) {
      FirstUpTo(t, name, numbered, i);
    } else {
      assert FirstNumber(t, name, numbered, n);
    }
  }

  /** The name stands in the table at `start`: its parts, last part first, then the short name. */
  ghost predicate Written(t: seq<Ent>, u: seq<Ent>, start: nat, n: nat, long: seq<word>, sfn: Sfn, nt: byte) {
    && 1 <= n <= 21 && start + n <= |t| && |u| == |t|
    && (forall k :: 0 <= k < |t| && !(start <= k < start + n) ==> u[k] == t[k])
    && (n > 1 ==> Stored(u, start, start + n - 1, long, SumOf(sfn)))
    && u[start + n - 1] == SfnEntry(sfn, nt)
  }

  /** What the whole of a successful registration comes to. */
  lemma Created(t: seq<Ent>, grown: seq<Ent>, u: seq<Ent>, name: Name, up: word -> word, buf: NameBuf, long: seq<word>,
                start: nat, n: nat, sfn: Sfn)
    requires WellFormed(grown) && Grown(t, grown) && NoMatch(t, name, Same(up, buf)) && HoldsName(buf, long) && Proper(sfn)
    requires (name.loss ==> name.lfn) && (name.lfn ==> Storable(long)) && (!name.loss ==> sfn == name.sfn)
    requires name.loss ==> NoMatch(t, name.(sfn := sfn, loss := false), Never)
    requires n == (if name.lfn then EntryCount(|long|) + 1 else 1) && start + n <= MAX_ENTRIES
    requires Written(grown, u, start, n, long, sfn, name.nt) && AllFree(grown, start, n) && NoRoomBelow(grown, n, start)
    ensures start + n <= |u| && n >= 1 && WellFormed(u) && FirstMatch(u, name, Same(up, buf), start + n - 1)
    ensures Listed(u[start + n - 1])
    ensures name.lfn ==> Stored(u, start, start + n - 1, long, SumOf(SfnOf(u[start + n - 1])))
    ensures |t| <= |u| && forall i :: 0 <= i < |t| && !Unused(t[i]) ==> u[i] == t[i]
  {
    hide NoMatch, FirstMatch, HoldsName, Storable, AllFree, NoRoomBelow, EntryCount, Proper, WellFormed, Listed, Stored, SumOf,
         Unused, Grown, SfnEntry;
    TakesEntries(name, long);
    GrownNoMatch(t, grown, name, Same(up, buf));
    if name.loss {
      GrownNoMatch(t, grown, name.(sfn := sfn, loss := false), Never);
      NotFoundIsFree(grown, name.(sfn := sfn, loss := false), Never);
    } else {
      NotFoundIsFree(grown, name, Same(up, buf));
    }
    CreatedKeeps(grown, u, start, n, long, sfn, name.nt);
    FoundIfReached(grown, u, name, up, buf, start, n, long, sfn, name.nt);
    BlockUsed(grown, u, start, n, long, sfn, name.nt, start + n - 1);
    UsedKept(t, grown, u, start, n, long, sfn, name.nt);
  }

  lemma TakesEntries(name: Name, long: seq<word>)
    requires name.lfn ==> Storable(long)
    ensures name.lfn ==> EntryCount(|long|) >= 1
  {
    if name.lfn {
      CountCovers(|long|);
    }
  }

  ghost predicate WellFormed(t: seq<Ent>) {
    Ended(t) && Distinct(t)
  }

  lemma StretchedKeeps(t: seq<Ent>, u: seq<Ent>)
    requires WellFormed(t) && Grown(t, u)
    ensures WellFormed(u)
  {
    hide Ended, Distinct;
    GrownEnded(t, u);
    GrownDistinct(t, u);
  }

  lemma CreatedKeeps(t: seq<Ent>, u: seq<Ent>, start: nat, n: nat, long: seq<word>, sfn: Sfn, nt: byte)
    requires WellFormed(t) && SfnFree(t, sfn) && Proper(sfn)
    requires AllFree(t, start, n) && NoRoomBelow(t, n, start) && Written(t, u, start, n, long, sfn, nt)
    ensures WellFormed(u) && Reached(t, start)
  {
    hide Ended, Distinct, SfnFree, Proper, Stored, SfnEntry;
    FirstBlockReached(t, start, n);
    EndedKept(t, u, start, n, long, sfn, nt);
    DistinctKept(t, u, start, n, long, sfn, nt);
  }

  /** Entries that were in use are not touched. */
  lemma UsedKept(t: seq<Ent>, grown: seq<Ent>, u: seq<Ent>, start: nat, n: nat, long: seq<word>, sfn: Sfn, nt: byte)
    requires Grown(t, grown) && AllFree(grown, start, n) && Written(grown, u, start, n, long, sfn, nt)
    ensures |t| <= |u| && forall i :: 0 <= i < |t| && !Unused(t[i]) ==> u[i] == t[i]
  {
    hide Unused, Stored, SfnEntry;
    forall i | 0 <= i < |t| && !Unused(t[i]) ensures u[i] == t[i] {
      assert grown[i] == grown[..|t|][i];
    }
  }

  /** The loop of dir_register that measures the long name. */
  method Length(buf: NameBuf, ghost long: seq<word>) returns (len: nat)
    requires HoldsName(buf, long)
    ensures len == |long|
  {
    len := 0;
    CharIn(buf, long, 0);
    while buf[len] != 0
      invariant len <= |long|
      invariant buf[len] == if len < |long| then long[len] else 0
      decreases |long| - len
    {
      CharIn(buf, long, len + 1);
      len := len + 1;
    }
  }

  /* ---- helpers of dir_alloc and dir_register ---- */

  lemma Blocked(t: seq<Ent>, n: nat, lo: nat, i: nat)
    requires lo <= i < |t| && i - lo < n && NoRoomBelow(t, n, lo) && !Unused(t[i])
    ensures NoRoomBelow(t, n, i + 1)
  {
    hide Unused;
  }

  lemma NoRoomAtEnd(t: seq<Ent>, n: nat, lo: nat, hi: nat)
    requires lo <= hi <= |t| && hi - lo < n && NoRoomBelow(t, n, lo) && (hi >= MAX_ENTRIES || hi == |t|)
    ensures NoRoom(t, n)
  {
    hide Unused;
  }

  lemma RoomKept(t: seq<Ent>, u: seq<Ent>, n: nat, lo: nat)
    requires Grown(t, u) && NoRoomBelow(t, n, lo) && (lo > 0 ==> lo <= |t| && !Unused(t[lo - 1]))
    ensures NoRoomBelow(u, n, lo)
  {
    hide Unused;
    forall s: nat | s < lo ensures !AllFree(u, s, n) {
      if s + n <= |t| {
        assert !AllFree(t, s, n);
        var i :| s <= i < s + n && !Unused(t[i]);
        assert u[i] == u[..|t|][i];
      } else {
        assert u[lo - 1] == u[..|t|][lo - 1];
      }
    }
  }

  lemma GrownSame(t: seq<Ent>)
    ensures Grown(t, t)
  {
  }

  lemma GrownMore(t: seq<Ent>, u: seq<Ent>, v: seq<Ent>)
    requires Grown(t, u) && Grown(u, v)
    ensures Grown(t, v)
  {
    assert v[..|t|] == v[..|u|][..|t|];
    forall i | |t| <= i < |v| ensures v[i] == ClearEntry() {
      assert i < |u| ==> v[i] == v[..|u|][i];
    }
  }

  lemma FirstIsMatch(t: seq<Ent>, name: Name, m: Test, k: nat)
    requires FirstMatch(t, name, m, k)
    ensures !NoMatch(t, name, m)
  {
    hide Live, Matches;
  }

  lemma BlockWritten(t: seq<Ent>, parts: seq<Ent>, u: seq<Ent>, start: nat, n: nat, long: seq<word>, sfn: Sfn, nt: byte)
    requires 1 <= n && start + n <= |t| == |parts| && u == parts[start + n - 1 := SfnEntry(sfn, nt)]
    requires forall k :: 0 <= k < |t| && !(start <= k < start + n - 1) ==> parts[k] == t[k]
    requires n > 1 ==> Stored(parts, start, start + n - 1, long, SumOf(sfn))
    ensures Written(t, u, start, n, long, sfn, nt)
  {
    hide HoldsPart, SfnEntry, SumOf, Storable, EntryCount;
  }

  /* ---- what a registered name means for the table ---- */

  /** A scan looks only at the entries up to the one it reports. */
  lemma SameUpTo(t: seq<Ent>, u: seq<Ent>, name: Name, m: Test, k: nat)
    requires k < |t| && k < |u| && forall i :: 0 <= i <= k ==> t[i] == u[i]
    ensures Matches(t, name, m, k) <==> Matches(u, name, m, k)
  {
    hide Good, IsLfn, IsLast, Order, SumOf;
    LongUpTo(t, u, m, k);
    LongUpTo(u, t, m, k);
  }

  lemma LongUpTo(t: seq<Ent>, u: seq<Ent>, m: Test, k: nat)
    requires k < |t| && k < |u| && forall i :: 0 <= i <= k ==> t[i] == u[i]
    ensures HasLong(t, m, 0, k) ==> HasLong(u, m, 0, k)
  {
    hide Good, IsLfn, IsLast, Order, SumOf;
    if HasLong(t, m, 0, k) {
      var b: nat :| LongAt(t, m, b, k);
      forall i | b <= i < k ensures InRun(u, m, b, i) {
        assert InRun(t, m, b, i);
      }
      assert LongAt(u, m, b, k);
    }
  }

  /** No end mark stands before the block. */
  ghost predicate Reached(t: seq<Ent>, start: nat) {
    start <= |t| && forall i :: 0 <= i < start ==> t[i][0] != 0
  }

  /** In a table whose end marks are at the end, the first free block leaves none before it. */
  lemma FirstBlockReached(t: seq<Ent>, start: nat, n: nat)
    requires Ended(t) && start + n <= |t| && AllFree(t, start, n) && NoRoomBelow(t, n, start)
    ensures Reached(t, start)
  {
    forall i: nat | i < start ensures t[i][0] != 0 {
      assert !AllFree(t, i, n);
    }
  }

  lemma GrownEnded(t: seq<Ent>, u: seq<Ent>)
    requires Ended(t) && Grown(t, u)
    ensures Ended(u)
  {
    forall i, k | 0 <= i < k < |u| && u[i][0] == 0 ensures u[k][0] == 0 {
      if k < |t| {
        assert u[i] == u[..|t|][i] && u[k] == u[..|t|][k];
      }
    }
  }

  /** Registering keeps the end marks at the end. */
  lemma EndedKept(t: seq<Ent>, u: seq<Ent>, start: nat, n: nat, long: seq<word>, sfn: Sfn, nt: byte)
    requires Ended(t) && AllFree(t, start, n) && NoRoomBelow(t, n, start) && Written(t, u, start, n, long, sfn, nt)
    requires Proper(sfn)
    ensures Ended(u)
  {
    hide SumOf, Stored, Proper, SfnEntry;
    FirstBlockReached(t, start, n);
    forall i, k | 0 <= i < k < |u| && u[i][0] == 0 ensures u[k][0] == 0 {
      BlockUsed(t, u, start, n, long, sfn, nt, i);
    }
  }

  /** Every entry of the block is in use. */
  lemma BlockUsed(t: seq<Ent>, u: seq<Ent>, start: nat, n: nat, long: seq<word>, sfn: Sfn, nt: byte, i: nat)
    requires Written(t, u, start, n, long, sfn, nt) && Proper(sfn)
    ensures start <= i < start + n - 1 ==> IsLfn(u[i])
    ensures i == start + n - 1 ==> IsSfn(u[i]) && SfnOf(u[i]) == sfn && Listed(u[i])
    ensures start <= i < start + n ==> u[i][0] != 0
  {
    hide SumOf, Storable, EntryCount, HoldsPart, Proper, SfnEntry, Attr;
    SfnEntryKind(sfn, nt);
    if start <= i < start + n - 1 {
      assert HoldsPart(u[i], long, start + n - 1 - i, SumOf(sfn));
      PartIsLfn(u[i], long, start + n - 1 - i, SumOf(sfn));
    }
  }

  /** Before the call: some room for `n` entries, counting those that stretching adds, has no end mark before it. */
  ghost predicate MarksBehind(t: seq<Ent>, n: nat) {
    exists s: nat :: s <= |t| && Reached(t, s) && RoomAt(t, s, n)
  }

  ghost predicate RoomAt(t: seq<Ent>, s: nat, n: nat) {
    forall i :: s <= i < s + n && i < |t| ==> Unused(t[i])
  }

  /** The first free block of the stretched table is reached exactly if the table before had its end marks behind some room. */
  lemma ReachedIff(t: seq<Ent>, grown: seq<Ent>, start: nat, n: nat)
    requires Grown(t, grown) && n > 0 && AllFree(grown, start, n) && NoRoomBelow(grown, n, start)
    ensures Reached(grown, start) <==> MarksBehind(t, n)
  {
    forall i | 0 <= i < |t| ensures grown[i] == t[i] {
      assert grown[i] == grown[..|t|][i];
    }
    assert |t| < |grown| ==> grown[|t|][0] == 0;
    if Reached(grown, start) {
      assert Reached(t, start) && RoomAt(t, start, n);
    }
    if MarksBehind(t, n) {
      var s: nat :| s <= |t| && Reached(t, s) && RoomAt(t, s, n);
      assert s < start && s + n <= |grown| ==> AllFree(grown, s, n);
    }
  }

  /**
    * A name that was not found before is found after it was registered, at the entry of its short name,
    * exactly if the table had room for it with no end mark before.
    */
  lemma RegisteredIsFound(t: seq<Ent>, grown: seq<Ent>, u: seq<Ent>, name: Name, up: word -> word, buf: NameBuf,
                          start: nat, n: nat, long: seq<word>, sfn: Sfn, nt: byte)
    requires NoMatch(t, name, Same(up, buf)) && Grown(t, grown) && Written(grown, u, start, n, long, sfn, nt)
    requires AllFree(grown, start, n) && NoRoomBelow(grown, n, start) && Proper(sfn) && start + n <= MAX_ENTRIES
    requires HoldsName(buf, long) && (name.loss ==> name.lfn) && (name.lfn <==> n > 1) && (!name.loss ==> sfn == name.sfn)
    ensures FirstMatch(u, name, Same(up, buf), start + n - 1) <==> MarksBehind(t, n)
  {
    hide NoMatch, FirstMatch, HoldsName, Proper, Stored, SumOf, SfnEntry, MarksBehind, Reached, AllFree, NoRoomBelow, Grown;
    GrownNoMatch(t, grown, name, Same(up, buf));
    FoundIfReached(grown, u, name, up, buf, start, n, long, sfn, nt);
    ReachedIff(t, grown, start, n);
  }

  /** A table with an end mark before its only room for two entries: a long name registered there is not found. */
  lemma StrayMark(sfn: Sfn, name: Name, up: word -> word, buf: NameBuf, u: seq<Ent>, long: seq<word>)
    requires Proper(sfn) && name.lfn && Proper(name.sfn) && !name.loss && HoldsName(buf, long) && 1 <= |long|
    requires var t := [ClearEntry(), SfnEntry(sfn, 0), ClearEntry(), ClearEntry()]; Written(t, u, 2, 2, long, name.sfn, name.nt)
    ensures var t := [ClearEntry(), SfnEntry(sfn, 0), ClearEntry(), ClearEntry()];
            && NoMatch(t, name, Same(up, buf)) && AllFree(t, 2, 2) && NoRoomBelow(t, 2, 2) && !MarksBehind(t, 2)
            && !FirstMatch(u, name, Same(up, buf), 3)
  {
    hide HasLong, HoldsName, Stored, SumOf;
    var t := [ClearEntry(), SfnEntry(sfn, 0), ClearEntry(), ClearEntry()];
    SfnEntryKind(sfn, 0);
    assert t[0][0] == 0 && !Unused(t[1]);
    assert !AllFree(t, 0, 2) && !AllFree(t, 1, 2);
    assert !RoomAt(t, 0, 2);
    GrownSame(t);
    RegisteredIsFound(t, t, u, name, up, buf, 2, 2, long, name.sfn, name.nt);
  }

  /** What was registered is found exactly if no end mark stands before its block. */
  lemma FoundIfReached(t: seq<Ent>, u: seq<Ent>, name: Name, up: word -> word, buf: NameBuf,
                          start: nat, n: nat, long: seq<word>, sfn: Sfn, nt: byte)
    requires NoMatch(t, name, Same(up, buf)) && Written(t, u, start, n, long, sfn, nt) && Proper(sfn) && start + n <= MAX_ENTRIES
    requires HoldsName(buf, long) && (name.loss ==> name.lfn) && (name.lfn <==> n > 1) && (!name.loss ==> sfn == name.sfn)
    ensures FirstMatch(u, name, Same(up, buf), start + n - 1) <==> Reached(t, start)
  {
    hide SumOf, Storable, EntryCount, HoldsPart, Proper, SfnEntry, Attr, HoldsName, PartMatches, Stored, HasLong;
    var m, j := Same(up, buf), start + n - 1;
    if Reached(t, start) {
      forall i | 0 <= i <= j ensures u[i][0] != 0 {
        BlockUsed(t, u, start, n, long, sfn, nt, i);
      }
      forall k | 0 <= k < j ensures !Matches(u, name, m, k) {
        if k < start {
          SameUpTo(t, u, name, m, k);
          assert Live(t, k);
        } else {
          BlockUsed(t, u, start, n, long, sfn, nt, k);
          Kinds(u[k]);
        }
      }
      BlockUsed(t, u, start, n, long, sfn, nt, j);
      if n > 1 {
        LongFound(u, m, start, j, long, sfn);
      }
    } else {
      var i :| 0 <= i < start && t[i][0] == 0;
      assert u[i] == t[i];
    }
  }

  lemma LongFound(u: seq<Ent>, m: Test, b: nat, j: nat, long: seq<word>, sfn: Sfn)
    requires Stored(u, b, j, long, SumOf(sfn)) && SfnOf(u[j]) == sfn && (m.Readable? || (m.Same? && HoldsName(m.buf, long)))
    ensures HasLong(u, m, 0, j) && LongAt(u, m, b, j)
  {
    hide InRun, Order, ChkSum, SumOf, HoldsName, HoldsPart, Storable, EntryCount;
    StoredRun(u, m, b, j, long, SumOf(sfn), j);
    assert LongAt(u, m, b, j);
  }

  /** A table that was not stretched, and one that was, lead a name to the same entries. */
  lemma GrownNoMatch(t: seq<Ent>, u: seq<Ent>, name: Name, m: Test)
    requires Grown(t, u) && NoMatch(t, name, m)
    ensures NoMatch(u, name, m)
  {
    hide Matches;
    forall k: nat | Live(u, k) ensures !Matches(u, name, m, k) {
      assert u[k][0] != 0;
      if k < |t| {
        forall i | 0 <= i <= k ensures t[i] == u[i] {
          assert u[i] == u[..|t|][i];
        }
        SameUpTo(t, u, name, m, k);
        assert Live(t, k);
      }
    }
  }

  lemma LongBeyond(t: seq<Ent>, u: seq<Ent>, m: Test, j: nat, k: nat)
    requires j < k < |t| == |u| && !IsLfn(t[j]) && forall i :: j < i < |t| ==> u[i] == t[i]
    ensures HasLong(t, m, 0, k) ==> HasLong(u, m, 0, k)
  {
    hide Good, IsLfn, IsLast, Order, SumOf;
    if HasLong(t, m, 0, k) {
      var b: nat :| LongAt(t, m, b, k);
      assert b <= j ==> InRun(t, m, b, j);
      forall i | b <= i < k ensures InRun(u, m, b, i) {
        assert InRun(t, m, b, i);
      }
      assert LongAt(u, m, b, k);
    }
  }

  /** Entries behind the block are matched as before: no set of entries reaches across it. */
  lemma SameBeyond(t: seq<Ent>, u: seq<Ent>, name: Name, m: Test, j: nat, k: nat)
    requires j < k < |t| == |u| && !IsLfn(t[j]) && !IsLfn(u[j]) && forall i :: j < i < |t| ==> u[i] == t[i]
    ensures Matches(t, name, m, k) <==> Matches(u, name, m, k)
  {
    hide IsLfn, IsSfn, HasLong;
    LongBeyond(t, u, m, j, k);
    LongBeyond(u, t, m, j, k);
  }

  /** Registering a name changes nothing for a name that led elsewhere, unless the new entry lies earlier and matches it too. */
  lemma OthersKept(t: seq<Ent>, u: seq<Ent>, other: Name, m: Test, k: nat,
                   start: nat, n: nat, long: seq<word>, sfn: Sfn, nt: byte)
    requires Written(t, u, start, n, long, sfn, nt) && Proper(sfn) && AllFree(t, start, n)
    requires FirstMatch(t, other, m, k) && (start < k ==> !Matches(u, other, m, start + n - 1))
    ensures FirstMatch(u, other, m, k)
  {
    hide SumOf, Proper, SfnEntry, Attr, Stored, HasLong, Good;
    var j := start + n - 1;
    BlockUsed(t, u, start, n, long, sfn, nt, j);
    forall i | 0 <= i <= k ensures u[i][0] != 0 {
      BlockUsed(t, u, start, n, long, sfn, nt, i);
    }
    forall i | 0 <= i <= k ensures Matches(u, other, m, i) ==> i == k || Matches(t, other, m, i) {
      MatchKept(t, u, other, m, start, n, long, sfn, nt, i);
    }
    MatchKept(t, u, other, m, start, n, long, sfn, nt, k);
  }

  /** Outside the block every entry is matched by the same names as before. */
  lemma MatchKept(t: seq<Ent>, u: seq<Ent>, other: Name, m: Test, start: nat, n: nat, long: seq<word>, sfn: Sfn, nt: byte, i: nat)
    requires Written(t, u, start, n, long, sfn, nt) && Proper(sfn) && AllFree(t, start, n) && i < |t|
    ensures i < start || start + n <= i ==> (Matches(u, other, m, i) <==> Matches(t, other, m, i))
    ensures start <= i < start + n ==> !Matches(t, other, m, i)
    ensures start <= i < start + n - 1 ==> !Matches(u, other, m, i)
  {
    hide SumOf, Proper, SfnEntry, Attr, Stored, HasLong, Good;
    var j := start + n - 1;
    BlockUsed(t, u, start, n, long, sfn, nt, j);
    Kinds(u[j]);
    if i < start {
      SameUpTo(t, u, other, m, i);
    } else if i > j {
      SameBeyond(t, u, other, m, j, i);
    } else if i < j {
      BlockUsed(t, u, start, n, long, sfn, nt, i);
      Kinds(u[i]);
    }
  }

  ghost predicate SfnFree(t: seq<Ent>, sfn: Sfn) {
    forall k: nat :: Live(t, k) && IsSfn(t[k]) ==> SfnOf(t[k]) != sfn
  }

  /** A short name that no scan finds is not in use. */
  lemma NotFoundIsFree(t: seq<Ent>, name: Name, m: Test)
    requires NoMatch(t, name, m) && !name.loss
    ensures SfnFree(t, name.sfn)
  {
    hide HasLong, IsSfn;
    forall k: nat | Live(t, k) && IsSfn(t[k]) ensures SfnOf(t[k]) != name.sfn {
      assert !Matches(t, name, m, k);
    }
  }

  /** Registering keeps the short names different. */
  lemma DistinctKept(t: seq<Ent>, u: seq<Ent>, start: nat, n: nat, long: seq<word>, sfn: Sfn, nt: byte)
    requires Ended(t) && Distinct(t) && SfnFree(t, sfn) && Proper(sfn)
    requires AllFree(t, start, n) && NoRoomBelow(t, n, start) && Written(t, u, start, n, long, sfn, nt)
    ensures Distinct(u)
  {
    hide SumOf, Proper, SfnEntry, Attr, Stored, Unused;
    FirstBlockReached(t, start, n);
    var j := start + n - 1;
    forall i: nat, k: nat | i < k && Live(u, k) && IsSfn(u[i]) && IsSfn(u[k]) ensures SfnOf(u[i]) != SfnOf(u[k]) {
      NotLongPart(t, u, start, n, long, sfn, nt, i);
      NotLongPart(t, u, start, n, long, sfn, nt, k);
      StillLive(t, u, start, n, long, sfn, nt, k);
      assert k < start || k > j ==> Live(t, k);
      assert i < j ==> Live(t, i);
    }
  }

  lemma NotLongPart(t: seq<Ent>, u: seq<Ent>, start: nat, n: nat, long: seq<word>, sfn: Sfn, nt: byte, i: nat)
    requires Written(t, u, start, n, long, sfn, nt) && Proper(sfn) && i < |u| && IsSfn(u[i])
    ensures i < start || i > start + n - 1 || (i == start + n - 1 && SfnOf(u[i]) == sfn)
    ensures i != start + n - 1 ==> u[i] == t[i]
  {
    hide SumOf, Proper, SfnEntry, Attr, Stored;
    BlockUsed(t, u, start, n, long, sfn, nt, i);
    Kinds(u[i]);
  }

  /** What a scan reaches outside the block it reached before. */
  lemma StillLive(t: seq<Ent>, u: seq<Ent>, start: nat, n: nat, long: seq<word>, sfn: Sfn, nt: byte, k: nat)
    requires Written(t, u, start, n, long, sfn, nt) && Ended(t) && Reached(t, start) && Live(u, k)
    ensures k < start || k >= start + n ==> Live(t, k)
    ensures forall i: nat :: i < start && i <= k ==> Live(t, i)
  {
    hide SumOf, SfnEntry, Stored;
    if k >= start + n {
      assert t[k] == u[k];
    }
  }

  lemma GrownDistinct(t: seq<Ent>, u: seq<Ent>)
    requires Distinct(t) && Grown(t, u)
    ensures Distinct(u)
  {
    forall i: nat, k: nat | i < k && Live(u, k) && IsSfn(u[i]) && IsSfn(u[k]) ensures SfnOf(u[i]) != SfnOf(u[k]) {
      assert k < |t|;
      assert u[i] == u[..|t|][i] && u[k] == u[..|t|][k];
      forall c | 0 <= c <= k ensures t[c] == u[c] {
        assert u[c] == u[..|t|][c];
      }
      assert Live(t, k);
    }
  }
}
