/** Directory tables: finding, reading and registering names with their sets of long-name entries. */
module Directories {
  import opened Bytes
  import opened Entries
  import opened LongNames

  /** MAX_DIR in entries. */
  const MAX_ENTRIES: nat := 0x1_0000
  const DDEM: byte := 0xE5
  const NO_BLOCK: int := -1

  /** The eleven bytes of a short name. */
  type Sfn = s: seq<byte> | |s| == 11 witness seq(11, _ => 0x20)

  function Attr(e: Ent): nat {
    e[11] % 0x40
  }

  predicate Unused(e: Ent) {
    e[0] == 0 || e[0] == DDEM
  }

  predicate IsLfn(e: Ent) {
    !Unused(e) && Attr(e) == AM_LFN
  }

  /** An entry of a file or directory; an entry with AM_VOL is a label or a long-name part. */
  predicate IsSfn(e: Ent) {
    !Unused(e) && Attr(e) / AM_VOL % 2 == 0
  }

  /** Entries of long names in the bits of the attribute byte. */
  lemma LfnByBits(e: Ent, a: bv8)
    requires e[11] == a as int
    ensures IsLfn(e) <==> e[0] != 0 && e[0] != 0xE5 && a & 0x3F == 0x0F
  {
  }

  /** Entries of files and directories: the volume bit is clear. */
  lemma SfnByBits(e: Ent, a: bv8)
    requires e[11] == a as int
    ensures IsSfn(e) <==> e[0] != 0 && e[0] != 0xE5 && a & 0x08 == 0
  {
    VolumeBit(a);
    VolumeAttr(e[11]);
    assert Attr(e) / AM_VOL % 2 == e[11] / 8 % 2;
  }

  lemma VolumeAttr(x: byte)
    ensures x % 0x40 / 8 % 2 == x / 8 % 2
  {
    DivModUnique(x, 8, 8 * (x / 64) + x % 64 / 8, x % 8);
  }

  lemma VolumeBit(a: bv8)
    ensures a as int / 8 % 2 == 0 <==> a & 0x08 == 0
  {
  }

  function SfnOf(e: Ent): Sfn {
    e[..11]
  }

  function ChkSum(e: Ent): byte {
    e[13]
  }

  /* ---- sets of long-name entries ---- */

  /** What a scan asks of a long-name entry: to match the wanted name, to be readable, or nothing passes. */
  datatype Test = Same(up: word -> word, buf: NameBuf) | Readable | Never

  ghost predicate Good(m: Test, e: Ent) {
    match m
    case Same(up, buf) => PartMatches(up, buf, e)
    case Readable => Pickable(e)
    case Never => false
  }

  /** Entry `i` continues the set that starts at `b`: the first entry has the flag, and the orders count down. */
  ghost predicate InRun(t: seq<Ent>, m: Test, b: nat, i: nat)
    requires b <= i < |t|
  {
    && IsLfn(t[i]) && (IsLast(t[i]) <==> i == b)
    && Order(t[i]) == Order(t[b]) - (i - b) && ChkSum(t[i]) == ChkSum(t[b]) && Good(m, t[i])
  }

  ghost predicate Run(t: seq<Ent>, m: Test, b: nat, p: nat) {
    b < p <= |t| && forall i :: b <= i < p ==> InRun(t, m, b, i)
  }

  /** The set from `b` on is complete at `p` and belongs to the short name there. */
  ghost predicate LongAt(t: seq<Ent>, m: Test, b: nat, p: nat) {
    p < |t| && Run(t, m, b, p) && Order(t[b]) == p - b && ChkSum(t[b]) == SumOf(SfnOf(t[p]))
  }

  ghost predicate HasLong(t: seq<Ent>, m: Test, lo: nat, p: nat) {
    exists b: nat :: lo <= b && LongAt(t, m, b, p)
  }

  lemma GoodOrder(m: Test, e: Ent)
    requires Good(m, e)
    ensures Order(e) > 0
  {
    hide WellFilled, CharsMatch, IsLast, TermAt, Part;
  }

  lemma RunUnique(t: seq<Ent>, m: Test, b: nat, c: nat, p: nat)
    requires Run(t, m, b, p) && Run(t, m, c, p)
    ensures b == c
  {
    hide InRun;
    var lo, hi := if b < c then b else c, if b < c then c else b;
    assert InRun(t, m, lo, hi) && InRun(t, m, hi, hi);
    HeadOnce(t, m, lo, hi);
  }

  lemma HeadOnce(t: seq<Ent>, m: Test, b: nat, c: nat)
    requires b <= c < |t| && InRun(t, m, b, c) && InRun(t, m, c, c)
    ensures b == c
  {
  }

  lemma RunExtends(t: seq<Ent>, m: Test, b: nat, p: nat)
    requires b <= p < |t|
    ensures Run(t, m, b, p + 1) <==> (b < p ==> Run(t, m, b, p)) && InRun(t, m, b, p)
  {
    hide InRun;
  }

  /* ---- the state of a scan ---- */

  /** The variables `ord`, `sum` and `blk` of a scan from `lo` say which set of entries ends just before `p`, if any. */
  ghost predicate Tracks(t: seq<Ent>, m: Test, lo: nat, p: nat, ord: byte, sum: byte, blk: int) {
    && (ord != 0xFF ==> lo <= blk < p && Run(t, m, blk, p) && ord == Order(t[blk]) - (p - blk) && sum == ChkSum(t[blk]))
    && (ord == 0xFF ==> forall b: nat :: lo <= b < p ==> !Run(t, m, b, p))
  }

  /** The order a set must have at an entry: its own if it starts there. */
  function Awaited(e: Ent, ord: byte): byte {
    if IsLast(e) then Order(e) else ord
  }

  /** A long-name entry moves the scan on. */
  lemma LfnTracked(t: seq<Ent>, m: Test, lo: nat, p: nat, ord: byte, sum: byte, blk: int, sum': byte, blk': int, good: bool)
    requires lo <= p < |t| && Tracks(t, m, lo, p, ord, sum, blk) && IsLfn(t[p])
    requires if IsLast(t[p]) then sum' == ChkSum(t[p]) && blk' == p else sum' == sum && blk' == blk
    requires good <==> Order(t[p]) == Awaited(t[p], ord) && sum' == ChkSum(t[p]) && Good(m, t[p])
    ensures good ==> Awaited(t[p], ord) > 0 && Tracks(t, m, lo, p + 1, Awaited(t[p], ord) - 1, sum', blk')
    ensures !good ==> Tracks(t, m, lo, p + 1, 0xFF, sum', blk')
  {
    hide IsLfn, IsLast, Order, ChkSum, Good;
    var q := p + 1;
    forall b: nat | lo <= b <= p && Run(t, m, b, q) ensures good && b == blk' {
      RunExtends(t, m, b, p);
      if b < p {
        if ord != 0xFF {
          RunUnique(t, m, b, blk, p);
        }
      }
    }
    if good {
      GoodOrder(m, t[p]);
      RunExtends(t, m, blk', p);
    }
  }

  /** Any other entry, and one that is not good, ends the set. */
  lemma OtherTracked(t: seq<Ent>, m: Test, lo: nat, p: nat, sum: byte, blk: int)
    requires lo <= p < |t| && !(IsLfn(t[p]) && Good(m, t[p]))
    ensures Tracks(t, m, lo, p + 1, 0xFF, sum, blk)
  {
    var q := p + 1;
    forall b: nat | lo <= b <= p ensures !Run(t, m, b, q) {
      RunExtends(t, m, b, p);
    }
  }

  /** At a short name the scan knows whether a complete set belongs to it. */
  lemma TracksLong(t: seq<Ent>, m: Test, lo: nat, p: nat, ord: byte, sum: byte, blk: int)
    requires lo <= p < |t| && Tracks(t, m, lo, p, ord, sum, blk)
    ensures ord == 0 && sum == SumOf(SfnOf(t[p])) <==> HasLong(t, m, lo, p)
    ensures ord == 0 && sum == SumOf(SfnOf(t[p])) ==> blk >= 0 && LongAt(t, m, blk, p)
  {
    hide Run, SumOf;
    if ord == 0 && sum == SumOf(SfnOf(t[p])) {
      assert LongAt(t, m, blk, p);
    }
    if HasLong(t, m, lo, p) {
      var b: nat :| lo <= b && LongAt(t, m, b, p);
      LongIsRun(t, m, b, p);
      if ord != 0xFF {
        RunUnique(t, m, b, blk, p);
      }
    }
  }

  lemma LongIsRun(t: seq<Ent>, m: Test, b: nat, p: nat)
    requires LongAt(t, m, b, p)
    ensures b < p
  {
  }

  /** The start of the group of long-name entries that reaches up to `p`, whether or not it is a proper set. */
  ghost predicate Group(t: seq<Ent>, b: nat, p: nat) {
    && b < p <= |t| && IsLfn(t[b]) && IsLast(t[b])
    && forall i :: b < i < p ==> IsLfn(t[i]) && !IsLast(t[i])
  }

  /** blk_ofs as dir_find keeps it: the start of the group, or NO_BLOCK. */
  ghost predicate BlockIs(t: seq<Ent>, m: Test, p: nat, blk: int) {
    && (blk != NO_BLOCK ==> 0 <= blk && !m.Never? && Group(t, blk, p))
    && (blk == NO_BLOCK && !m.Never? ==> forall b: nat :: !Group(t, b, p))
  }

  lemma BlockMoves(t: seq<Ent>, m: Test, p: nat, blk: int)
    requires p < |t| && BlockIs(t, m, p, blk)
    ensures !IsLfn(t[p]) ==> BlockIs(t, m, p + 1, NO_BLOCK)
    ensures IsLfn(t[p]) && !m.Never? ==> BlockIs(t, m, p + 1, if IsLast(t[p]) then p else blk)
    ensures m.Never? ==> BlockIs(t, m, p + 1, NO_BLOCK)
  {
    hide IsLfn, IsLast;
    var q := p + 1;
    forall b: nat | Group(t, b, q) ensures IsLfn(t[p]) && (if b == p then IsLast(t[p]) else Group(t, b, p) && !IsLast(t[p])) {
    }
  }

  /* ---- what a name matches ---- */

  /** The name as create_name leaves it: eleven bytes, and the flags NS_LFN, NS_LOSS, NS_DOT or NS_NONAME, and NS_BODY and NS_EXT. */
  datatype Name = Name(sfn: Sfn, lfn: bool, loss: bool, dot: bool, nt: byte)

  /** An entry that the name leads to: by its long name, or by its short name unless that one is only a makeshift. */
  ghost predicate Matches(t: seq<Ent>, name: Name, m: Test, k: nat)
    requires k < |t|
  {
    IsSfn(t[k]) && (HasLong(t, m, 0, k) || (!name.loss && SfnOf(t[k]) == name.sfn))
  }

  /** The scan gets as far as entry `k`: there is no end mark up to there. */
  ghost predicate Live(t: seq<Ent>, k: nat) {
    k < |t| && k < MAX_ENTRIES && forall i :: 0 <= i <= k ==> t[i][0] != 0
  }

  ghost predicate NoneBelow(t: seq<Ent>, name: Name, m: Test, n: nat)
    requires n <= |t|
  {
    forall k :: 0 <= k < n ==> !Matches(t, name, m, k)
  }

  ghost predicate FirstMatch(t: seq<Ent>, name: Name, m: Test, k: nat) {
    Live(t, k) && Matches(t, name, m, k) && NoneBelow(t, name, m, k)
  }

  ghost predicate NoMatch(t: seq<Ent>, name: Name, m: Test) {
    forall k: nat :: Live(t, k) ==> !Matches(t, name, m, k)
  }

  function TestFor(noLfn: bool, up: word -> word, buf: NameBuf): Test {
    if noLfn then Never else Same(up, buf)
  }

  /** AM_LFN is the only value of the attributes with AM_VOL that is let through. */
  lemma Kinds(e: Ent)
    ensures !(IsLfn(e) && IsSfn(e))
    ensures !Unused(e) && (Attr(e) / AM_VOL % 2 == 0 || Attr(e) == AM_LFN) ==> IsLfn(e) || IsSfn(e)
  {
  }

  lemma NoneMore(t: seq<Ent>, name: Name, m: Test, n: nat)
    requires n < |t| && NoneBelow(t, name, m, n) && !Matches(t, name, m, n)
    ensures NoneBelow(t, name, m, n + 1)
  {
    hide Matches;
  }

  lemma NotSfn(t: seq<Ent>, name: Name, m: Test, n: nat)
    requires n < |t| && !IsSfn(t[n])
    ensures !Matches(t, name, m, n)
  {
  }

  lemma MatchesIff(t: seq<Ent>, name: Name, m: Test, k: nat)
    requires k < |t| && IsSfn(t[k])
    ensures Matches(t, name, m, k) <==> HasLong(t, m, 0, k) || (!name.loss && SfnOf(t[k]) == name.sfn)
  {
    hide HasLong, IsSfn;
  }

  ghost predicate AllLive(t: seq<Ent>, n: nat) {
    n <= |t| && forall i :: 0 <= i < n ==> t[i][0] != 0
  }

  lemma ScanEnds(t: seq<Ent>, name: Name, m: Test, n: nat)
    requires n <= |t| && NoneBelow(t, name, m, n) && (n < |t| && n < MAX_ENTRIES ==> t[n][0] == 0)
    ensures NoMatch(t, name, m)
  {
    hide Matches;
  }

  /** One entry of the loop of dir_find; `stop` if the entry matches. */
  method FindStep(e: Ent, p: nat, name: Name, noLfn: bool, up: word -> word, buf: NameBuf, ord: byte, sum: byte, blk: int, ghost t: seq<Ent>)
    returns (stop: bool, ord': byte, sum': byte, blk': int)
    requires p < |t| && t[p] == e && e[0] != 0
    requires Tracks(t, TestFor(noLfn, up, buf), 0, p, ord, sum, blk) && BlockIs(t, TestFor(noLfn, up, buf), p, blk)
    ensures stop <==> Matches(t, name, TestFor(noLfn, up, buf), p)
    ensures stop ==> blk' == blk && (HasLong(t, TestFor(noLfn, up, buf), 0, p) ==> blk >= 0 && LongAt(t, TestFor(noLfn, up, buf), blk, p))
    ensures !stop ==> Tracks(t, TestFor(noLfn, up, buf), 0, p + 1, ord', sum', blk')
    ensures !stop ==> BlockIs(t, TestFor(noLfn, up, buf), p + 1, blk')
  {
    hide Tracks, BlockIs, HasLong, LongAt, Matches, Order, IsLast, PartMatches, SumOf;
    ghost var m := TestFor(noLfn, up, buf);
    stop, ord', sum', blk' := false, ord, sum, blk;
    var a := Attr(e);
    Kinds(e);
    BlockMoves(t, m, p, blk);
    if e[0] == DDEM || (a / AM_VOL % 2 == 1 && a != AM_LFN) {
      ord', blk' := 0xFF, NO_BLOCK;
      OtherTracked(t, m, 0, p, sum', blk');
      NotSfn(t, name, m, p);
    } else if a == AM_LFN {
      NotSfn(t, name, m, p);
      if !noLfn {
        var c := Order(e);
        if IsLast(e) {
          ord', blk', sum' := c, p, ChkSum(e);
        }
        var same := c == ord' && sum' == ChkSum(e);
        if same {
          same := CmpLfn(up, buf, e);
        }
        LfnTracked(t, m, 0, p, ord, sum, blk, sum', blk', same);
        ord' := if same then ord' - 1 else 0xFF;
      } else {
        NeverTracks(t, m, p, ord, sum, blk);
      }
    } else {
      var s := SumSfn(e);
      TracksLong(t, m, 0, p, ord, sum, blk);
      MatchesIff(t, name, m, p);
      stop := (ord == 0 && sum == s) || (!name.loss && e[..11] == name.sfn);
      if !stop {
        ord', blk' := 0xFF, NO_BLOCK;
        OtherTracked(t, m, 0, p, sum', blk');
      }
    }
  }

  /** With long names switched off nothing is ever tracked. */
  lemma NeverTracks(t: seq<Ent>, m: Test, p: nat, ord: byte, sum: byte, blk: int)
    requires m.Never? && p < |t| && Tracks(t, m, 0, p, ord, sum, blk) && BlockIs(t, m, p, blk)
    ensures Tracks(t, m, 0, p + 1, ord, sum, blk) && blk == NO_BLOCK
  {
    hide IsLfn, IsLast, Order;
    OtherTracked(t, m, 0, p, sum, blk);
  }

  lemma ScanStart(t: seq<Ent>, m: Test)
    ensures Tracks(t, m, 0, 0, 0xFF, 0xFF, NO_BLOCK) && BlockIs(t, m, 0, NO_BLOCK)
  {
  }

  /** What the loop of dir_find knows when it stands at entry `k`. */
  ghost predicate Scanned(t: seq<Ent>, name: Name, m: Test, k: nat, ord: byte, sum: byte, blk: int) {
    k <= |t| && NoneBelow(t, name, m, k) && AllLive(t, k) && Tracks(t, m, 0, k, ord, sum, blk) && BlockIs(t, m, k, blk)
  }

  /** It begins knowing nothing, and at an end mark or the end of the table it knows that there is no match. */
  lemma ScannedAll(t: seq<Ent>, name: Name, m: Test, k: nat, ord: byte, sum: byte, blk: int)
    ensures Scanned(t, name, m, 0, 0xFF, 0xFF, NO_BLOCK)
    ensures Scanned(t, name, m, k, ord, sum, blk) && (k == |t| || t[k][0] == 0) ==> NoMatch(t, name, m)
  {
    hide Tracks, BlockIs, Matches, NoMatch;
    ScanStart(t, m);
    if Scanned(t, name, m, k, ord, sum, blk) && (k == |t| || t[k][0] == 0) {
      ScanEnds(t, name, m, k);
    }
  }

  /** One turn of the loop of dir_find, at an entry before the end mark. */
  method ScanTurn(e: Ent, k: nat, name: Name, noLfn: bool, up: word -> word, buf: NameBuf, ord: byte, sum: byte, blk: int, ghost t: seq<Ent>)
    returns (stop: bool, ord': byte, sum': byte, blk': int)
    requires k < |t| && k < MAX_ENTRIES && t[k] == e && e[0] != 0 && Scanned(t, name, TestFor(noLfn, up, buf), k, ord, sum, blk)
    ensures stop ==> FirstMatch(t, name, TestFor(noLfn, up, buf), k) && BlockIs(t, TestFor(noLfn, up, buf), k, blk')
    ensures stop && HasLong(t, TestFor(noLfn, up, buf), 0, k) ==> blk' >= 0 && LongAt(t, TestFor(noLfn, up, buf), blk', k)
    ensures !stop ==> Scanned(t, name, TestFor(noLfn, up, buf), k + 1, ord', sum', blk')
  {
    hide Tracks, BlockIs, HasLong, LongAt, Matches, TestFor;
    stop, ord', sum', blk' := FindStep(e, k, name, noLfn, up, buf, ord, sum, blk, t);
    if !stop {
      NoneMore(t, name, TestFor(noLfn, up, buf), k);
    }
  }

  /* ---- dir_read ---- */

  /** A volume label, archived or not. */
  predicate IsLabel(e: Ent) {
    Attr(e) == AM_VOL || Attr(e) == AM_VOL + 0x20
  }

  /** An entry that dir_read reports for files: in use, not a dot entry, a label or a part of a long name. */
  predicate Listed(e: Ent) {
    !Unused(e) && e[0] != 0x2E && !IsLabel(e) && Attr(e) != AM_LFN
  }

  /** The listed entries in the bits of the attribute byte: neither free nor a dot, no volume label, no part of a long name. */
  lemma ListedByBits(e: Ent, a: bv8)
    requires e[11] == a as int
    ensures Listed(e) <==> e[0] != 0 && e[0] != 0xE5 && e[0] != 0x2E && a & 0x1F != 0x08 && a & 0x3F != 0x0F
  {
  }

  ghost predicate NoneListed(t: seq<Ent>, lo: nat, hi: nat) {
    hi <= |t| && forall k :: lo <= k < hi ==> t[k][0] != 0 && !Listed(t[k])
  }

  /** The entries from `b` up to `j` hold the parts of the name, the last part first. */
  ghost predicate Stored(t: seq<Ent>, b: nat, j: nat, name: seq<word>, sum: byte) {
    && Storable(name) && b < j < |t| && j - b == EntryCount(|name|) && j - b <= 20
    && forall i :: b <= i < j ==> HoldsPart(t[i], name, j - i, sum)
  }

  /** A stored name is a set of entries: readable, and good for a scan for the same name. */
  lemma StoredRun(t: seq<Ent>, m: Test, b: nat, j: nat, name: seq<word>, sum: byte, p: nat)
    requires Stored(t, b, j, name, sum) && b < p <= j && (m.Readable? || (m.Same? && HoldsName(m.buf, name)))
    ensures Run(t, m, b, p) && Order(t[b]) == j - b && ChkSum(t[b]) == sum
  {
    hide HoldsPart, InRun, Order, ChkSum, HoldsName, Storable, EntryCount;
    PartInRun(t, m, b, j, name, sum, b);
    forall i | b <= i < p ensures InRun(t, m, b, i) {
      PartInRun(t, m, b, j, name, sum, i);
      PartsRun(t, m, b, j, sum, i);
    }
  }

  /** What InRun asks of an entry, one entry at a time. */
  ghost predicate PartOf(e: Ent, m: Test, ord: nat, sum: byte, first: bool) {
    IsLfn(e) && (IsLast(e) <==> first) && Order(e) == ord && ChkSum(e) == sum && Good(m, e)
  }

  lemma PartsRun(t: seq<Ent>, m: Test, b: nat, j: nat, sum: byte, i: nat)
    requires b <= i < j <= |t| && PartOf(t[b], m, j - b, sum, true) && PartOf(t[i], m, j - i, sum, i == b)
    ensures InRun(t, m, b, i)
  {
    hide IsLfn, IsLast, Order, Good;
  }

  lemma PartInRun(t: seq<Ent>, m: Test, b: nat, j: nat, name: seq<word>, sum: byte, i: nat)
    requires Stored(t, b, j, name, sum) && b <= i < j && (m.Readable? || (m.Same? && HoldsName(m.buf, name)))
    ensures PartOf(t[i], m, j - i, sum, i == b) && Order(t[i]) == j - i && ChkSum(t[i]) == sum
  {
    hide Part, IsLast, Order, WellFilled, PartMatches, Pickable, HoldsName, Storable, EntryCount;
    assert HoldsPart(t[i], name, j - i, sum);
    PartShape(t[i], name, j - i, sum);
    PartPickable(t[i], name, j - i, sum);
    PartIsLfn(t[i], name, j - i, sum);
    if m.Same? {
      SelfMatch(m.up, m.buf, t[i], name, j - i, sum);
    }
  }

  lemma PartIsLfn(e: Ent, name: seq<word>, ord: nat, sum: byte)
    requires 1 <= ord <= 20 && HoldsPart(e, name, ord, sum)
    ensures IsLfn(e) && ChkSum(e) == sum && e[0] < 0x80 && e[0] != 0x2E
  {
  }

  /** One entry of the loop of dir_read; `stop` if the entry is to be reported. */
  method ReadStep(e: Ent, p: nat, buf: array<word>, ord: byte, sum: byte, blk: int,
                  ghost t: seq<Ent>, ghost lo: nat, ghost b: nat, ghost j: nat, ghost name: seq<word>)
    returns (stop: bool, ord': byte, sum': byte, blk': int)
    requires lo <= p < |t| && t[p] == e && e[0] != 0 && buf.Length == MAX_LFN + 1
    requires Tracks(t, Readable, lo, p, ord, sum, blk)
    requires lo <= b ==> Rebuilding(t, p, b, j, name, buf[..])
    modifies buf
    ensures stop <==> Listed(t[p])
    ensures stop ==> buf[..] == old(buf[..]) && (blk' != NO_BLOCK <==> HasLong(t, Readable, lo, p))
    ensures stop && blk' != NO_BLOCK ==> blk' >= 0 && LongAt(t, Readable, blk', p)
    ensures !stop ==> Tracks(t, Readable, lo, p + 1, ord', sum', blk')
    ensures !stop && lo <= b ==> Rebuilding(t, p + 1, b, j, name, buf[..])
  {
    hide Tracks, HasLong, LongAt, Order, IsLast, Pickable, Picked, SumOf, Stored, HoldsTail;
    stop, ord', sum', blk' := false, ord, sum, blk;
    if e[0] == DDEM || e[0] == 0x2E || IsLabel(e) {
      ord' := 0xFF;
      DotIsNoPart(e);
      OtherTracked(t, Readable, lo, p, sum', blk');
      NotInStored(t, b, j, name, p, buf[..]);
    } else if Attr(e) == AM_LFN {
      var c := Order(e);
      if IsLast(e) {
        sum', ord', blk' := ChkSum(e), c, p;
      }
      var good := c == ord' && sum' == ChkSum(e);
      if good {
        good := PickLfn(buf, e);
      }
      LfnTracked(t, Readable, lo, p, ord, sum, blk, sum', blk', good);
      RebuiltMore(t, lo, p, b, j, name, old(buf[..]), buf[..], good, if good then ord' - 1 else 0xFF, sum', blk');
      ord' := if good then ord' - 1 else 0xFF;
    } else {
      var s := SumSfn(e);
      TracksLong(t, Readable, lo, p, ord, sum, blk);
      if ord != 0 || sum != s {
        blk' := NO_BLOCK;
      }
      stop := true;
    }
  }

  /** While a stored name is passed, the buffer holds its tail. */
  ghost predicate Rebuilding(t: seq<Ent>, p: nat, b: nat, j: nat, name: seq<word>, buf: NameBuf) {
    b < p <= j && j < |t| && Stored(t, b, j, name, SumOf(SfnOf(t[j]))) ==> HoldsTail(buf, name, 13 * (j - p))
  }

  /** A dot is not the order of a part that fits. */
  lemma DotIsNoPart(e: Ent)
    requires Unused(e) || e[0] == 0x2E || IsLabel(e)
    ensures !(IsLfn(e) && Good(Readable, e))
  {
    hide WellFilled, TermAt, IsLast;
    OrderFlag(e[0]);
  }

  lemma NotInStored(t: seq<Ent>, b: nat, j: nat, name: seq<word>, p: nat, buf: NameBuf)
    requires p < |t| && (Unused(t[p]) || t[p][0] == 0x2E || IsLabel(t[p]))
    ensures Rebuilding(t, p + 1, b, j, name, buf)
  {
    hide HoldsPart, Storable, EntryCount, SumOf, HoldsTail;
    if b < p + 1 <= j && j < |t| && Stored(t, b, j, name, SumOf(SfnOf(t[j]))) {
      assert HoldsPart(t[p], name, j - p, SumOf(SfnOf(t[j])));
      PartIsLfn(t[p], name, j - p, SumOf(SfnOf(t[j])));
      assert false;
    }
  }

  lemma RebuiltMore(t: seq<Ent>, lo: nat, p: nat, b: nat, j: nat, name: seq<word>, before: NameBuf, after: NameBuf, good: bool,
                    ord': byte, sum': byte, blk': int)
    requires p < |t| && (lo <= b ==> Rebuilding(t, p, b, j, name, before))
    requires good ==> Pickable(t[p]) && Picked(before, after, t[p])
    requires Tracks(t, Readable, lo, p + 1, ord', sum', blk') && (good <==> ord' != 0xFF)
    ensures lo <= b ==> Rebuilding(t, p + 1, b, j, name, after)
  {
    hide HoldsPart, EntryCount, SumOf, HoldsTail, Picked, WellFilled, TermAt, IsLast, Part, InRun;
    if lo <= b < p + 1 <= j && j < |t| && Stored(t, b, j, name, SumOf(SfnOf(t[j]))) {
      var sum := SumOf(SfnOf(t[j]));
      StoredRun(t, Readable, b, j, name, sum, p + 1);
      assert HoldsPart(t[p], name, j - p, sum);
      PickStep(before, after, t[p], name, j - p, sum);
    }
  }

  lemma ReadStart(t: seq<Ent>, lo: nat, b: nat, j: nat, name: seq<word>, buf: NameBuf)
    ensures Tracks(t, Readable, lo, lo, 0xFF, 0xFF, NO_BLOCK) && (lo <= b ==> Rebuilding(t, lo, b, j, name, buf))
  {
  }

  lemma ReadDone(t: seq<Ent>, lo: nat, k: nat, b: nat, j: nat, name: seq<word>, buf: NameBuf, blk: int)
    requires k < |t| && (lo <= b ==> Rebuilding(t, k, b, j, name, buf))
    requires blk != NO_BLOCK <==> HasLong(t, Readable, lo, k)
    requires blk != NO_BLOCK ==> blk >= 0 && LongAt(t, Readable, blk, k)
    ensures k == j && lo <= b && Stored(t, b, j, name, SumOf(SfnOf(t[j]))) ==> blk == b && HoldsName(buf, name)
  {
    hide HoldsTail, HoldsName, Storable, EntryCount, InRun, SumOf, Order;
    if k == j && lo <= b && Stored(t, b, j, name, SumOf(SfnOf(t[j]))) {
      StoredRun(t, Readable, b, j, name, SumOf(SfnOf(t[j])), j);
      assert LongAt(t, Readable, b, k);
      RunUnique(t, Readable, b, blk, j);
      TailIsName(buf, name);
    }
  }
}
