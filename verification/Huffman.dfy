/** The decoding tables of stbi__zhuffman: a 9-bit table for short codes and code ranges for long ones. */
module Huffman {
  import opened Bytes
  import opened BitStrings
  import opened BitReversal
  import opened HuffmanCodes

  /** The number of symbols of the literal and length alphabet. */
  const ZNSYMS: nat := 288

  /** Entry `e` for index `j` tells the symbol below `n` whose short code starts the bits of `j`, 0 if there is none. */
  ghost predicate FastEntry(lens: seq<nat>, n: nat, j: nat, e: nat) {
    if e == 0 then forall i :: 0 <= i < n && i < |lens| && lens[i] <= 9 ==> !Starts(lens, i, Bits(j, 9))
    else e % 512 < n && Starts(lens, e % 512, Bits(j, 9)) && lens[e % 512] == e / 512
  }

  /** An index of at least `s` bits starts with a code of `s` bits exactly if its lowest bits are the reversed code. */
  lemma StartsIffLow(lens: seq<nat>, i: nat, j: nat, n: nat)
    requires i < |lens| && 0 < lens[i] <= n
    ensures Starts(lens, i, Bits(j, n)) <==> Low(j, lens[i]) == Rev(CodeOf(lens, i), lens[i])
  {
    hide CodeOf, HighFirst;
    var s := lens[i];
    BitsSplit(j, s, n - s);
    assert Bits(j, n)[..s] == Bits(j, s);
    assert Codeword(lens, i) <= Bits(j, n) <==> Codeword(lens, i) == Bits(j, n)[..s];
    ValOfBits(j, s);
    BitsOfVal(HighFirst(CodeOf(lens, i), s));
    BitsOfVal(Bits(j, s));
  }

  /** The entry after symbol `n` has been entered. */
  lemma FastStep(lens: seq<nat>, n: nat, j: nat, e: nat, e': nat)
    requires n < |lens| && n < 512 && FastEntry(lens, n, j, e)
    requires e' == if 0 < lens[n] <= 9 && Low(j, lens[n]) == Rev(CodeOf(lens, n), lens[n]) then 512 * lens[n] + n else e
    ensures FastEntry(lens, n + 1, j, e')
  {
    hide CodeOf, Codeword, Rev, Low;
    if 0 < lens[n] <= 9 {
      StartsIffLow(lens, n, j, 9);
      DivModUnique(512 * lens[n] + n, 512, lens[n], n);
    }
  }

  lemma {:induction false} LowAtMost(v: nat, s: nat)
    ensures Low(v, s) <= v
  {
    if s > 0 {
      LowAtMost(v / 2, s - 1);
    }
  }

  /** Numbers with the same lowest bits are a multiple of 2^s apart. */
  lemma {:induction false} LowGap(u: nat, v: nat, s: nat)
    requires Low(u, s) == Low(v, s) && u < v
    ensures u + Pow2(s) <= v
  {
    if s > 0 {
      LowGap(u / 2, v / 2, s - 1);
    }
  }

  lemma {:induction false} LowStep(v: nat, s: nat)
    ensures Low(v + Pow2(s), s) == Low(v, s)
  {
    if s > 0 {
      LowStep(v / 2, s - 1);
      assert (v + Pow2(s)) / 2 == v / 2 + Pow2(s - 1);
    }
  }

  /** The number of codes counted so far, per length. */
  ghost predicate Counted(sizes: seq<nat>, lens: seq<nat>) {
    |sizes| == 17 && forall l :: 0 <= l <= 15 ==> sizes[l] == Count(lens, l)
  }

  /** The loop that counts the code lengths. */
  method CountSizes(sizelist: seq<nat>) returns (sizes: array<nat>)
    requires Short(sizelist)
    ensures fresh(sizes) && Counted(sizes[..], sizelist)
  {
    sizes := new nat[17](_ => 0);
    for i := 0 to |sizelist|
      invariant sizes.Length == 17 && Counted(sizes[..], sizelist[..i])
    {
      sizes[sizelist[i]] := sizes[sizelist[i]] + 1;
      assert sizelist[..i + 1] == sizelist[..i] + [sizelist[i]];
      assert (sizelist[..i] + [sizelist[i]])[..i] == sizelist[..i];
    }
    assert sizelist[..|sizelist|] == sizelist;
  }

  /** The loop that tests each length by itself. */
  method CheckSizes(sizelist: seq<nat>, sizes: array<nat>) returns (ok: bool)
    requires Counted(sizes[..], sizelist)
    ensures ok <==> forall l :: 1 <= l < 16 ==> Count(sizelist, l) <= Pow2(l)
    ensures !ok ==> !Fits(sizelist)
  {
    hide Fits, Count, Counted, Pow2;
    for i := 1 to 16
      invariant forall l :: 1 <= l < i ==> Count(sizelist, l) <= Pow2(l)
    {
      SizeIs(sizes[..], sizelist, i);
      if sizes[i] > Pow2(i) {
        TooMany(sizelist, i);
        return false;
      }
    }
    ok := true;
  }

  class Huffman {
    const fast: array<nat>
    const firstcode: array<nat>
    const maxcode: array<nat>
    const firstsymbol: array<nat>
    const size: array<nat>
    const value: array<nat>
    /** The code lengths the tables were built from. */
    ghost var lens: seq<nat>

    constructor ()
      ensures Shape() && fresh(Tables())
    {
      fast := new nat[512](_ => 0);
      firstcode, maxcode, firstsymbol := new nat[16](_ => 0), new nat[17](_ => 0), new nat[16](_ => 0);
      size, value := new nat[ZNSYMS](_ => 0), new nat[ZNSYMS](_ => 0);
      lens := [];
    }

    ghost function Tables(): set<object> {
      {this, fast, firstcode, maxcode, firstsymbol, size, value}
    }

    ghost predicate Shape() {
      && fast.Length == 512 && firstcode.Length == 16 && maxcode.Length == 17 && firstsymbol.Length == 16
      && size.Length == ZNSYMS && value.Length == ZNSYMS
      && |{fast, firstcode, maxcode, firstsymbol, size, value}| == 6
    }

    /** The code ranges of the lengths below `n`. */
    ghost predicate Ranges(s: seq<nat>, n: nat)
      requires Shape() && n <= 16
      reads firstcode, maxcode, firstsymbol
    {
      forall l {:trigger firstcode[l]} {:trigger maxcode[l]} {:trigger firstsymbol[l]} :: 1 <= l < n ==>
        firstcode[l] == First(s, l) && maxcode[l] == Past(s, l) && firstsymbol[l] == Below(s, l)
    }

    /** The symbols below `n` stand at their ranks. */
    ghost predicate Ranked(s: seq<nat>, n: nat)
      requires Shape() && n <= |s| <= ZNSYMS
      reads size, value
    {
      forall i :: 0 <= i < n && s[i] > 0 ==> Rank(s, i) < ZNSYMS && size[Rank(s, i)] == s[i] && value[Rank(s, i)] == i
    }

    ghost predicate FastUpTo(s: seq<nat>, n: nat)
      requires Shape()
      reads fast
    {
      forall j :: 0 <= j < 512 ==> FastEntry(s, n, j, fast[j])
    }

    /** The tables decode the canonical code of `lens`. */
    ghost predicate Ready()
      reads this, fast, firstcode, maxcode, firstsymbol, size, value
    {
      && Shape() && Short(lens) && Fits(lens) && |lens| <= ZNSYMS
      && Ranges(lens, 16) && maxcode[16] == 0x1_0000 && Ranked(lens, |lens|) && FastUpTo(lens, |lens|)
    }

    /** The loop over the code lengths: `false` if the codes do not fit. */
    method FirstCodes(sizelist: seq<nat>, sizes: array<nat>, nextCode: array<nat>) returns (ok: bool)
      requires Shape() && Counted(sizes[..], sizelist) && nextCode.Length == 16
      requires {sizes, nextCode} !! Tables() && sizes != nextCode
      modifies firstcode, maxcode, firstsymbol, nextCode
      ensures ok <==> Fits(sizelist)
      ensures ok ==> Ranges(sizelist, 16) && forall l :: 1 <= l <= 15 ==> nextCode[l] == First(sizelist, l)
    {
      hide Fits, Count, Past, First, Below, Counted;
      NoCodes(sizelist);
      var code, k := 0, 0;
      for i := 1 to 16
        invariant code == First(sizelist, i) && k == Below(sizelist, i)
        invariant Ranges(sizelist, i) && forall l :: 1 <= l < i ==> nextCode[l] == First(sizelist, l)
        invariant FitsBelow(sizelist, i)
      {
        SizeIs(sizes[..], sizelist, i);
        var n := sizes[i];
        nextCode[i] := code;
        firstcode[i] := code;
        firstsymbol[i] := k;
        NextLength(sizelist, i);
        code := code + n;
        if n != 0 {
          if code - 1 >= Pow2(i) {
            return false;
          }
        }
        maxcode[i] := Shl(code, 16 - i);
        code := 2 * code;
        k := k + n;
      }
      AllFit(sizelist);
      ok := true;
    }

    /** The loop that spreads one short code over the fast table. */
    method FillFast(code: nat, s: nat, e: nat)
      requires Shape() && s <= 9
      modifies fast
      ensures forall j :: 0 <= j < 512 ==> fast[j] == if Low(j, s) == Rev(code, s) then e else old(fast[j])
    {
      hide Rev, Low;
      BitReverseReverses(code, s);
      var j := BitReverse(code, s);
      LowAll(j, s);
      forall i | 0 <= i < j ensures Low(i, s) != Rev(code, s) {
        LowAtMost(i, s);
      }
      while j < 512
        invariant Low(j, s) == Rev(code, s)
        invariant forall i :: 0 <= i < 512 ==> fast[i] == if i < j && Low(i, s) == Rev(code, s) then e else old(fast[i])
      {
        fast[j] := e;
        forall i | j < i < j + Pow2(s) ensures Low(i, s) != Rev(code, s) {
          if Low(i, s) == Rev(code, s) {
            LowGap(j, i, s);
          }
        }
        LowStep(j, s);
        j := j + Pow2(s);
      }
    }

    /** One turn of the loop over the symbols. */
    method EnterSymbol(sizelist: seq<nat>, i: nat, nextCode: array<nat>)
      requires Shape() && i < |sizelist| <= ZNSYMS && 0 < sizelist[i] <= 15 && Ranges(sizelist, 16)
      requires nextCode.Length == 16 && nextCode !in Tables() && nextCode[sizelist[i]] == CodeOf(sizelist, i)
      requires Ranked(sizelist, i) && FastUpTo(sizelist, i)
      modifies fast, size, value
      ensures Ranked(sizelist, i + 1) && FastUpTo(sizelist, i + 1)
    {
      hide CodeOf, Rank, Starts, Rev, Low, FastEntry;
      var s := sizelist[i];
      RankOffset(sizelist, i);
      RankBound(sizelist, i);
      var c := nextCode[s] - firstcode[s] + firstsymbol[s];
      var fastv := 512 * s + i;
      forall j | 0 <= j < i && sizelist[j] > 0 ensures Rank(sizelist, j) != c {
        RankInjective(sizelist, i, j);
      }
      size[c] := s;
      value[c] := i;
      assert Ranked(sizelist, i + 1);
      if s <= 9 {
        FillFast(nextCode[s], s, fastv);
      }
      forall j | 0 <= j < 512 ensures FastEntry(sizelist, i + 1, j, fast[j]) {
        FastStep(sizelist, i, j, old(fast[j]), fast[j]);
      }
    }

    /** The loop over the symbols. */
    method EnterSymbols(sizelist: seq<nat>, nextCode: array<nat>)
      requires Shape() && Short(sizelist) && |sizelist| <= ZNSYMS && Ranges(sizelist, 16) && FastUpTo(sizelist, 0)
      requires nextCode.Length == 16 && nextCode !in Tables()
      requires forall l :: 1 <= l <= 15 ==> nextCode[l] == First(sizelist, l)
      modifies fast, size, value, nextCode
      ensures Ranked(sizelist, |sizelist|) && FastUpTo(sizelist, |sizelist|)
    {
      hide FastEntry, CodeOf, Rank, First, Below, Past;
      for i := 0 to |sizelist|
        invariant Ranked(sizelist, i) && FastUpTo(sizelist, i)
        invariant forall l :: 1 <= l <= 15 ==> nextCode[l] == First(sizelist, l) + Count(sizelist[..i], l)
      {
        var s := sizelist[i];
        CountNext(sizelist, i);
        if s != 0 {
          CodeIs(sizelist, i);
          EnterSymbol(sizelist, i, nextCode);
          nextCode[s] := nextCode[s] + 1;
        } else {
          SkipSymbol(sizelist, i);
        }
      }
    }

    /** stbi__zbuild_huffman: accepts exactly the lengths whose Kraft sum is at most one. */
    method Build(sizelist: seq<nat>) returns (ok: bool)
      requires Shape() && Short(sizelist) && |sizelist| <= ZNSYMS
      modifies Tables()
      ensures ok <==> Kraft(sizelist) <= Pow2(15)
      ensures ok ==> Ready() && lens == sizelist
    {
      hide Fits, Kraft, FastEntry, CodeOf, Rank, First, Below, Past, Counted, Pow2;
      FitsIffKraft(sizelist);
      forall j | 0 <= j < 512 {
        fast[j] := 0;
      }
      NothingFast(sizelist);
      var sizes := CountSizes(sizelist);
      ok := CheckSizes(sizelist, sizes);
      if ok {
        var nextCode := new nat[16](_ => 0);
        ok := FirstCodes(sizelist, sizes, nextCode);
        if ok {
          maxcode[16] := 0x1_0000;
          EnterSymbols(sizelist, nextCode);
          lens := sizelist;
        }
      }
    }

    /** stbi__zhuffman_decode_slowpath: the search by code length, for codes of more than 9 bits. */
    method SlowPath(v: nat) returns (sym: int, len: nat)
      requires Ready() && fast[Low(v, 9)] == 0
      ensures Decoded(v, sym, len)
    {
      hide Fits, FastEntry, Starts, First, Past, Rank, Below, Rev, Low, Nth, BitReverse;
      sym, len := -1, 0;
      BitReverseReverses(v, 16);
      Short9(lens, v, fast[Low(v, 9)]);
      var k := BitReverse(v, 16);
      Pow2Of16();
      var s := 10;
      while k >= maxcode[s]
        invariant 10 <= s <= 16 && Past(lens, s - 1) <= k
        decreases 16 - s
      {
        s := s + 1;
      }
      if s >= 16 {
        NoCode(lens, v);
        return;
      }
      FoundByOffset(lens, s, v);
      var b := Shr(k, 16 - s) - firstcode[s] + firstsymbol[s];
      if b >= ZNSYMS {
        return;
      }
      if size[b] != s {
        return;
      }
      sym, len := value[b], s;
    }

    /** The table lookups of stbi__zhuffman_decode. */
    method Lookup(v: nat) returns (sym: int, len: nat)
      requires Ready()
      ensures Decoded(v, sym, len)
    {
      hide Fits, Starts, Low, Pow2;
      Pow2Of9();
      var b := fast[Low(v, 9)];
      if b != 0 {
        Short9(lens, v, b);
        return b % 512, b / 512;
      }
      sym, len := SlowPath(v);
    }

    /** The symbol whose code starts the bits of `v`, with its length; -1 if there is none. */
    ghost predicate Decoded(v: nat, sym: int, len: nat)
      reads this
    {
      if sym >= 0 then Starts(lens, sym, Bits(v, 16)) && sym < |lens| && len == lens[sym]
      else sym == -1 && len == 0 && forall i: nat :: !Starts(lens, i, Bits(v, 16))
    }

    lemma SkipSymbol(s: seq<nat>, i: nat)
      requires Shape() && i < |s| <= ZNSYMS && s[i] == 0 && FastUpTo(s, i)
      ensures FastUpTo(s, i + 1)
    {
      hide Codeword;
    }
  }

  lemma NothingFast(s: seq<nat>)
    ensures forall j {:trigger FastEntry(s, 0, j, 0)} :: 0 <= j < 512 ==> FastEntry(s, 0, j, 0)
  {
  }

  lemma CountNext(s: seq<nat>, i: nat)
    requires i < |s|
    ensures forall l :: 1 <= l <= 15 ==> Count(s[..i + 1], l) == Count(s[..i], l) + if s[i] == l then 1 else 0
  {
    assert s[..i + 1][..i] == s[..i];
  }

  lemma CodeIs(s: seq<nat>, i: nat)
    requires i < |s| && s[i] > 0
    ensures CodeOf(s, i) == First(s, s[i]) + Count(s[..i], s[i])
  {
  }

  lemma RankOffset(s: seq<nat>, i: nat)
    requires i < |s| && s[i] > 0
    ensures First(s, s[i]) <= CodeOf(s, i) && Rank(s, i) == CodeOf(s, i) - First(s, s[i]) + Below(s, s[i])
  {
  }

  lemma TooMany(s: seq<nat>, l: nat)
    requires 1 <= l <= 15 && Count(s, l) > Pow2(l)
    ensures !Fits(s)
  {
    assert End(s, l) > Pow2(l);
  }

  lemma SizeIs(sizes: seq<nat>, lens: seq<nat>, l: nat)
    requires Counted(sizes, lens) && l <= 15
    ensures |sizes| == 17 && sizes[l] == Count(lens, l)
  {
  }

  ghost predicate FitsBelow(s: seq<nat>, n: nat) {
    forall l {:trigger End(s, l)} :: 0 <= l < n ==> End(s, l) <= Pow2(l)
  }

  lemma NoCodes(s: seq<nat>)
    ensures First(s, 1) == 0 && Below(s, 1) == 0 && FitsBelow(s, 1)
  {
  }

  /** What the code loop computes for length `l`, and that its test decides whether the codes still fit. */
  lemma NextLength(s: seq<nat>, l: nat)
    requires 1 <= l <= 15 && FitsBelow(s, l)
    ensures Past(s, l) == Shl(First(s, l) + Count(s, l), 16 - l)
    ensures First(s, l + 1) == 2 * (First(s, l) + Count(s, l)) && Below(s, l + 1) == Below(s, l) + Count(s, l)
    ensures Count(s, l) == 0 || First(s, l) + Count(s, l) <= Pow2(l) ==> FitsBelow(s, l + 1)
    ensures First(s, l) + Count(s, l) > Pow2(l) ==> !Fits(s)
  {
    hide Count;
    assert End(s, l) == First(s, l) + Count(s, l);
    assert End(s, l - 1) <= Pow2(l - 1);
  }

  lemma AllFit(s: seq<nat>)
    requires FitsBelow(s, 16)
    ensures Fits(s)
  {
  }

  lemma Pow2Of9()
    ensures Pow2(9) == 512
  {
    assert Pow2(5) == 32 && Pow2(9) == 16 * Pow2(5);
  }

  lemma Pow2Of16()
    ensures Pow2(16) == 0x1_0000
  {
    Pow2Of9();
    assert Pow2(13) == 16 * Pow2(9) && Pow2(16) == 8 * Pow2(13);
  }

  /** What the fast table says about 16 bits: a short code, or none, and then the bits are past the short codes. */
  lemma Short9(lens: seq<nat>, v: nat, e: nat)
    requires Short(lens) && Fits(lens) && FastEntry(lens, |lens|, Low(v, 9), e)
    ensures e != 0 ==> Starts(lens, e % 512, Bits(v, 16)) && e % 512 < |lens| && lens[e % 512] == e / 512
    ensures e == 0 ==> Past(lens, 9) <= Rev(v, 16)
  {
    hide Fits, Past, Rev, Codeword, Bits;
    if e != 0 {
      SameStart(lens, e % 512, v);
    } else if Rev(v, 16) < Past(lens, 9) {
      var i := Tiled(lens, 9, v);
      SameStart(lens, i, v);
    }
  }

  lemma SameStart(lens: seq<nat>, i: nat, v: nat)
    requires i < |lens| && 0 < lens[i] && (lens[i] <= 9 || Starts(lens, i, Bits(Low(v, 9), 9)))
    ensures lens[i] <= 9 && (Starts(lens, i, Bits(Low(v, 9), 9)) <==> Starts(lens, i, Bits(v, 16)))
  {
    hide CodeOf, Rev;
    assert lens[i] <= 9;
    StartsIffLow(lens, i, Low(v, 9), 9);
    StartsIffLow(lens, i, v, 16);
    LowLow(v, lens[i], 9);
  }

  /** Past the codes of length 15 there is no code. */
  lemma NoCode(lens: seq<nat>, v: nat)
    requires Short(lens) && Fits(lens) && Past(lens, 15) <= Rev(v, 16)
    ensures forall i: nat :: !Starts(lens, i, Bits(v, 16))
  {
    hide Fits, Past, Rev, Codeword;
    forall i: nat ensures !Starts(lens, i, Bits(v, 16)) {
      if i < |lens| {
        NoneUpTo(lens, 15, v, i);
      }
    }
  }
}
