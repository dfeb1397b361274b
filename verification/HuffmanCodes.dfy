/** Canonical Huffman codes as section 3.2.2 of RFC 1951 defines them. */
module HuffmanCodes {
  import opened BitStrings

  /** The number of symbols with code length `l`. */
  function Count(lens: seq<nat>, l: nat): (r: nat)
    ensures r <= |lens|
  {
    if lens == [] then 0 else
    Count(lens[..|lens| - 1], l) + if lens[|lens| - 1] == l then 1 else 0
  }

  /** The code value after the last code of length `l`. */
  function End(lens: seq<nat>, l: nat): nat {
    if l == 0 then 0 else 2 * End(lens, l - 1) + Count(lens, l)
  }

  /** The first code of length `l`. */
  function First(lens: seq<nat>, l: nat): nat
    requires l > 0
  {
    2 * End(lens, l - 1)
  }

  /** The code of symbol `i`: consecutive values among the symbols of its length. */
  function CodeOf(lens: seq<nat>, i: nat): nat
    requires i < |lens| && lens[i] > 0
  {
    First(lens, lens[i]) + Count(lens[..i], lens[i])
  }

  /** The bits of the code of symbol `i`, as they follow each other in the stream. */
  function Codeword(lens: seq<nat>, i: nat): (w: seq<bool>)
    requires i < |lens| && lens[i] > 0
    ensures |w| == lens[i]
  {
    HighFirst(CodeOf(lens, i), lens[i])
  }

  /** The stream of bits `w` starts with the code of symbol `i`. */
  predicate Starts(lens: seq<nat>, i: nat, w: seq<bool>) {
    i < |lens| && lens[i] > 0 && Codeword(lens, i) <= w
  }

  /** The Kraft sum, in units of 2^-15. */
  function Kraft(lens: seq<nat>): nat {
    if lens == [] then 0 else
    var l := lens[|lens| - 1];
    Kraft(lens[..|lens| - 1]) + if 0 < l <= 15 then Pow2(15 - l) else 0
  }

  ghost predicate Short(lens: seq<nat>) {
    forall i :: 0 <= i < |lens| ==> lens[i] <= 15
  }

  /** The codes of each length fit into that length. */
  ghost predicate Fits(lens: seq<nat>) {
    forall l {:trigger End(lens, l)} :: 0 <= l <= 15 ==> End(lens, l) <= Pow2(l)
  }

  lemma {:induction false} EndAppend(lens: seq<nat>, x: nat, l: nat)
    ensures End(lens + [x], l) == End(lens, l) + if 0 < x <= l then Pow2(l - x) else 0
  {
    assert (lens + [x])[..|lens|] == lens;
    if l > 0 {
      EndAppend(lens, x, l - 1);
    }
  }

  lemma {:induction false} NoEnd(l: nat)
    ensures End([], l) == 0
  {
    if l > 0 {
      NoEnd(l - 1);
    }
  }

  lemma {:induction false} KraftIsEnd(lens: seq<nat>)
    ensures Kraft(lens) == End(lens, 15)
  {
    if lens == [] {
      NoEnd(15);
    } else {
      var n := |lens| - 1;
      KraftIsEnd(lens[..n]);
      EndAppend(lens[..n], lens[n], 15);
      assert lens == lens[..n] + [lens[n]];
    }
  }

  lemma {:induction false} Overflows(lens: seq<nat>, l: nat, m: nat)
    requires l <= m && End(lens, l) > Pow2(l)
    ensures End(lens, m) > Pow2(m)
  {
    if l < m {
      Overflows(lens, l, m - 1);
    }
  }

  /** The codes fit exactly if the Kraft sum is at most one. */
  lemma FitsIffKraft(lens: seq<nat>)
    ensures Fits(lens) <==> Kraft(lens) <= Pow2(15)
  {
    KraftIsEnd(lens);
    if End(lens, 15) <= Pow2(15) {
      forall l {:trigger End(lens, l)} | 0 <= l <= 15 ensures End(lens, l) <= Pow2(l) {
        if End(lens, l) > Pow2(l) {
          Overflows(lens, l, 15);
        }
      }
    }
  }

  /* ---- counting ---- */

  lemma {:induction false} CountMono(lens: seq<nat>, i: nat, j: nat, l: nat)
    requires i <= j <= |lens|
    ensures Count(lens[..i], l) <= Count(lens[..j], l)
    ensures i < j && lens[i] == l ==> Count(lens[..i], l) < Count(lens[..j], l)
  {
    if i < j {
      CountMono(lens, i, j - 1, l);
      assert lens[..j][..j - 1] == lens[..j - 1];
    }
  }

  /** Among the symbols of length `l`, the one with `r` before it. */
  function Nth(lens: seq<nat>, l: nat, r: nat): (i: nat)
    requires r < Count(lens, l)
    ensures i < |lens| && lens[i] == l && Count(lens[..i], l) == r
  {
    var n := |lens| - 1;
    if lens[n] == l && Count(lens[..n], l) == r then n
    else
      var i := Nth(lens[..n], l, r);
      assert lens[..n][..i] == lens[..i];
      i
  }

  /** The number of symbols with codes shorter than `l`. */
  function Below(lens: seq<nat>, l: nat): nat {
    if l <= 1 then 0 else Below(lens, l - 1) + Count(lens, l - 1)
  }

  lemma {:induction false} BelowAppend(lens: seq<nat>, x: nat, l: nat)
    ensures Below(lens + [x], l) == Below(lens, l) + if 0 < x < l then 1 else 0
  {
    assert (lens + [x])[..|lens|] == lens;
    if l > 1 {
      BelowAppend(lens, x, l - 1);
    }
  }

  lemma {:induction false} NoneBelow(l: nat)
    ensures Below([], l) == 0
  {
    if l > 1 {
      NoneBelow(l - 1);
    }
  }

  lemma {:induction false} BelowBound(lens: seq<nat>, l: nat)
    ensures Below(lens, l) <= |lens|
  {
    if lens == [] {
      NoneBelow(l);
    } else {
      var n := |lens| - 1;
      BelowBound(lens[..n], l);
      BelowAppend(lens[..n], lens[n], l);
      assert lens == lens[..n] + [lens[n]];
    }
  }

  lemma {:induction false} BelowMono(lens: seq<nat>, l: nat, m: nat)
    requires 0 < l < m
    ensures Below(lens, l) + Count(lens, l) <= Below(lens, m)
  {
    if l + 1 < m {
      BelowMono(lens, l, m - 1);
    }
  }

  /** The place of symbol `i` when the symbols are ordered by code. */
  function Rank(lens: seq<nat>, i: nat): nat
    requires i < |lens| && lens[i] > 0
  {
    Below(lens, lens[i]) + Count(lens[..i], lens[i])
  }

  lemma RankBound(lens: seq<nat>, i: nat)
    requires i < |lens| && lens[i] > 0
    ensures Rank(lens, i) < Below(lens, lens[i]) + Count(lens, lens[i]) <= |lens|
  {
    CountMono(lens, i, |lens|, lens[i]);
    assert lens[..|lens|] == lens;
    BelowBound(lens, lens[i] + 1);
  }

  /** Different symbols have different places. */
  lemma RankInjective(lens: seq<nat>, i: nat, j: nat)
    requires i < |lens| && j < |lens| && lens[i] > 0 && lens[j] > 0 && i != j
    ensures Rank(lens, i) != Rank(lens, j)
  {
    RankBound(lens, i);
    RankBound(lens, j);
    if lens[i] < lens[j] {
      BelowMono(lens, lens[i], lens[j]);
    } else if lens[j] < lens[i] {
      BelowMono(lens, lens[j], lens[i]);
    } else if i < j {
      CountMono(lens, i, j, lens[i]);
    } else {
      CountMono(lens, j, i, lens[i]);
    }
  }

  /* ---- codes as intervals of 16-bit numbers ---- */

  lemma CodeRange(lens: seq<nat>, i: nat)
    requires i < |lens| && 0 < lens[i] <= 15 && Fits(lens)
    ensures First(lens, lens[i]) <= CodeOf(lens, i) < End(lens, lens[i]) <= Pow2(lens[i])
  {
    CountMono(lens, i, |lens|, lens[i]);
    assert lens[..|lens|] == lens;
  }

  /** Two bit strings are in reverse order of each other exactly if the numbers are reversals. */
  lemma ReversedNumbers(v: nat, c: nat, n: nat)
    requires c < Pow2(n)
    ensures Bits(v, n) == HighFirst(c, n) <==> Rev(v, n) == c
  {
    if Bits(v, n) == HighFirst(c, n) {
      assert Reversed(Reversed(Bits(c, n))) == Bits(c, n);
      ValOfBits(c, n);
      LowAll(c, n);
    }
    if Rev(v, n) == c {
      RevBits(v, n);
      assert Reversed(Reversed(Bits(v, n))) == Bits(v, n);
    }
  }

  /** 16 bits start with a code exactly if the top bits of the reversed number are that code. */
  lemma StartsIffTop(lens: seq<nat>, i: nat, v: nat)
    requires i < |lens| && 0 < lens[i] <= 15 && Fits(lens)
    ensures Starts(lens, i, Bits(v, 16)) <==> Shr(Rev(v, 16), 16 - lens[i]) == CodeOf(lens, i)
  {
    hide CodeOf, Fits, Rev, HighFirst;
    var s := lens[i];
    CodeRange(lens, i);
    BitsSplit(v, s, 16 - s);
    assert Bits(v, 16)[..s] == Bits(v, s);
    ReversedNumbers(v, CodeOf(lens, i), s);
    RevTop(v, s, 16 - s);
  }

  /** The first number past those that start with codes of length at most `l`. */
  function Past(lens: seq<nat>, l: nat): nat
    requires l <= 16
  {
    Shl(End(lens, l), 16 - l)
  }

  lemma {:induction false} PastMono(lens: seq<nat>, l: nat, m: nat)
    requires l <= m <= 16
    ensures Past(lens, l) <= Past(lens, m)
  {
    if l < m {
      PastMono(lens, l, m - 1);
      ShlDouble(End(lens, m - 1), 16 - m);
      ShlMono(2 * End(lens, m - 1), End(lens, m), 16 - m);
    }
  }

  /** A number that starts with a code of length `l` is past the shorter codes and not past those of length `l`. */
  lemma CodeInterval(lens: seq<nat>, i: nat, k: nat)
    requires i < |lens| && 0 < lens[i] <= 15 && Fits(lens) && Shr(k, 16 - lens[i]) == CodeOf(lens, i)
    ensures Past(lens, lens[i] - 1) <= k < Past(lens, lens[i])
  {
    var s := lens[i];
    CodeRange(lens, i);
    ShrBelow(k, 16 - s, End(lens, s));
    ShrBelow(k, 16 - s, First(lens, s));
    ShlDouble(End(lens, s - 1), 16 - s);
  }

  lemma {:induction false} EndGrows(lens: seq<nat>, l: nat, m: nat)
    requires l < m
    ensures Shl(End(lens, l), m - l) <= 2 * End(lens, m - 1)
  {
    if l + 1 < m {
      EndGrows(lens, l, m - 1);
    }
  }

  /** The codes are ordered as section 3.2.2 of RFC 1951 says: by symbol within a length, and shorter codes before longer ones. */
  lemma CanonicalOrder(lens: seq<nat>, i: nat, j: nat)
    requires i < |lens| && j < |lens| && lens[i] > 0 && lens[j] > 0
    ensures lens[i] == lens[j] && i < j ==> CodeOf(lens, i) < CodeOf(lens, j)
    ensures lens[i] < lens[j] ==> Shl(CodeOf(lens, i) + 1, lens[j] - lens[i]) <= CodeOf(lens, j)
  {
    if lens[i] == lens[j] && i < j {
      CountMono(lens, i, j, lens[i]);
    } else if lens[i] < lens[j] {
      CountMono(lens, i, |lens|, lens[i]);
      assert lens[..|lens|] == lens;
      ShlMono(CodeOf(lens, i) + 1, End(lens, lens[i]), lens[j] - lens[i]);
      EndGrows(lens, lens[i], lens[j]);
    }
  }

  /** No stream of bits starts with the codes of two symbols. */
  lemma PrefixFree(lens: seq<nat>, i: nat, j: nat, v: nat)
    requires Short(lens) && Fits(lens) && Starts(lens, i, Bits(v, 16)) && Starts(lens, j, Bits(v, 16))
    ensures i == j
  {
    hide Starts, Fits, CodeOf, Past, Rev;
    StartsIsSymbol(lens, i, Bits(v, 16));
    StartsIsSymbol(lens, j, Bits(v, 16));
    var k := Rev(v, 16);
    StartsIffTop(lens, i, v);
    StartsIffTop(lens, j, v);
    CodeInterval(lens, i, k);
    CodeInterval(lens, j, k);
    if lens[i] < lens[j] {
      PastMono(lens, lens[i], lens[j] - 1);
    } else if lens[j] < lens[i] {
      PastMono(lens, lens[j], lens[i] - 1);
    } else {
      SameCode(lens, i, j);
    }
  }

  lemma StartsIsSymbol(lens: seq<nat>, i: nat, w: seq<bool>)
    requires Starts(lens, i, w)
    ensures i < |lens| && lens[i] > 0
  {
  }

  lemma SameCode(lens: seq<nat>, i: nat, j: nat)
    requires i < |lens| && j < |lens| && 0 < lens[i] == lens[j] && CodeOf(lens, i) == CodeOf(lens, j)
    ensures i == j
  {
    if i < j {
      CountMono(lens, i, j, lens[i]);
    } else if j < i {
      CountMono(lens, j, i, lens[i]);
    }
  }

  /** Between the ends of two lengths the code of the longer length is found by subtraction. */
  lemma FoundByOffset(lens: seq<nat>, l: nat, v: nat)
    requires Short(lens) && Fits(lens) && 0 < l <= 15 && Past(lens, l - 1) <= Rev(v, 16) < Past(lens, l)
    ensures var c := Shr(Rev(v, 16), 16 - l);
            && First(lens, l) <= c && c - First(lens, l) < Count(lens, l)
            && var i := Nth(lens, l, c - First(lens, l));
               Starts(lens, i, Bits(v, 16)) && Rank(lens, i) == Below(lens, l) + c - First(lens, l)
  {
    hide Starts, Fits, Rev;
    var k := Rev(v, 16);
    ShrBelow(k, 16 - l, End(lens, l));
    ShrBelow(k, 16 - l, First(lens, l));
    ShlDouble(End(lens, l - 1), 16 - l);
    StartsIffTop(lens, Nth(lens, l, Shr(k, 16 - l) - First(lens, l)), v);
  }

  /** Up to the end of length `l` some code of at most that length is found. */
  lemma {:induction false} Tiled(lens: seq<nat>, l: nat, v: nat) returns (i: nat)
    requires Short(lens) && Fits(lens) && l <= 15 && Rev(v, 16) < Past(lens, l)
    ensures Starts(lens, i, Bits(v, 16)) && lens[i] <= l
  {
    hide Starts, Fits, Rev;
    if l == 0 {
      ShlOne(16);
    } else if Rev(v, 16) < Past(lens, l - 1) {
      i := Tiled(lens, l - 1, v);
    } else {
      FoundByOffset(lens, l, v);
      i := Nth(lens, l, Shr(Rev(v, 16), 16 - l) - First(lens, l));
      StartsIsSymbol(lens, i, Bits(v, 16));
    }
  }

  /** Past the end of length `l` no code of at most that length is found. */
  lemma NoneUpTo(lens: seq<nat>, l: nat, v: nat, i: nat)
    requires Short(lens) && Fits(lens) && l <= 15 && Rev(v, 16) >= Past(lens, l) && i < |lens| && lens[i] <= l
    ensures !Starts(lens, i, Bits(v, 16))
  {
    hide Fits, Rev, CodeOf, Past, Codeword;
    if lens[i] > 0 && Starts(lens, i, Bits(v, 16)) {
      StartsIffTop(lens, i, v);
      CodeInterval(lens, i, Rev(v, 16));
      PastMono(lens, lens[i], l);
    }
  }
}
