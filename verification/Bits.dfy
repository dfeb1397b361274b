/** Numbers as bit strings, bit 0 first, with the shifts and masks of the C sources. */
module BitStrings {

  function Pow2(n: nat): (r: nat)
    ensures r > 0
  {
    if n == 0 then 1 else 2 * Pow2(n - 1)
  }

  lemma {:induction false} Pow2Mono(m: nat, n: nat)
    requires m <= n
    ensures Pow2(m) <= Pow2(n)
  {
    if m < n {
      Pow2Mono(m, n - 1);
    }
  }

  /** `v << n` and `v >> n` */
  function Shl(v: nat, n: nat): nat {
    if n == 0 then v else 2 * Shl(v, n - 1)
  }

  function Shr(v: nat, n: nat): nat {
    if n == 0 then v else Shr(v / 2, n - 1)
  }

  predicate BitAt(v: nat, i: nat) {
    if i == 0 then v % 2 == 1 else BitAt(v / 2, i - 1)
  }

  /** The lowest `n` bits of `v`. */
  function Bits(v: nat, n: nat): (r: seq<bool>)
    ensures |r| == n
  {
    if n == 0 then [] else [v % 2 == 1] + Bits(v / 2, n - 1)
  }

  function Val(s: seq<bool>): (v: nat)
    ensures v < Pow2(|s|)
  {
    if s == [] then 0 else (if s[0] then 1 else 0) + 2 * Val(s[1..])
  }

  /** `v & ((1 << n) - 1)` */
  function Low(v: nat, n: nat): (r: nat)
    ensures r < Pow2(n)
  {
    if n == 0 then 0 else v % 2 + 2 * Low(v / 2, n - 1)
  }

  lemma {:induction false} ShlOne(n: nat)
    ensures Shl(1, n) == Pow2(n) && Shl(0, n) == 0
  {
    if n > 0 {
      ShlOne(n - 1);
    }
  }

  lemma {:induction false} ShlAdd(u: nat, v: nat, n: nat)
    ensures Shl(u + v, n) == Shl(u, n) + Shl(v, n)
  {
    if n > 0 {
      ShlAdd(u, v, n - 1);
    }
  }

  lemma ShlMono(u: nat, v: nat, n: nat)
    requires u <= v
    ensures Shl(u, n) <= Shl(v, n)
  {
    ShlAdd(u, v - u, n);
  }

  /** Shifting on: `(2 * v) << n == v << (n + 1)`. */
  lemma {:induction false} ShlDouble(v: nat, n: nat)
    ensures Shl(2 * v, n) == Shl(v, n + 1)
  {
    if n > 0 {
      ShlDouble(v, n - 1);
    }
  }

  /** A shifted number is below `c` exactly if the number is below `c` shifted back. */
  lemma {:induction false} ShrBelow(v: nat, n: nat, c: nat)
    ensures Shr(v, n) < c <==> v < Shl(c, n)
  {
    if n > 0 {
      ShrBelow(v / 2, n - 1, c);
    }
  }

  lemma {:induction false} ShrRange(v: nat, n: nat, m: nat)
    requires v < Pow2(n + m)
    ensures Shr(v, n) < Pow2(m)
  {
    if n > 0 {
      ShrRange(v / 2, n - 1, m);
    }
  }

  lemma {:induction false} ShrShr(v: nat, m: nat, n: nat)
    ensures Shr(Shr(v, m), n) == Shr(v, m + n)
  {
    if m > 0 {
      ShrShr(v / 2, m - 1, n);
    }
  }

  lemma {:induction false} BitsAt(v: nat, n: nat, i: nat)
    requires i < n
    ensures Bits(v, n)[i] == BitAt(v, i)
  {
    if i > 0 {
      BitsAt(v / 2, n - 1, i - 1);
    }
  }

  lemma {:induction false} ValOfBits(v: nat, n: nat)
    ensures Val(Bits(v, n)) == Low(v, n)
  {
    if n > 0 {
      ValOfBits(v / 2, n - 1);
      assert Bits(v, n)[1..] == Bits(v / 2, n - 1);
    }
  }

  lemma {:induction false} BitsOfVal(s: seq<bool>)
    ensures Bits(Val(s), |s|) == s
  {
    if s != [] {
      BitsOfVal(s[1..]);
      assert Val(s) / 2 == Val(s[1..]);
      assert s == [s[0]] + s[1..];
    }
  }

  lemma {:induction false} LowAll(v: nat, n: nat)
    requires v < Pow2(n)
    ensures Low(v, n) == v
  {
    if n > 0 {
      LowAll(v / 2, n - 1);
    }
  }

  lemma {:induction false} LowLow(v: nat, m: nat, n: nat)
    requires m <= n
    ensures Low(Low(v, n), m) == Low(v, m)
  {
    if m > 0 {
      LowLow(v / 2, m - 1, n - 1);
      assert Low(v, n) / 2 == Low(v / 2, n - 1);
    }
  }

  /** The lowest `n` bits, then the next `m`. */
  lemma {:induction false} BitsSplit(v: nat, n: nat, m: nat)
    ensures Bits(v, n + m) == Bits(v, n) + Bits(Shr(v, n), m)
  {
    if n > 0 {
      BitsSplit(v / 2, n - 1, m);
    }
  }

  /** Bits put above `n` bits. */
  lemma {:induction false} BitsAppend(v: nat, n: nat, b: nat, m: nat)
    requires v < Pow2(n)
    ensures Bits(v + Shl(b, n), n + m) == Bits(v, n) + Bits(b, m)
  {
    if n > 0 {
      BitsAppend(v / 2, n - 1, b, m);
      assert (v + Shl(b, n)) / 2 == v / 2 + Shl(b, n - 1);
    }
  }

  lemma {:induction false} AppendBound(v: nat, n: nat, b: nat, m: nat)
    requires v < Pow2(n) && b < Pow2(m)
    ensures v + Shl(b, n) < Pow2(n + m)
  {
    if n > 0 {
      AppendBound(v / 2, n - 1, b, m);
    }
  }

  /** Equal bits, equal numbers. */
  lemma BitsEqual(u: nat, v: nat, n: nat)
    requires u < Pow2(n) && v < Pow2(n) && Bits(u, n) == Bits(v, n)
    ensures u == v
  {
    ValOfBits(u, n);
    ValOfBits(v, n);
    LowAll(u, n);
    LowAll(v, n);
  }

  function Reversed(s: seq<bool>): (r: seq<bool>)
    ensures |r| == |s| && forall i :: 0 <= i < |s| ==> r[i] == s[|s| - 1 - i]
  {
    seq(|s|, i requires 0 <= i < |s| => s[|s| - 1 - i])
  }

  /** The `n` bits of `v`, highest first. */
  function HighFirst(v: nat, n: nat): (r: seq<bool>)
    ensures |r| == n
  {
    Reversed(Bits(v, n))
  }

  /** The number with the lowest `n` bits of `v` in the opposite order. */
  function Rev(v: nat, n: nat): (r: nat)
    ensures r < Pow2(n)
  {
    Val(HighFirst(v, n))
  }

  lemma RevBits(v: nat, n: nat)
    ensures Bits(Rev(v, n), n) == HighFirst(v, n)
  {
    BitsOfVal(HighFirst(v, n));
  }

  lemma SameTail(a: seq<bool>, b: seq<bool>, x: seq<bool>, y: seq<bool>)
    requires |a| == |b| && a + x == b + y
    ensures a == b && x == y
  {
    assert a == (a + x)[..|a|] && b == (b + y)[..|b|];
    assert x == (a + x)[|a|..] && y == (b + y)[|b|..];
  }

  /** The top `n` bits of a reversal are the reversal of the lowest `n`. */
  lemma RevTop(v: nat, n: nat, m: nat)
    ensures Shr(Rev(v, n + m), m) == Rev(v, n)
  {
    var r := Rev(v, n + m);
    RevBits(v, n + m);
    BitsSplit(v, n, m);
    BitsSplit(r, m, n);
    var hi := Reversed(Bits(Shr(v, n), m));
    assert HighFirst(v, n + m) == hi + HighFirst(v, n);
    SameTail(Bits(r, m), hi, Bits(Shr(r, m), n), HighFirst(v, n));
    RevBits(v, n);
    ShrRange(r, m, n);
    BitsEqual(Shr(r, m), Rev(v, n), n);
  }
}
