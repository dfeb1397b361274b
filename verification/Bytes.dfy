/** Machine integers and little-endian field access, as the C sources use them. */
module Bytes {

  type byte = x: int | 0 <= x < 0x100
  type word = x: int | 0 <= x < 0x1_0000
  type dword = x: int | 0 <= x < 0x1_0000_0000

  const TWO32: int := 0x1_0000_0000

  /** The sector size selected by the configuration (FF_MIN_SS == FF_MAX_SS == 512). */
  const SS: int := 512

  type Sector = s: seq<byte> | |s| == SS witness seq(SS, _ => 0)

  /** Sector number and offset in the sector of byte position `k`. */
  function SecNo(k: nat): nat {
    k / SS
  }

  function SecOfs(k: nat): (r: nat)
    ensures r < SS && k == SS * SecNo(k) + r
  {
    k % SS
  }

  /** Unsigned 32-bit subtraction with wrap-around. */
  function Sub32(a: dword, b: dword): dword {
    (a - b) % TWO32
  }

  /** The unsigned test `a - b < n` is a range test as long as the range does not wrap. */
  lemma Sub32InRange(a: dword, b: dword, n: nat)
    requires b + n <= TWO32
    ensures Sub32(a, b) < n <==> b <= a < b + n
  {
    if a >= b {
      DivModUnique(a - b, TWO32, 0, a - b);
    } else {
      DivModUnique(a - b, TWO32, -1, a - b + TWO32);
    }
  }

  function Min(a: int, b: int): int {
    if a < b then a else b
  }

  function Max(a: int, b: int): int {
    if a < b then b else a
  }

  function LdWord(b0: byte, b1: byte): word {
    b0 + 0x100 * b1
  }

  function LdDword(b0: byte, b1: byte, b2: byte, b3: byte): dword {
    b0 + 0x100 * b1 + 0x1_0000 * b2 + 0x100_0000 * b3
  }

  /** Byte `i` of the little-endian representation of `v`. */
  function ByteOf(v: dword, i: nat): byte
    requires i < 4
  {
    match i
    case 0 => v % 0x100
    case 1 => v / 0x100 % 0x100
    case 2 => v / 0x100 / 0x100 % 0x100
    case _ => v / 0x100 / 0x100 / 0x100
  }

  /** Quotient and remainder are determined by the division equation. */
  lemma DivModUnique(a: int, b: int, q: int, r: int)
    requires 0 <= r < b && a == b * q + r
    ensures a / b == q && a % b == r
  {
    var d := q - a / b;
    assert b * d == a % b - r by {
      assert a == b * (a / b) + a % b;
      assert b * d == b * q - b * (a / b);
    }
    if d >= 1 {
      MulAtLeast(b, d);
    } else if d <= -1 {
      MulAtLeast(b, -d);
    }
  }

  lemma MulAtLeast(b: int, d: int)
    requires b >= 0 && d >= 1
    ensures b * d >= b && b * -d <= -b
  {
    assert b * d == b + b * (d - 1);
    assert b * -d == -(b * d);
  }

  /** Storing a double word and loading it again gives it back. */
  lemma DwordRoundTrip(v: dword)
    ensures LdDword(ByteOf(v, 0), ByteOf(v, 1), ByteOf(v, 2), ByteOf(v, 3)) == v
  {
    var q1 := v / 0x100;
    var q2 := q1 / 0x100;
    assert v == 0x100 * q1 + v % 0x100 && q1 == 0x100 * q2 + q1 % 0x100 && q2 == 0x100 * (q2 / 0x100) + q2 % 0x100;
    assert q2 / 0x100 < 0x100;
  }

  /** `s` with the bytes of `d` written over position `p`, growing `s` if needed. */
  function Splice(s: seq<byte>, p: nat, d: seq<byte>): (r: seq<byte>)
    requires p <= |s|
    ensures |r| == Max(|s|, p + |d|)
    ensures forall k :: 0 <= k < |r| ==> r[k] == if p <= k < p + |d| then d[k - p] else s[k]
  {
    if p + |d| <= |s| then s[..p] + d + s[p + |d|..] else s[..p] + d
  }

  lemma SpliceNothing(s: seq<byte>, p: nat, d: seq<byte>)
    requires p <= |s| && d == []
    ensures Splice(s, p, d) == s
  {
  }

  /** Two adjacent writes are one write of the concatenation. */
  lemma SpliceSplit(s: seq<byte>, p: nat, d: seq<byte>, e: seq<byte>)
    requires p <= |s|
    ensures Splice(Splice(s, p, d), p + |d|, e) == Splice(s, p, d + e)
  {
  }

  /** A write continued by the next piece of the same data. */
  lemma SpliceNext(s: seq<byte>, p: nat, d: seq<byte>, i: nat, n: nat)
    requires p <= |s| && i + n <= |d|
    ensures Splice(Splice(s, p, d[..i]), p + i, d[i..i + n]) == Splice(s, p, d[..i + n])
  {
    SpliceSplit(s, p, d[..i], d[i..i + n]);
    assert d[..i] + d[i..i + n] == d[..i + n];
  }

  /** Sector-sized piece `i` of `d`. */
  function Chunk(d: seq<byte>, i: int): seq<byte> {
    if 0 <= i && SS * i + SS <= |d| then d[SS * i..SS * i + SS] else []
  }

  /** `l'` is `l` with the `cc` sectors from `s` on replaced by the bytes `d`. */
  ghost predicate RunWritten(l: seq<Sector>, l': seq<Sector>, s: int, cc: nat, d: seq<byte>) {
    && |l'| == |l| && 0 <= s && s + cc <= |l| && |d| == SS * cc
    && (forall t :: 0 <= t < |l| && !(s <= t < s + cc) ==> l'[t] == l[t])
    && (forall t :: s <= t < s + cc ==> l'[t] == Chunk(d, t - s))
  }

  /** The bytes of the `cc` sectors of `v` from `s` on. */
  function RunData(v: seq<Sector>, s: int, cc: nat): (r: seq<byte>)
    requires 0 <= s && s + cc <= |v|
    ensures |r| == SS * cc
  {
    seq(SS * cc, j requires 0 <= j < SS * cc => v[s + j / SS][j % SS])
  }

  /** Patching the data read with sector `t` is reading after replacing that sector. */
  lemma PatchRun(v: seq<Sector>, s: int, cc: nat, t: int, w: Sector, a: seq<byte>, off: nat)
    requires 0 <= s <= t < s + cc && s + cc <= |v| && off + SS * cc <= |a|
    ensures off + (t - s) * SS <= |Splice(a, off, RunData(v, s, cc))|
    ensures Splice(Splice(a, off, RunData(v, s, cc)), off + (t - s) * SS, w) == Splice(a, off, RunData(v[t := w], s, cc))
  {
    var b := Splice(a, off, RunData(v, s, cc));
    var x, y := Splice(b, off + (t - s) * SS, w), Splice(a, off, RunData(v[t := w], s, cc));
    forall k | 0 <= k < |x| ensures x[k] == y[k] {
      if off <= k < off + SS * cc {
        var j := k - off;
        if (t - s) * SS <= j < (t - s) * SS + SS {
          DivModUnique(j, SS, t - s, j - (t - s) * SS);
        }
      }
    }
  }

  /** A one-sector read into the whole buffer leaves the sector there. */
  lemma LoadedSector(b: Sector, w: Sector, l: seq<Sector>, s: int)
    requires 0 <= s < |l| && w == Splice(b, 0, RunData(l, s, 1))
    ensures w == l[s]
  {
    forall j | 0 <= j < SS ensures w[j] == l[s][j] {
      DivModUnique(j, SS, 0, j);
    }
  }

  /** The data of a run depends only on its sectors. */
  lemma SameRunData(v: seq<Sector>, v': seq<Sector>, s: int, cc: nat)
    requires 0 <= s && s + cc <= |v| && s + cc <= |v'| && forall t :: s <= t < s + cc ==> v[t] == v'[t]
    ensures RunData(v, s, cc) == RunData(v', s, cc)
  {
    forall j | 0 <= j < SS * cc ensures RunData(v, s, cc)[j] == RunData(v', s, cc)[j] {
      var t := s + j / SS;
      assert s <= t < s + cc;
    }
  }

  lemma RunOfOne(l: seq<Sector>, l': seq<Sector>, s: int, d: Sector)
    requires RunWritten(l, l', s, 1, d)
    ensures l' == l[s := d]
  {
    assert Chunk(d, 0) == d;
  }

  lemma SliceOfSlice(s: seq<byte>, lo: nat, hi: nat, a: nat, b: nat)
    requires lo <= hi <= |s| && a <= b <= hi - lo
    ensures s[lo..hi][a..b] == s[lo + a..lo + b]
  {
    var d, x, y := s[lo..hi], s[lo..hi][a..b], s[lo + a..lo + b];
    forall k | 0 <= k < b - a ensures x[k] == y[k] {
      assert x[k] == d[a + k] && d[a + k] == s[lo + (a + k)] && y[k] == s[lo + a + k];
    }
    assert x == y;
  }

  lemma ChunkOfSlice(s: seq<byte>, off: nat, cc: nat, i: nat)
    requires off + SS * cc <= |s| && i < cc
    ensures Chunk(s[off..off + SS * cc], i) == s[off + SS * i..off + SS * i + SS]
  {
    var d := s[off..off + SS * cc];
    var a := SS * i;
    assert a + SS <= |d|;
    SliceOfSlice(s, off, off + SS * cc, a, a + SS);
  }

  /** memcpy between different buffers. */
  method CopyBytes(dst: array<byte>, to: nat, src: array<byte>, from: nat, n: nat)
    requires dst != src && to + n <= dst.Length && from + n <= src.Length
    modifies dst
    ensures dst[..] == Splice(old(dst[..]), to, src[from..from + n])
  {
    for i := 0 to n
      invariant forall k :: 0 <= k < dst.Length ==> dst[k] == if to <= k < to + i then src[from + k - to] else old(dst[k])
    {
      dst[to + i] := src[from + i];
    }
  }
}
