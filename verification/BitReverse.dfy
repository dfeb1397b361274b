/** Bit reversal by masks and shifts. */
module BitReversal {
  import opened BitStrings

  /** `a & b` and `a | b` */
  function And(a: nat, b: nat): nat
    decreases a
  {
    if a == 0 then 0 else (if a % 2 == 1 && b % 2 == 1 then 1 else 0) + 2 * And(a / 2, b / 2)
  }

  function Or(a: nat, b: nat): nat
    decreases a + b
  {
    if a == 0 then b else if b == 0 then a else
    (if a % 2 == 1 || b % 2 == 1 then 1 else 0) + 2 * Or(a / 2, b / 2)
  }

  /** Exchange the bits selected by `hi` with those `d` places below, selected by `lo`. */
  function Exchange(n: nat, hi: nat, lo: nat, d: nat): nat {
    Or(Shr(And(n, hi), d), Shl(And(n, lo), d))
  }

  /** stbi__bitreverse16 */
  function BitReverse16(n: nat): nat {
    var n1 := Exchange(n, 0xAAAA, 0x5555, 1);
    var n2 := Exchange(n1, 0xCCCC, 0x3333, 2);
    var n3 := Exchange(n2, 0xF0F0, 0x0F0F, 4);
    Exchange(n3, 0xFF00, 0x00FF, 8)
  }

  /** stbi__bit_reverse */
  function BitReverse(v: nat, bits: nat): nat
    requires bits <= 16
  {
    Shr(BitReverse16(v), 16 - bits)
  }

  lemma {:induction false} NoBit(v: nat, n: nat, i: nat)
    requires v < Pow2(n) && n <= i
    ensures !BitAt(v, i)
  {
    if i > 0 {
      NoBit(v / 2, if n > 0 then n - 1 else 0, i - 1);
    }
  }

  lemma {:induction false} AndBit(a: nat, b: nat, i: nat)
    ensures BitAt(And(a, b), i) <==> BitAt(a, i) && BitAt(b, i)
    decreases i
  {
    if a == 0 {
      NoBit(0, 0, i);
    } else {
      assert And(a, b) / 2 == And(a / 2, b / 2);
      if i > 0 {
        AndBit(a / 2, b / 2, i - 1);
      }
    }
  }

  lemma {:induction false} OrBit(a: nat, b: nat, i: nat)
    ensures BitAt(Or(a, b), i) <==> BitAt(a, i) || BitAt(b, i)
    decreases i
  {
    if a == 0 || b == 0 {
      NoBit(0, 0, i);
    } else {
      assert Or(a, b) / 2 == Or(a / 2, b / 2);
      if i > 0 {
        OrBit(a / 2, b / 2, i - 1);
      }
    }
  }

  lemma {:induction false} ShrBit(v: nat, n: nat, i: nat)
    ensures BitAt(Shr(v, n), i) == BitAt(v, i + n)
  {
    if n > 0 {
      ShrBit(v / 2, n - 1, i);
    }
  }

  lemma {:induction false} ShlBit(v: nat, n: nat, i: nat)
    ensures BitAt(Shl(v, n), i) <==> i >= n && BitAt(v, i - n)
    decreases n
  {
    if n > 0 {
      if i > 0 {
        ShlBit(v, n - 1, i - 1);
      }
      assert Shl(v, n) / 2 == Shl(v, n - 1);
    }
  }

  /** Bit `i` of an exchange: the one `d` above if `hi` selects that, or the one `d` below if `lo` selects that. */
  lemma ExchangeBit(n: nat, hi: nat, lo: nat, d: nat, i: nat)
    ensures BitAt(Exchange(n, hi, lo, d), i) <==>
            (BitAt(n, i + d) && BitAt(hi, i + d)) || (i >= d && BitAt(n, i - d) && BitAt(lo, i - d))
  {
    hide BitAt, And, Or, Shl, Shr;
    OrBit(Shr(And(n, hi), d), Shl(And(n, lo), d), i);
    ShrBit(And(n, hi), d, i);
    AndBit(n, hi, i + d);
    ShlBit(And(n, lo), d, i);
    if i >= d {
      AndBit(n, lo, i - d);
    }
  }

  /** The bits of a number below 2^16, spelled out. */
  predicate Bit16(v: nat, i: nat) {
    match i
    case 0 => v % 2 == 1
    case 1 => v / 2 % 2 == 1
    case 2 => v / 4 % 2 == 1
    case 3 => v / 8 % 2 == 1
    case 4 => v / 16 % 2 == 1
    case 5 => v / 32 % 2 == 1
    case 6 => v / 64 % 2 == 1
    case 7 => v / 128 % 2 == 1
    case 8 => v / 256 % 2 == 1
    case 9 => v / 512 % 2 == 1
    case 10 => v / 1024 % 2 == 1
    case 11 => v / 2048 % 2 == 1
    case 12 => v / 4096 % 2 == 1
    case 13 => v / 8192 % 2 == 1
    case 14 => v / 16384 % 2 == 1
    case 15 => v / 32768 % 2 == 1
    case _ => false
  }

  lemma {:induction false} Bit16Is(v: nat, i: nat)
    requires v < 65536
    ensures BitAt(v, i) == Bit16(v, i)
  {
    if i > 0 {
      Bit16Is(v / 2, i - 1);
      Halves(v);
    }
  }

  lemma Halves(v: nat)
    ensures v / 2 / 2 == v / 4
    ensures v / 2 / 4 == v / 8
    ensures v / 2 / 8 == v / 16
    ensures v / 2 / 16 == v / 32
    ensures v / 2 / 32 == v / 64
    ensures v / 2 / 64 == v / 128
    ensures v / 2 / 128 == v / 256
    ensures v / 2 / 256 == v / 512
    ensures v / 2 / 512 == v / 1024
    ensures v / 2 / 1024 == v / 2048
    ensures v / 2 / 2048 == v / 4096
    ensures v / 2 / 4096 == v / 8192
    ensures v / 2 / 8192 == v / 16384
    ensures v / 2 / 16384 == v / 32768
  {
  }

  lemma Mask1(j: nat)
    ensures BitAt(0xAAAA, j) <==> j < 16 && j % 2 == 1
    ensures BitAt(0x5555, j) <==> j < 16 && j % 2 == 0
  {
    hide BitAt;
    Bit16Is(0xAAAA, j);
    Bit16Is(0x5555, j);
  }

  lemma Stage1(n: nat, i: nat)
    ensures BitAt(Exchange(n, 0xAAAA, 0x5555, 1), i) <==> i < 16 && BitAt(n, if i % 2 == 0 then i + 1 else i - 1)
  {
    hide BitAt, Exchange;
    ExchangeBit(n, 0xAAAA, 0x5555, 1, i);
    Mask1(i + 1);
    if i >= 1 {
      Mask1(i - 1);
    }
  }

  lemma Mask2(j: nat)
    ensures BitAt(0xCCCC, j) <==> j < 16 && j % 4 >= 2
    ensures BitAt(0x3333, j) <==> j < 16 && j % 4 < 2
  {
    hide BitAt;
    Bit16Is(0xCCCC, j);
    Bit16Is(0x3333, j);
  }

  lemma Stage2(n: nat, i: nat)
    ensures BitAt(Exchange(n, 0xCCCC, 0x3333, 2), i) <==> i < 16 && BitAt(n, if i % 4 < 2 then i + 2 else i - 2)
  {
    hide BitAt, Exchange;
    ExchangeBit(n, 0xCCCC, 0x3333, 2, i);
    Mask2(i + 2);
    if i >= 2 {
      Mask2(i - 2);
    }
  }

  lemma Mask4(j: nat)
    ensures BitAt(0xF0F0, j) <==> j < 16 && j % 8 >= 4
    ensures BitAt(0x0F0F, j) <==> j < 16 && j % 8 < 4
  {
    hide BitAt;
    Bit16Is(0xF0F0, j);
    Bit16Is(0x0F0F, j);
  }

  lemma Stage4(n: nat, i: nat)
    ensures BitAt(Exchange(n, 0xF0F0, 0x0F0F, 4), i) <==> i < 16 && BitAt(n, if i % 8 < 4 then i + 4 else i - 4)
  {
    hide BitAt, Exchange;
    ExchangeBit(n, 0xF0F0, 0x0F0F, 4, i);
    Mask4(i + 4);
    if i >= 4 {
      Mask4(i - 4);
    }
  }

  lemma Mask8(j: nat)
    ensures BitAt(0xFF00, j) <==> 8 <= j < 16
    ensures BitAt(0x00FF, j) <==> j < 8
  {
    hide BitAt;
    Bit16Is(0xFF00, j);
    Bit16Is(0x00FF, j);
  }

  lemma Stage8(n: nat, i: nat)
    ensures BitAt(Exchange(n, 0xFF00, 0x00FF, 8), i) <==> i < 16 && BitAt(n, if i < 8 then i + 8 else i - 8)
  {
    hide BitAt, Exchange;
    ExchangeBit(n, 0xFF00, 0x00FF, 8, i);
    Mask8(i + 8);
    if i >= 8 {
      Mask8(i - 8);
    }
  }

  /** Exchanging places 8, 4, 2 and 1 apart turns the order around. */
  lemma Places(i: nat)
    requires i < 16
    ensures var i3 := if i < 8 then i + 8 else i - 8;
            var i2 := if i3 % 8 < 4 then i3 + 4 else i3 - 4;
            var i1 := if i2 % 4 < 2 then i2 + 2 else i2 - 2;
            && i3 < 16 && 0 <= i2 < 16 && 0 <= i1 < 16
            && (if i1 % 2 == 0 then i1 + 1 else i1 - 1) == 15 - i
  {
  }

  lemma ReverseBit(n: nat, i: nat)
    ensures BitAt(BitReverse16(n), i) <==> i < 16 && BitAt(n, 15 - i)
  {
    hide BitAt, Exchange;
    var n1 := Exchange(n, 0xAAAA, 0x5555, 1);
    var n2 := Exchange(n1, 0xCCCC, 0x3333, 2);
    var n3 := Exchange(n2, 0xF0F0, 0x0F0F, 4);
    Stage8(n3, i);
    if i < 16 {
      Places(i);
      var i3 := if i < 8 then i + 8 else i - 8;
      Stage4(n2, i3);
      var i2 := if i3 % 8 < 4 then i3 + 4 else i3 - 4;
      Stage2(n1, i2);
      var i1 := if i2 % 4 < 2 then i2 + 2 else i2 - 2;
      Stage1(n, i1);
    }
  }

  /** A number without bits from `n` on is below 2^n. */
  lemma {:induction false} BitBound(v: nat, n: nat)
    requires forall i :: n <= i ==> !BitAt(v, i)
    ensures v < Pow2(n)
    decreases v, n
  {
    if v == 0 {
    } else if n == 0 {
      assert !BitAt(v, 0);
      forall i: nat ensures !BitAt(v / 2, i) {
        assert !BitAt(v, i + 1);
      }
      BitBound(v / 2, 0);
    } else {
      forall i | n - 1 <= i ensures !BitAt(v / 2, i) {
        assert !BitAt(v, i + 1);
      }
      BitBound(v / 2, n - 1);
    }
  }

  /** The four exchanges reverse the 16 lowest bits. */
  lemma BitReverse16Reverses(n: nat)
    ensures BitReverse16(n) == Rev(n, 16)
  {
    hide BitAt, BitReverse16, Bits, Rev, Pow2;
    var r := BitReverse16(n);
    forall i | 16 <= i ensures !BitAt(r, i) {
      ReverseBit(n, i);
    }
    BitBound(r, 16);
    RevBits(n, 16);
    forall i | 0 <= i < 16 ensures Bits(r, 16)[i] == HighFirst(n, 16)[i] {
      ReverseBit(n, i);
      BitsAt(r, 16, i);
      BitsAt(n, 16, 15 - i);
    }
    BitsEqual(r, Rev(n, 16), 16);
  }

  /** Reversing 16 bits and shifting reverses fewer. */
  lemma BitReverseReverses(v: nat, bits: nat)
    requires bits <= 16
    ensures BitReverse(v, bits) == Rev(v, bits)
  {
    hide BitReverse16;
    BitReverse16Reverses(v);
    RevTop(v, bits, 16 - bits);
  }
}
