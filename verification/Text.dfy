/** Decimal numbers and formatted text: mini_snprintf and strtol. */
module Text {

  /** A string argument or a signed 32-bit number. */
  datatype Arg = Str(s: string) | Num(v: int)

  predicate IsDigit(c: char) {
    '0' <= c <= '9'
  }

  function DigitChar(d: nat): (c: char)
    requires d < 10
    ensures IsDigit(c)
  {
    '0' + d as char
  }

  lemma DigitNames(d: nat)
    requires d < 10
    ensures DigitChar(d) == "0123456789"[d] && DigitValue("0123456789"[d]) == d
  {
  }

  function DigitValue(c: char): (d: nat)
    requires IsDigit(c)
    ensures d < 10
  {
    c as int - '0' as int
  }

  function Decimal(v: nat): (s: string)
    ensures |s| > 0
  {
    if v < 10 then [DigitChar(v)] else Decimal(v / 10) + [DigitChar(v % 10)]
  }

  /* ---- strtol ---- */

  /** The number of digits at the start. */
  function Lead(s: string): (n: nat)
    ensures n <= |s|
  {
    if s == [] || !IsDigit(s[0]) then 0 else 1 + Lead(s[1..])
  }

  function ValueOf(s: string): nat
    requires forall i :: 0 <= i < |s| ==> IsDigit(s[i])
  {
    if s == [] then 0 else 10 * ValueOf(s[..|s| - 1]) + DigitValue(s[|s| - 1])
  }

  lemma {:induction false} LeadIsDigits(s: string, i: nat)
    requires i < Lead(s)
    ensures IsDigit(s[i])
  {
    if i > 0 {
      LeadIsDigits(s[1..], i - 1);
    }
  }

  /** The number at the start of `s`, 0 if there is none, and what follows it. */
  function Number(s: string): (r: (nat, string))
    ensures |r.1| <= |s|
  {
    forall i | 0 <= i < Lead(s) ensures IsDigit(s[i]) {
      LeadIsDigits(s, i);
    }
    (ValueOf(s[..Lead(s)]), s[Lead(s)..])
  }

  /** strtol: the number at position `at` of the text, and the position after it. */
  method Strtol(text: string, at: nat) returns (result: nat, end: nat)
    requires at <= |text|
    ensures at <= end <= |text| && (result, text[end..]) == Number(text[at..])
  {
    result, end := 0, at;
    while end < |text| && IsDigit(text[end])
      invariant at <= end <= |text|
      invariant forall i :: at <= i < end ==> IsDigit(text[i])
      invariant result == ValueOf(text[at..end])
    {
      assert text[at..end + 1][..end - at] == text[at..end];
      result := result * 10 + DigitValue(text[end]);
      end := end + 1;
    }
    LeadIs(text[at..], end - at);
    assert text[at..][..end - at] == text[at..end];
  }

  lemma {:induction false} LeadIs(s: string, n: nat)
    requires n <= |s| && (forall i :: 0 <= i < n ==> IsDigit(s[i])) && (n < |s| ==> !IsDigit(s[n]))
    ensures Lead(s) == n
  {
    if n > 0 {
      LeadIs(s[1..], n - 1);
    }
  }

  lemma {:induction false} DecimalValue(v: nat)
    ensures forall i :: 0 <= i < |Decimal(v)| ==> IsDigit(Decimal(v)[i])
    ensures ValueOf(Decimal(v)) == v
  {
    if v >= 10 {
      DecimalValue(v / 10);
      var s := Decimal(v);
      assert s[..|s| - 1] == Decimal(v / 10);
    }
  }

  /** A printed number is read back, with what follows it, unless that continues with a digit. */
  lemma NumberOfDecimal(v: nat, rest: string)
    requires rest == [] || !IsDigit(rest[0])
    ensures Number(Decimal(v) + rest) == (v, rest)
  {
    var d, s := Decimal(v), Decimal(v) + rest;
    DecimalValue(v);
    forall i | 0 <= i < |d| ensures IsDigit(s[i]) {
      assert s[i] == d[i];
    }
    LeadIs(s, |d|);
    assert s[..|d|] == d && s[|d|..] == rest;
  }

  /* ---- mini_snprintf ---- */

  /** The digits of a number, with its sign. */
  function Signed(v: int): string {
    if v < 0 then "-" + Decimal(-v) else Decimal(v)
  }

  /** A printed number is a minus sign exactly for a negative one, then the digits of its size, without a leading zero. */
  lemma SignedValue(v: int)
    ensures var d := if v < 0 then Signed(v)[1..] else Signed(v);
            && (Signed(v)[0] == '-' <==> v < 0)
            && (forall i :: 0 <= i < |d| ==> IsDigit(d[i])) && ValueOf(d) == (if v < 0 then -v else v)
            && |d| > 0 && (d[0] == '0' <==> v == 0)
  {
    var n := if v < 0 then -v else v;
    DecimalValue(n);
    NoLeadingZero(n);
  }

  lemma {:induction false} NoLeadingZero(v: nat)
    ensures |Decimal(v)| > 0 && (Decimal(v)[0] == '0' <==> v == 0)
  {
    if v >= 10 {
      NoLeadingZero(v / 10);
    }
  }

  /** The text a format and its arguments stand for; a missing argument prints nothing. */
  function Rendered(format: string, args: seq<Arg>): string
    decreases |format|
  {
    if format == [] then ""
    else if format[0] != '%' then [format[0]] + Rendered(format[1..], args)
    else if |format| == 1 then ""
    else if format[1] in "sdu" then
      if args == [] then Rendered(format[2..], args)
      else (match args[0] case Str(s) => s case Num(v) => Signed(v)) + Rendered(format[2..], args[1..])
    else [format[1]] + Rendered(format[2..], args)
  }

  lemma {:induction false} RenderedLiteral(lit: string, format: string, args: seq<Arg>)
    requires '%' !in lit
    ensures Rendered(lit + format, args) == lit + Rendered(format, args)
  {
    if lit == [] {
      assert lit + format == format;
    } else {
      assert (lit + format)[1..] == lit[1..] + format;
      RenderedLiteral(lit[1..], format, args);
      assert lit == [lit[0]] + lit[1..];
    }
  }

  lemma RenderedNumber(v: nat, format: string, args: seq<Arg>)
    ensures Rendered("%d" + format, [Num(v)] + args) == Decimal(v) + Rendered(format, args)
  {
    var f, a := "%d" + format, [Num(v)] + args;
    assert f[0] == '%' && f[1] == 'd' && f[2..] == format && a[1..] == args;
  }

  /** Every directive has an argument of its kind, a number fitting its type. */
  predicate Typed(format: string, args: seq<Arg>)
    decreases |format|
  {
    if format == [] then true
    else if format[0] != '%' then Typed(format[1..], args)
    else if |format| == 1 then true
    else if format[1] in "sdu" then
      && args != [] && (format[1] == 's' <==> args[0].Str?)
      && (args[0].Num? ==> -0x8000_0000 < args[0].v < 0x8000_0000 && (format[1] == 'u' ==> args[0].v >= 0))
      && Typed(format[2..], args[1..])
    else Typed(format[2..], args)
  }

  lemma {:induction false} TypedLiteral(lit: string, format: string, args: seq<Arg>)
    requires '%' !in lit && Typed(format, args)
    ensures Typed(lit + format, args)
  {
    if lit == [] {
      assert lit + format == format;
    } else {
      assert (lit + format)[1..] == lit[1..] + format;
      TypedLiteral(lit[1..], format, args);
    }
  }

  lemma TypedNumber(v: nat, format: string, args: seq<Arg>)
    requires v < 0x8000_0000 && Typed(format, args)
    ensures Typed("%d" + format, [Num(v)] + args)
  {
    var f, a := "%d" + format, [Num(v)] + args;
    assert f[0] == '%' && f[1] == 'd' && f[2..] == format && a[1..] == args;
  }

  /** Numbers of 31 bits have at most ten digits. */
  lemma {:induction false} DecimalLength(v: nat, n: nat)
    requires v < Pow10(n) && n > 0
    ensures |Decimal(v)| <= n
  {
    if v >= 10 {
      FewerDigits(v, n);
      assert n > 1;
      DecimalLength(v / 10, n - 1);
    }
  }

  /** `out` is what fits of `out + rest`, which is `all`. */
  ghost predicate Cut(out: string, rest: string, all: string, limit: nat) {
    if |out| < limit then out + rest == all else |out| == limit && out <= all
  }

  /** One more character, if there is room. */
  lemma CutStep(out: string, c: char, rest: string, all: string, limit: nat)
    requires Cut(out, [c] + rest, all, limit) && |out| < limit
    ensures Cut(out + [c], rest, all, limit)
  {
    assert out + ([c] + rest) == (out + [c]) + rest;
  }

  lemma CutFull(out: string, rest: string, rest': string, all: string, limit: nat)
    requires Cut(out, rest, all, limit) && |out| == limit
    ensures Cut(out, rest', all, limit)
  {
  }

  /** The loop that copies a string argument. */
  method PutString(buf: array<char>, at: nat, s: string, ghost rest: string, ghost all: string) returns (n: nat)
    requires at < buf.Length && Cut(buf[..at], s + rest, all, buf.Length - 1)
    modifies buf
    ensures at <= n < buf.Length && Cut(buf[..n], rest, all, buf.Length - 1)
  {
    n := at;
    var i := 0;
    assert s[0..] == s;
    while i < |s| && n < buf.Length - 1
      invariant at <= n < buf.Length && i <= |s| && Cut(buf[..n], s[i..] + rest, all, buf.Length - 1)
    {
      ghost var out := buf[..n];
      assert s[i..] + rest == [s[i]] + (s[i + 1..] + rest);
      CutStep(out, s[i], s[i + 1..] + rest, all, buf.Length - 1);
      buf[n] := s[i];
      n, i := n + 1, i + 1;
      assert buf[..n] == out + [s[i - 1]];
    }
    if i < |s| {
      CutFull(buf[..n], s[i..] + rest, rest, all, buf.Length - 1);
    } else {
      assert s[i..] + rest == rest;
    }
  }

  function Pow10(n: nat): nat {
    if n == 0 then 1 else 10 * Pow10(n - 1)
  }

  /** The digits of a positive number; none for 0. */
  function Nonzero(v: nat): string {
    if v == 0 then "" else Decimal(v)
  }

  lemma DigitStep(v: nat, s: string)
    requires v > 0
    ensures Nonzero(v) + s == Nonzero(v / 10) + ([DigitChar(v % 10)] + s)
  {
    assert Nonzero(v) == Nonzero(v / 10) + [DigitChar(v % 10)];
  }

  /** The loop that produces the digits, lowest first, into a buffer of 12 characters. */
  method Digits(v: nat) returns (scratch: array<char>, count: nat)
    requires v < 0x8000_0000
    ensures fresh(scratch) && scratch.Length == 12 && count <= 10
    ensures Backwards(scratch[..], count) == Decimal(v)
  {
    hide Decimal, Nonzero, Pow10;
    scratch := new char[12](_ => '0');
    count := 0;
    ZeroText(v);
    if v == 0 {
      scratch[0] := '0';
      count := 1;
      BackwardsStep(scratch[..], scratch[..], 0);
      return;
    }
    var val: nat := v;
    TenDigits();
    while val > 0
      invariant count <= 10 && val < Pow10(10 - count)
      invariant Nonzero(val) + Backwards(scratch[..], count) == Nonzero(v)
    {
      ghost var b := scratch[..];
      DigitStep(val, Backwards(b, count));
      scratch[count] := DigitChar(val % 10);
      BackwardsStep(b, scratch[..], count);
      FewerDigits(val, 10 - count);
      val, count := val / 10, count + 1;
    }
  }

  lemma FewerDigits(v: nat, n: nat)
    requires 0 < v < Pow10(n)
    ensures n > 0 && v / 10 < Pow10(n - 1)
  {
  }

  lemma ZeroText(v: nat)
    ensures Nonzero(0) == "" && Decimal(0) == "0" && (v > 0 ==> Nonzero(v) == Decimal(v))
  {
  }

  lemma TenDigits()
    ensures 0x8000_0000 < Pow10(10)
  {
    assert Pow10(2) == 100;
    assert Pow10(4) == 100 * Pow10(2);
    assert Pow10(6) == 100 * Pow10(4);
    assert Pow10(8) == 100 * Pow10(6);
    assert Pow10(10) == 100 * Pow10(8);
  }

  /** The first `n` characters, last one first. */
  function Backwards(s: string, n: nat): (r: string)
    requires n <= |s|
    ensures |r| == n
  {
    if n == 0 then "" else [s[n - 1]] + Backwards(s, n - 1)
  }

  lemma BackwardsStep(s: string, t: string, n: nat)
    requires n < |s| == |t| && s[..n] == t[..n]
    ensures Backwards(t, n + 1) == [t[n]] + Backwards(s, n)
  {
    BackwardsSame(s, t, n);
  }

  lemma {:induction false} BackwardsSame(s: string, t: string, n: nat)
    requires n <= |s| == |t| && s[..n] == t[..n]
    ensures Backwards(s, n) == Backwards(t, n)
  {
    if n > 0 {
      assert s[n - 1] == s[..n][n - 1] == t[..n][n - 1] == t[n - 1];
      assert s[..n - 1] == s[..n][..n - 1] == t[..n][..n - 1] == t[..n - 1];
      BackwardsSame(s, t, n - 1);
    }
  }

  /** The loop that writes the digits, highest first. */
  method PutBackwards(buf: array<char>, at: nat, scratch: array<char>, m: nat, ghost rest: string, ghost all: string) returns (n: nat)
    requires buf != scratch && m <= scratch.Length
    requires at < buf.Length && Cut(buf[..at], Backwards(scratch[..], m) + rest, all, buf.Length - 1)
    modifies buf
    ensures at <= n < buf.Length && Cut(buf[..n], rest, all, buf.Length - 1)
  {
    hide Cut;
    n := at;
    var count: nat := m;
    ghost var s := scratch[..];
    while count > 0 && n < buf.Length - 1
      invariant at <= n < buf.Length && count <= m && scratch[..] == s
      invariant Cut(buf[..n], Backwards(s, count) + rest, all, buf.Length - 1)
    {
      ghost var out, c := buf[..n], s[count - 1];
      assert Backwards(s, count) + rest == [c] + (Backwards(s, count - 1) + rest);
      CutStep(out, c, Backwards(s, count - 1) + rest, all, buf.Length - 1);
      buf[n] := scratch[count - 1];
      n, count := n + 1, count - 1;
      assert buf[..n] == out + [c];
    }
    if count > 0 {
      CutFull(buf[..n], Backwards(s, count) + rest, rest, all, buf.Length - 1);
    } else {
      assert Backwards(s, 0) + rest == rest;
    }
  }

  /** The branch for a number: sign, then the digits. */
  method PutNumber(buf: array<char>, at: nat, v: int, ghost rest: string, ghost all: string) returns (n: nat)
    requires -0x8000_0000 < v < 0x8000_0000
    requires at < buf.Length && Cut(buf[..at], Signed(v) + rest, all, buf.Length - 1)
    modifies buf
    ensures at <= n < buf.Length && Cut(buf[..n], rest, all, buf.Length - 1)
  {
    hide Cut, Decimal;
    n := at;
    var val: nat := if v < 0 then -v else v;
    if v < 0 {
      assert Signed(v) + rest == "-" + (Decimal(val) + rest);
      n := PutString(buf, at, "-", Decimal(val) + rest, all);
    }
    var scratch, count := Digits(val);
    n := PutBackwards(buf, n, scratch, count, rest, all);
  }

  /** mini_snprintf: as much of the rendered text as fits, and a terminator. */
  method Snprintf(buf: array<char>, format: string, args: seq<Arg>) returns (n: nat)
    requires buf.Length > 0 && Typed(format, args)
    modifies buf
    ensures var all := Rendered(format, args);
            n == (if |all| < buf.Length then |all| else buf.Length - 1) && buf[..n] == all[..n] && buf[n] == '\0'
  {
    hide Rendered, Typed, Cut;
    ghost var all := Rendered(format, args);
    var p, a := 0, 0;
    n := 0;
    assert format[0..] == format && args[0..] == args && buf[..0] == "";
    CutStart(all, buf.Length - 1);
    while p < |format| && n < buf.Length - 1
      invariant p <= |format| && a <= |args| && n < buf.Length && Typed(format[p..], args[a..])
      invariant Cut(buf[..n], Rendered(format[p..], args[a..]), all, buf.Length - 1)
      decreases |format| - p
    {
      RenderedStep(format, p, args, a);
      if format[p] != '%' {
        n := PutString(buf, n, [format[p]], Rendered(format[p + 1..], args[a..]), all);
        p := p + 1;
      } else if p + 1 == |format| {
        p := p + 1;
      } else if format[p + 1] in "sdu" {
        match args[a] {
          case Str(s) => n := PutString(buf, n, s, Rendered(format[p + 2..], args[a + 1..]), all);
          case Num(v) => n := PutNumber(buf, n, v, Rendered(format[p + 2..], args[a + 1..]), all);
        }
        p, a := p + 2, a + 1;
      } else {
        n := PutString(buf, n, [format[p + 1]], Rendered(format[p + 2..], args[a..]), all);
        p := p + 2;
      }
    }
    if p == |format| {
      RenderedEnd(args[a..]);
      assert format[p..] == "";
    }
    CutEnd(buf[..n], Rendered(format[p..], args[a..]), all, buf.Length - 1);
    buf[n] := '\0';
  }

  lemma CutStart(all: string, limit: nat)
    ensures Cut("", all, all, limit)
  {
    assert "" + all == all;
  }

  lemma CutEnd(out: string, rest: string, all: string, limit: nat)
    requires Cut(out, rest, all, limit) && |out| <= limit && (rest == "" || |out| == limit)
    ensures |out| == (if |all| <= limit then |all| else limit) && out == all[..|out|]
  {
    assert rest == "" ==> out + rest == out;
  }

  lemma RenderedEnd(args: seq<Arg>)
    ensures Rendered("", args) == ""
  {
  }

  /** What the loop finds at position `p`. */
  lemma RenderedStep(format: string, p: nat, args: seq<Arg>, a: nat)
    requires p < |format| && a <= |args| && Typed(format[p..], args[a..])
    ensures format[p] != '%' ==>
      && Rendered(format[p..], args[a..]) == [format[p]] + Rendered(format[p + 1..], args[a..])
      && Typed(format[p + 1..], args[a..])
    ensures format[p] == '%' && p + 1 == |format| ==>
      Rendered(format[p..], args[a..]) == "" && Rendered(format[p + 1..], args[a..]) == "" && Typed(format[p + 1..], args[a..])
    ensures format[p] == '%' && p + 1 < |format| && format[p + 1] in "sdu" ==>
      && a < |args| && Typed(format[p + 2..], args[a + 1..])
      && (args[a].Num? ==> -0x8000_0000 < args[a].v < 0x8000_0000)
      && Rendered(format[p..], args[a..]) ==
         (match args[a] case Str(s) => s case Num(v) => Signed(v)) + Rendered(format[p + 2..], args[a + 1..])
    ensures format[p] == '%' && p + 1 < |format| && format[p + 1] !in "sdu" ==>
      && Rendered(format[p..], args[a..]) == [format[p + 1]] + Rendered(format[p + 2..], args[a..])
      && Typed(format[p + 2..], args[a..])
  {
    hide Signed;
    var f := format[p..];
    assert f[0] == format[p] && f[1..] == format[p + 1..];
    if p + 1 < |format| {
      assert f[1] == format[p + 1] && f[2..] == format[p + 2..];
    }
    if a < |args| {
      assert args[a..][0] == args[a] && args[a..][1..] == args[a + 1..];
    }
  }
}
