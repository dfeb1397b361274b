/** Saving and loading the colour theme as a small text file. */
module Theme {
  import opened Text

  datatype Rgba = Rgba(r: int, g: int, b: int, a: int)

  datatype Config = Config(trans: int, win: Rgba, title: Rgba, btn: Rgba, bgR: int, bgG: int, bgB: int, round: int)

  /* ---- the text ---- */

  const FORMAT4: string := "=%d,%d,%d,%d\n"
  const FORMAT_BG: string := "bg=" + ("%d" + ("," + ("%d" + ("," + ("%d" + "\n")))))
  const FORMAT_BTN: string := "btn" + FORMAT4 + FORMAT_BG
  const FORMAT_TITLE: string := "title" + FORMAT4 + FORMAT_BTN
  const FORMAT_WIN: string := "win" + FORMAT4 + FORMAT_TITLE
  const FORMAT: string := "trans=" + ("%d" + ("\n" + FORMAT_WIN))

  function Args4(c: Rgba): seq<Arg> {
    [Num(c.r), Num(c.g), Num(c.b), Num(c.a)]
  }

  function Arguments(t: Config): seq<Arg> {
    [Num(t.trans)] + (Args4(t.win) + (Args4(t.title) + (Args4(t.btn) + [Num(t.bgR), Num(t.bgG), Num(t.bgB)])))
  }

  /** A non-negative number of 31 bits. */
  predicate Small(v: int) {
    0 <= v < 0x8000_0000
  }

  predicate SmallRgba(c: Rgba) {
    Small(c.r) && Small(c.g) && Small(c.b) && Small(c.a)
  }

  predicate SmallConfig(t: Config) {
    Small(t.trans) && SmallRgba(t.win) && SmallRgba(t.title) && SmallRgba(t.btn) && Small(t.bgR) && Small(t.bgG) && Small(t.bgB)
  }

  /** Four numbers, and a line break. */
  function Text4(c: Rgba): string
    requires SmallRgba(c)
  {
    Decimal(c.r) + ("," + (Decimal(c.g) + ("," + (Decimal(c.b) + ("," + (Decimal(c.a) + "\n"))))))
  }

  function Text3(r: int, g: int, b: int): string
    requires Small(r) && Small(g) && Small(b)
  {
    Decimal(r) + ("," + (Decimal(g) + ("," + (Decimal(b) + "\n"))))
  }

  /** The file: one line per group of colours. */
  function FileText(t: Config): string
    requires SmallConfig(t)
  {
    ("trans=" + (Decimal(t.trans) + "\n")) + (("win=" + Text4(t.win)) + (("title=" + Text4(t.title)) + (("btn=" + Text4(t.btn))
    + ("bg=" + Text3(t.bgR, t.bgG, t.bgB)))))
  }

  lemma RenderedStepNumber(lit: string, v: nat, format: string, args: seq<Arg>)
    requires '%' !in lit
    ensures Rendered(lit + ("%d" + format), [Num(v)] + args) == lit + (Decimal(v) + Rendered(format, args))
  {
    RenderedLiteral(lit, "%d" + format, [Num(v)] + args);
    RenderedNumber(v, format, args);
  }

  lemma Rendered4(name: string, c: Rgba, format: string, args: seq<Arg>)
    requires '%' !in name && SmallRgba(c)
    ensures Rendered(name + FORMAT4 + format, Args4(c) + args) == (name + "=" + Text4(c)) + Rendered(format, args)
  {
    hide Rendered, Decimal;
    var a3 := [Num(c.a)] + args;
    var a2, f2 := [Num(c.b)] + a3, ",%d\n" + format;
    var a1, f1 := [Num(c.g)] + a2, ",%d" + f2;
    RenderedStepNumber(name + "=", c.r, ",%d" + f1, a1);
    RenderedStepNumber(",", c.g, f1, a2);
    RenderedStepNumber(",", c.b, f2, a3);
    RenderedStepNumber(",", c.a, "\n" + format, args);
    RenderedLiteral("\n", format, args);
    assert Args4(c) + args == [Num(c.r)] + a1;
    assert name + FORMAT4 + format == (name + "=") + ("%d" + (",%d" + f1));
    assert ",%d" + f1 == "," + ("%d" + f1);
    assert f1 == "," + ("%d" + f2);
    assert f2 == "," + ("%d" + ("\n" + format));
    var x := Rendered(format, args);
    assert Rendered(name + FORMAT4 + format, Args4(c) + args)
        == (name + "=") + (Decimal(c.r) + ("," + (Decimal(c.g) + ("," + (Decimal(c.b) + ("," + (Decimal(c.a) + ("\n" + x))))))));
  }

  /** What is printed is the file text. */
  lemma RenderedFile(t: Config)
    requires SmallConfig(t)
    ensures Rendered(FORMAT, Arguments(t)) == FileText(t)
  {
    hide Rendered, Decimal, Text4, Args4;
    var a3 := Args4(t.btn) + [Num(t.bgR), Num(t.bgG), Num(t.bgB)];
    var a2 := Args4(t.title) + a3;
    var a1 := Args4(t.win) + a2;
    RenderedStepNumber("trans=", t.trans, "\n" + FORMAT_WIN, a1);
    RenderedLiteral("\n", FORMAT_WIN, a1);
    Rendered4("win", t.win, FORMAT_TITLE, a2);
    Rendered4("title", t.title, FORMAT_BTN, a3);
    Rendered4("btn", t.btn, FORMAT_BG, [Num(t.bgR), Num(t.bgG), Num(t.bgB)]);
    Rendered3(t);
    Keys();
    Regroup("trans=", Decimal(t.trans), "\n", Rendered(FORMAT_WIN, a1));
  }

  lemma Keys()
    ensures "win" + "=" == "win=" && "title" + "=" == "title=" && "btn" + "=" == "btn="
  {
  }

  lemma Regroup(a: string, b: string, c: string, x: string)
    ensures a + (b + (c + x)) == (a + (b + c)) + x
  {
  }

  lemma Rendered3(t: Config)
    requires SmallConfig(t)
    ensures Rendered(FORMAT_BG, [Num(t.bgR), Num(t.bgG), Num(t.bgB)])
         == "bg=" + Text3(t.bgR, t.bgG, t.bgB)
  {
    hide Rendered, Decimal;
    var a2, a1, a0 := [Num(t.bgB)], [Num(t.bgG), Num(t.bgB)], [Num(t.bgR), Num(t.bgG), Num(t.bgB)];
    RenderedStepNumber("bg=", t.bgR, "," + ("%d" + ("," + ("%d" + "\n"))), a1);
    RenderedStepNumber(",", t.bgG, "," + ("%d" + "\n"), a2);
    RenderedStepNumber(",", t.bgB, "\n", []);
    RenderedLiteral("\n", "", []);
    RenderedEnd([]);
    assert a0 == [Num(t.bgR)] + a1 && a1 == [Num(t.bgG)] + a2 && a2 == [Num(t.bgB)] + [];
    assert "\n" + "" == "\n";
  }

  lemma TypedStepNumber(lit: string, v: nat, format: string, args: seq<Arg>)
    requires '%' !in lit && v < 0x8000_0000 && Typed(format, args)
    ensures Typed(lit + ("%d" + format), [Num(v)] + args)
  {
    hide Typed;
    TypedNumber(v, format, args);
    TypedLiteral(lit, "%d" + format, [Num(v)] + args);
  }

  lemma Typed4(name: string, c: Rgba, format: string, args: seq<Arg>)
    requires '%' !in name && SmallRgba(c) && Typed(format, args)
    ensures Typed(name + FORMAT4 + format, Args4(c) + args)
  {
    hide Typed;
    var a3 := [Num(c.a)] + args;
    var a2, f2 := [Num(c.b)] + a3, ",%d\n" + format;
    var a1, f1 := [Num(c.g)] + a2, ",%d" + f2;
    TypedLiteral("\n", format, args);
    TypedStepNumber(",", c.a, "\n" + format, args);
    assert f2 == "," + ("%d" + ("\n" + format));
    TypedStepNumber(",", c.b, f2, a3);
    assert f1 == "," + ("%d" + f2);
    TypedStepNumber(",", c.g, f1, a2);
    assert ",%d" + f1 == "," + ("%d" + f1);
    TypedStepNumber(name + "=", c.r, ",%d" + f1, a1);
    assert Args4(c) + args == [Num(c.r)] + a1;
    assert name + FORMAT4 + format == (name + "=") + ("%d" + (",%d" + f1));
  }

  lemma Typed3(t: Config)
    requires SmallConfig(t)
    ensures Typed(FORMAT_BG, [Num(t.bgR), Num(t.bgG), Num(t.bgB)])
  {
    hide Typed;
    var a2, a1, a0 := [Num(t.bgB)], [Num(t.bgG), Num(t.bgB)], [Num(t.bgR), Num(t.bgG), Num(t.bgB)];
    assert a0 == [Num(t.bgR)] + a1 && a1 == [Num(t.bgG)] + a2 && a2 == [Num(t.bgB)] + [];
    TypedEnd();
    TypedStepNumber(",", t.bgB, "\n", []);
    TypedStepNumber(",", t.bgG, "," + ("%d" + "\n"), a2);
    TypedStepNumber("bg=", t.bgR, "," + ("%d" + ("," + ("%d" + "\n"))), a1);
  }

  lemma TypedFile(t: Config)
    requires SmallConfig(t)
    ensures Typed(FORMAT, Arguments(t))
  {
    hide Typed, Args4;
    var a0 := [Num(t.bgR), Num(t.bgG), Num(t.bgB)];
    Typed3(t);
    Typed4("btn", t.btn, FORMAT_BG, a0);
    Typed4("title", t.title, FORMAT_BTN, Args4(t.btn) + a0);
    Typed4("win", t.win, FORMAT_TITLE, Args4(t.title) + (Args4(t.btn) + a0));
    TypedLiteral("\n", FORMAT_WIN, Args4(t.win) + (Args4(t.title) + (Args4(t.btn) + a0)));
    TypedStepNumber("trans=", t.trans, "\n" + FORMAT_WIN, Args4(t.win) + (Args4(t.title) + (Args4(t.btn) + a0)));
  }

  lemma TypedEnd()
    ensures Typed("\n", [])
  {
  }

  lemma TenDigitsEach(v: int)
    requires Small(v)
    ensures |Decimal(v)| <= 10
  {
    TenDigits();
    DecimalLength(v, 10);
  }

  lemma Short4(c: Rgba)
    requires SmallRgba(c)
    ensures |Text4(c)| <= 44
  {
    hide Decimal;
    TenDigitsEach(c.r);
    TenDigitsEach(c.g);
    TenDigitsEach(c.b);
    TenDigitsEach(c.a);
  }

  /** The text fits into the 256-byte buffers of both routines, terminator included. */
  lemma FileFits(t: Config)
    requires SmallConfig(t)
    ensures |FileText(t)| <= 199
  {
    hide Decimal, Text4;
    assert |Text3(t.bgR, t.bgG, t.bgB)| == |Decimal(t.bgR)| + |Decimal(t.bgG)| + |Decimal(t.bgB)| + 3;
    Short4(t.win);
    Short4(t.title);
    Short4(t.btn);
    TenDigitsEach(t.trans);
    TenDigitsEach(t.bgR);
    TenDigitsEach(t.bgG);
    TenDigitsEach(t.bgB);
  }

  /* ---- parsing ---- */

  /** The text is over, or a terminator stands there. */
  predicate AtEnd(s: string) {
    s == [] || s[0] == '\0'
  }

  function SkipComma(s: string): (r: string)
    ensures |r| <= |s|
  {
    if s != [] && s[0] == ',' then s[1..] else s
  }

  function SkipLine(s: string): (r: string)
    ensures |r| <= |s| && (!AtEnd(s) ==> |r| < |s|)
  {
    if AtEnd(s) then s else if s[0] == '\n' then s[1..] else SkipLine(s[1..])
  }

  /** Three numbers with optional commas between them. */
  function Parse3(s: string): (r: (int, int, int, string))
    ensures |r.3| <= |s|
  {
    var (x, s1) := Number(s);
    var (y, s2) := Number(SkipComma(s1));
    var (z, s3) := Number(SkipComma(s2));
    (x, y, z, s3)
  }

  function Parse4(s: string): (r: (Rgba, string))
    ensures |r.1| <= |s|
  {
    var (x, y, z, s3) := Parse3(s);
    var (a, s4) := Number(SkipComma(s3));
    (Rgba(x, y, z, a), s4)
  }

  /** What the start of a line changes; a line with another key changes nothing. */
  function ParseKey(t: Config, s: string): (r: (Config, string))
    ensures |r.1| <= |s|
  {
    if "trans=" <= s then
      var (v, r) := Number(s[6..]);
      (t.(trans := v), r)
    else if "win=" <= s then
      var (c, r) := Parse4(s[4..]);
      (t.(win := c), r)
    else if "title=" <= s then
      var (c, r) := Parse4(s[6..]);
      (t.(title := c), r)
    else if "btn=" <= s then
      var (c, r) := Parse4(s[4..]);
      (t.(btn := c), r)
    else if "bg=" <= s then
      var (x, y, z, r) := Parse3(s[3..]);
      (t.(bgR := x, bgG := y, bgB := z), r)
    else (t, s)
  }

  /** The configuration after all lines of `s`. */
  function Parsed(t: Config, s: string): Config
    decreases |s|
  {
    if AtEnd(s) then t else
    var (u, r) := ParseKey(t, s);
    Progress(t, s);
    Parsed(u, SkipLine(r))
  }

  lemma Progress(t: Config, s: string)
    requires !AtEnd(s)
    ensures |SkipLine(ParseKey(t, s).1)| < |s|
  {
    hide Number;
  }

  /* ---- what is saved is loaded ---- */

  lemma Parse4Found(c: Rgba, rest: string)
    requires SmallRgba(c)
    ensures Parse4(Text4(c) + rest) == (c, "\n" + rest)
  {
    hide Decimal, Number;
    var s4 := "\n" + rest;
    var s3 := "," + (Decimal(c.a) + s4);
    var s2 := "," + (Decimal(c.b) + s3);
    var s1 := "," + (Decimal(c.g) + s2);
    assert Text4(c) + rest == Decimal(c.r) + s1;
    NumberOfDecimal(c.r, s1);
    NumberOfDecimal(c.g, s2);
    NumberOfDecimal(c.b, s3);
    NumberOfDecimal(c.a, s4);
    assert SkipComma(s1) == Decimal(c.g) + s2 && SkipComma(s2) == Decimal(c.b) + s3 && SkipComma(s3) == Decimal(c.a) + s4;
  }

  lemma NextLine(rest: string)
    ensures SkipLine("\n" + rest) == rest
  {
    assert ("\n" + rest)[1..] == rest;
  }

  lemma NoLines(t: Config)
    ensures Parsed(t, "") == t
  {
  }

  lemma KeyThen(key: string, x: string, rest: string)
    ensures key <= (key + x) + rest && ((key + x) + rest)[|key|..] == x + rest
  {
  }

  lemma TransLine(t: Config, v: int, rest: string)
    requires Small(v)
    ensures Parsed(t, ("trans=" + (Decimal(v) + "\n")) + rest) == Parsed(t.(trans := v), rest)
  {
    hide Decimal, Number, SkipLine;
    var s := ("trans=" + (Decimal(v) + "\n")) + rest;
    KeyThen("trans=", Decimal(v) + "\n", rest);
    assert (Decimal(v) + "\n") + rest == Decimal(v) + ("\n" + rest);
    NumberOfDecimal(v, "\n" + rest);
    NextLine(rest);
  }

  lemma WinLine(t: Config, c: Rgba, rest: string)
    requires SmallRgba(c)
    ensures Parsed(t, ("win=" + Text4(c)) + rest) == Parsed(t.(win := c), rest)
  {
    hide Text4, Parse4, SkipLine;
    var s := ("win=" + Text4(c)) + rest;
    KeyThen("win=", Text4(c), rest);
    assert s[0] == 'w';
    Parse4Found(c, rest);
    NextLine(rest);
  }

  lemma TitleLine(t: Config, c: Rgba, rest: string)
    requires SmallRgba(c)
    ensures Parsed(t, ("title=" + Text4(c)) + rest) == Parsed(t.(title := c), rest)
  {
    hide Text4, Parse4, SkipLine;
    var s := ("title=" + Text4(c)) + rest;
    KeyThen("title=", Text4(c), rest);
    assert s[0] == 't' && s[1] == 'i';
    Parse4Found(c, rest);
    NextLine(rest);
  }

  lemma BtnLine(t: Config, c: Rgba, rest: string)
    requires SmallRgba(c)
    ensures Parsed(t, ("btn=" + Text4(c)) + rest) == Parsed(t.(btn := c), rest)
  {
    hide Text4, Parse4, SkipLine;
    var s := ("btn=" + Text4(c)) + rest;
    KeyThen("btn=", Text4(c), rest);
    assert s[0] == 'b' && s[1] == 't';
    Parse4Found(c, rest);
    NextLine(rest);
  }

  lemma Parse3Found(r: int, g: int, b: int, rest: string)
    requires Small(r) && Small(g) && Small(b)
    ensures Parse3(Text3(r, g, b) + rest) == (r, g, b, "\n" + rest)
  {
    hide Decimal, Number;
    var s3 := "\n" + rest;
    var s2 := "," + (Decimal(b) + s3);
    var s1 := "," + (Decimal(g) + s2);
    assert Text3(r, g, b) + rest == Decimal(r) + s1;
    NumberOfDecimal(r, s1);
    NumberOfDecimal(g, s2);
    NumberOfDecimal(b, s3);
    assert SkipComma(s1) == Decimal(g) + s2 && SkipComma(s2) == Decimal(b) + s3;
  }

  lemma BgLine(t: Config, r: int, g: int, b: int, rest: string)
    requires Small(r) && Small(g) && Small(b)
    ensures Parsed(t, ("bg=" + Text3(r, g, b)) + rest) == Parsed(t.(bgR := r, bgG := g, bgB := b), rest)
  {
    hide Text3, Parse3, SkipLine;
    var s := ("bg=" + Text3(r, g, b)) + rest;
    KeyThen("bg=", Text3(r, g, b), rest);
    assert s[0] == 'b' && s[1] == 'g';
    Parse3Found(r, g, b, rest);
    NextLine(rest);
  }

  /** Loading the saved text restores all sixteen saved values, whatever was there before, and only those. */
  lemma RoundTrip(t: Config, before: Config)
    requires SmallConfig(t)
    ensures Parsed(before, FileText(t)) == t.(round := before.round)
  {
    hide Parsed, Text4, Text3, Decimal;
    var bg := "bg=" + Text3(t.bgR, t.bgG, t.bgB);
    var btn := ("btn=" + Text4(t.btn)) + bg;
    var title := ("title=" + Text4(t.title)) + btn;
    var win := ("win=" + Text4(t.win)) + title;
    var c1 := before.(trans := t.trans);
    var c2 := c1.(win := t.win);
    var c3 := c2.(title := t.title);
    TransLine(before, t.trans, win);
    WinLine(c1, t.win, title);
    TitleLine(c2, t.title, btn);
    BtnLine(c3, t.btn, bg);
    BgLine(c3.(btn := t.btn), t.bgR, t.bgG, t.bgB, "");
    assert bg + "" == bg;
    NoLines(t.(round := before.round));
  }

  /* ---- the routines ---- */

  const BUFFER: nat := 256

  /** The fallback values; the corner style is not among them. */
  function Defaults(round: int): Config {
    Config(0, Rgba(45, 45, 45, 220), Rgba(30, 30, 30, 240), Rgba(60, 60, 60, 255), 0, 42, 54, round)
  }

  /** What of a file is read into the buffer. */
  function ReadPart(file: string): (r: string)
    ensures r <= file && |r| == if |file| <= 255 then |file| else 255
  {
    if |file| < BUFFER then file else file[..BUFFER - 1]
  }

  /** `if (*p == ',') p++` */
  method Comma(s: string, at: nat) returns (p: nat)
    requires at <= |s|
    ensures p <= |s| && s[p..] == SkipComma(s[at..])
  {
    p := at;
    if p < |s| && s[p] == ',' {
      assert s[p..][1..] == s[p + 1..];
      p := p + 1;
    }
  }

  method Read3(s: string, at: nat) returns (x: int, y: int, z: int, p: nat)
    requires at <= |s|
    ensures p <= |s| && (x, y, z, s[p..]) == Parse3(s[at..])
  {
    hide Number, SkipComma;
    x, p := Strtol(s, at);
    p := Comma(s, p);
    y, p := Strtol(s, p);
    p := Comma(s, p);
    z, p := Strtol(s, p);
  }

  method Read4(s: string, at: nat) returns (c: Rgba, p: nat)
    requires at <= |s|
    ensures p <= |s| && (c, s[p..]) == Parse4(s[at..])
  {
    hide Number, SkipComma, Parse3;
    var x, y, z, a;
    x, y, z, p := Read3(s, at);
    p := Comma(s, p);
    a, p := Strtol(s, p);
    c := Rgba(x, y, z, a);
  }

  /** strncmp of the text at `p` with a key */
  predicate KeyAt(s: string, p: nat, key: string)
    requires p <= |s|
  {
    p + |key| <= |s| && s[p..p + |key|] == key
  }

  lemma KeyAtIs(s: string, p: nat, key: string)
    requires p <= |s|
    ensures KeyAt(s, p, key) <==> key <= s[p..]
    ensures KeyAt(s, p, key) ==> s[p..][|key|..] == s[p + |key|..]
  {
    if p + |key| <= |s| {
      assert s[p..][..|key|] == s[p..p + |key|];
    }
  }

  class ThemeStore {
    var theme: Config

    constructor (theme: Config)
      ensures this.theme == theme
    {
      this.theme := theme;
    }

    /** theme_save_to_disk: the text written to the file. */
    method Save() returns (file: string)
      requires SmallConfig(theme)
      ensures file == FileText(theme) && |file| < BUFFER
    {
      hide Rendered, Typed, FileText;
      TypedFile(theme);
      RenderedFile(theme);
      FileFits(theme);
      var buffer := new char[BUFFER](_ => '\0');
      var len := Snprintf(buffer, FORMAT, Arguments(theme));
      file := buffer[..len];
    }

    /** The chain of key tests of theme_load_from_disk. */
    method LoadKey(s: string, at: nat) returns (p: nat)
      requires at <= |s|
      modifies this
      ensures p <= |s| && (theme, s[p..]) == ParseKey(old(theme), s[at..])
    {
      hide Number, Parse3, Parse4, KeyAt;
      p := at;
      KeyAtIs(s, p, "trans=");
      KeyAtIs(s, p, "win=");
      KeyAtIs(s, p, "title=");
      KeyAtIs(s, p, "btn=");
      KeyAtIs(s, p, "bg=");
      if KeyAt(s, p, "trans=") {
        var v;
        v, p := Strtol(s, p + 6);
        theme := theme.(trans := v);
      } else if KeyAt(s, p, "win=") {
        var c;
        c, p := Read4(s, p + 4);
        theme := theme.(win := c);
      } else if KeyAt(s, p, "title=") {
        var c;
        c, p := Read4(s, p + 6);
        theme := theme.(title := c);
      } else if KeyAt(s, p, "btn=") {
        var c;
        c, p := Read4(s, p + 4);
        theme := theme.(btn := c);
      } else if KeyAt(s, p, "bg=") {
        var x, y, z;
        x, y, z, p := Read3(s, p + 3);
        theme := theme.(bgR := x, bgG := y, bgB := z);
      }
    }

    /** theme_load_from_disk: `file` is the contents of the file, if it could be opened. */
    method Load(found: bool, file: string)
      modifies this
      ensures theme == if found then Parsed(Defaults(old(theme.round)), ReadPart(file)) else Defaults(old(theme.round))
    {
      hide ParseKey;
      theme := Config(0, Rgba(45, 45, 45, 220), Rgba(30, 30, 30, 240), Rgba(60, 60, 60, 255), 0, 42, 54, theme.round);
      if found {
        var s := ReadPart(file);
        var p := 0;
        ghost var all := Parsed(theme, s);
        assert s[0..] == s;
        while p < |s| && s[p] != '\0'
          invariant p <= |s| && Parsed(theme, s[p..]) == all
          decreases |s| - p
        {
          Progress(theme, s[p..]);
          p := LoadKey(s, p);
          p := EndOfLine(s, p);
        }
      }
    }

    /** Save, then load into any state: all saved values come back. */
    method SaveAndLoad(other: ThemeStore)
      requires SmallConfig(theme) && other != this
      modifies other
      ensures other.theme == theme.(round := old(other.theme.round))
    {
      hide FileText, Parsed;
      RoundTrip(theme, Defaults(other.theme.round));
      var file := Save();
      other.Load(true, file);
    }
  }

  /** The loop to the end of the line. */
  method EndOfLine(s: string, at: nat) returns (p: nat)
    requires at <= |s|
    ensures p <= |s| && s[p..] == SkipLine(s[at..])
  {
    p := at;
    while p < |s| && s[p] != '\0' && s[p] != '\n'
      invariant p <= |s| && SkipLine(s[p..]) == SkipLine(s[at..])
    {
      assert s[p..][1..] == s[p + 1..];
      p := p + 1;
    }
    if p < |s| && s[p] == '\n' {
      assert s[p..][1..] == s[p + 1..];
      p := p + 1;
    }
  }
}
