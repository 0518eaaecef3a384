/** The formatted output of the C library: the integer printer with its sixteen-byte buffer, the
    format interpreter, and what they print. */
module Stdio {
  import opened Arith
  import opened Words

  const INT_MAX: nat := 0x7fff_ffff
  const BUFFER_SIZE: nat := 16

  type i32 = x: int | -0x8000_0000 <= x < 0x8000_0000

  // ----- integers

  function Digit(d: nat): char
    requires d < 16
  {
    "0123456789ABCDEF"[d]
  }

  /** The digits are '0' to '9' and then 'A' to 'F'. */
  lemma DigitIs(d: nat)
    requires d < 16
    ensures Digit(d) as int == if d < 10 then '0' as int + d else 'A' as int + (d - 10)
  {}

  function DigitValue(c: char): nat {
    if '0' <= c <= '9' then c as nat - '0' as nat
    else if 'A' <= c <= 'F' then c as nat - 'A' as nat + 10 else 0
  }

  /** The digits of `x`, most significant first. */
  function Digits(x: nat, base: nat): (s: string)
    requires 2 <= base <= 16
    ensures |s| >= 1
    decreases x
  {
    if x < base then [Digit(x)] else DivLess(x, base); Digits(x / base, base) + [Digit(x % base)]
  }

  lemma DivLess(x: nat, base: nat)
    requires x >= base >= 2
    ensures x / base < x
  {
    assert x == x / base * base + x % base;
    MulMono(2, base, x / base);
  }

  /** The number that a string of digits stands for. */
  function Parse(s: string, base: nat): nat {
    if s == "" then 0 else Parse(s[..|s| - 1], base) * base + DigitValue(s[|s| - 1])
  }

  lemma DigitRoundTrip(d: nat)
    requires d < 16
    ensures DigitValue(Digit(d)) == d
    ensures Digit(d) == '0' <==> d == 0
    ensures Digit(d) != '-'
  {}

  lemma ParseSnoc(s: string, c: char, base: nat)
    ensures Parse(s + [c], base) == Parse(s, base) * base + DigitValue(c)
  {
    assert (s + [c])[..|s|] == s;
  }

  lemma ParseDigit(c: char, base: nat)
    ensures Parse([c], base) == DigitValue(c)
  {
    ParseSnoc("", c, base);
    assert "" + [c] == [c];
  }

  /** Parsing the digits gives the number back, and there are no leading zeros. */
  lemma {:induction false} DigitsRoundTrip(x: nat, base: nat)
    requires 2 <= base <= 16
    ensures Parse(Digits(x, base), base) == x
    ensures Digits(x, base)[0] == '0' <==> x == 0
    ensures '-' !in Digits(x, base)
    decreases x
  {
    hide Parse;
    if x < base {
      DigitRoundTrip(x);
      ParseDigit(Digit(x), base);
    } else {
      var q, r := x / base, x % base;
      DivLess(x, base);
      assert x == q * base + r;
      DigitsRoundTrip(q, base);
      DigitRoundTrip(r);
      ParseSnoc(Digits(q, base), Digit(r), base);
      DivBelow(x, 1, base);
    }
  }

  function Pow(b: nat, n: nat): nat { if n == 0 then 1 else Pow(b, n - 1) * b }

  /** A number has at most `n` digits exactly when it is below the n-th power of the base. */
  lemma {:induction false} DigitCount(x: nat, base: nat, n: nat)
    requires 2 <= base <= 16 && n >= 1
    ensures |Digits(x, base)| <= n <==> x < Pow(base, n)
    decreases n
  {
    if n == 1 {
      assert Pow(base, 0) == 1;
    } else {
      if x >= base {
        DigitCount(x / base, base, n - 1);
        DivBelow(x, Pow(base, n - 1), base);
      } else {
        PowPositive(base, n - 1);
        MulMono(1, Pow(base, n - 1), base);
      }
    }
  }

  lemma PowPositive(b: nat, n: nat)
    requires b > 0
    ensures Pow(b, n) >= 1
  {
    if n > 0 {
      PowPositive(b, n - 1);
      MulMono(1, Pow(b, n - 1), b);
    }
  }

  /** The magnitude that is printed: the int itself, or its bits taken as unsigned. */
  function Magnitude(xx: i32, signed: bool): u32 {
    if signed && xx < 0 then -(xx as int) else (xx as int) % 0x1_0000_0000
  }

  /** What the integer printer emits. */
  function IntText(xx: i32, base: nat, signed: bool): string
    requires 2 <= base <= 16
  {
    (if signed && xx < 0 then "-" else "") + Digits(Magnitude(xx, signed), base)
  }

  /** The int that decimal text stands for. */
  function ParseInt(s: string): int {
    if s != "" && s[0] == '-' then -(Parse(s[1..], 10) as int) else Parse(s, 10)
  }

  lemma ParseSigned(d: string)
    requires d != "" && '-' !in d
    ensures ParseInt("-" + d) == -(Parse(d, 10) as int)
    ensures ParseInt("" + d) == Parse(d, 10)
  {
    assert ("-" + d)[1..] == d && "" + d == d && d[0] in d;
  }

  lemma DecimalRoundTrip(xx: i32)
    ensures ParseInt(IntText(xx, 10, true)) == xx
  {
    hide Parse, Digits, ParseInt;
    DigitsRoundTrip(Magnitude(xx, true), 10);
    ParseSigned(Digits(Magnitude(xx, true), 10));
  }

  /** Decimal text parses back to the int, and hexadecimal and binary text to its 32 bits. */
  lemma IntRoundTrip(xx: i32)
    ensures ParseInt(IntText(xx, 10, true)) == xx
    ensures Parse(IntText(xx, 16, false), 16) == Parse(IntText(xx, 2, false), 2) == (xx as int) % 0x1_0000_0000
  {
    hide Parse, Digits, ParseInt;
    DecimalRoundTrip(xx);
    DigitsRoundTrip(Magnitude(xx, false), 16);
    DigitsRoundTrip(Magnitude(xx, false), 2);
    assert IntText(xx, 16, false) == Digits(Magnitude(xx, false), 16);
    assert IntText(xx, 2, false) == Digits(Magnitude(xx, false), 2);
  }

  lemma SixteenDigits()
    ensures Pow(10, 10) > W32 && Pow(16, 8) == W32 && Pow(2, 16) == 0x1_0000
  {
    assert Pow(10, 5) == 100000;
    assert Pow(10, 8) == 100000000;
    assert Pow(16, 4) == 0x1_0000;
    assert Pow(2, 5) == 32;
    assert Pow(2, 10) == 1024;
    assert Pow(2, 14) == 16384;
  }

  /** Decimal and hexadecimal text always fits the buffer; binary text does exactly when the 32 bits
      are those of a number below 2^16. */
  lemma BufferFits(xx: i32)
    ensures |IntText(xx, 10, true)| <= 11 && |IntText(xx, 16, false)| <= 8
    ensures |IntText(xx, 2, false)| <= BUFFER_SIZE <==> (xx as int) % 0x1_0000_0000 < 0x1_0000
  {
    SixteenDigits();
    DigitCount(Magnitude(xx, true), 10, 10);
    DigitCount(Magnitude(xx, false), 16, 8);
    DigitCount(Magnitude(xx, false), 2, 16);
  }

  // ----- the output of printf, character by character

  datatype Arg = Int(value: i32) | Str(text: string)

  /** The next argument, taken as an int or as a string. */
  function IntArg(args: seq<Arg>): i32 { if args != [] && args[0].Int? then args[0].value else 0 }
  function StrArg(args: seq<Arg>): string { if args != [] && args[0].Str? then args[0].text else "" }
  function Rest(args: seq<Arg>): seq<Arg> { if args == [] then [] else args[1..] }

  /** The conversion characters that take an argument. */
  predicate Converts(c: char) { c in {'c', 's', 'd', 'x', 'b'} }

  /** What one conversion prints. */
  function Conversion(c: char, args: seq<Arg>): string {
    if c == 'c' then [((IntArg(args) as int) % 0x100) as char]
    else if c == 's' then StrArg(args)
    else if c == 'd' then IntText(IntArg(args), 10, true)
    else if c == 'x' then "0x" + IntText(IntArg(args), 16, false)
    else "0b" + IntText(IntArg(args), 2, false)
  }

  /** The text that a format and its arguments stand for. */
  function Render(f: string, args: seq<Arg>): string {
    if f == "" then ""
    else if f[0] != '%' then [f[0]] + Render(f[1..], args)
    else if |f| > 1 && f[1] == '%' then "%" + Render(f[2..], args)
    else if |f| > 1 && Converts(f[1]) then Conversion(f[1], args) + Render(f[2..], Rest(args))
    else f
  }

  /** The call is one that C defines: each conversion finds an argument of its kind, strings end at
      their NUL, and a binary number fits the buffer of the integer printer. */
  predicate Defined(f: string, args: seq<Arg>) {
    if f == "" then true
    else if f[0] != '%' then Defined(f[1..], args)
    else if |f| > 1 && f[1] == '%' then Defined(f[2..], args)
    else if |f| > 1 && Converts(f[1]) then
      && args != []
      && (if f[1] == 's' then args[0].Str? && '\0' !in args[0].text
          else args[0].Int? && (f[1] == 'b' ==> (args[0].value as int) % 0x1_0000_0000 < 0x1_0000))
      && Defined(f[2..], args[1..])
    else true
  }

  /** What text in a format prints: itself, and so a percent sign given twice. An unknown conversion prints
      itself and the whole rest of the format. */
  lemma TextPrints(f: string, args: seq<Arg>, c: char)
    ensures c != '%' ==> Render([c] + f, args) == [c] + Render(f, args)
    ensures Render("%%" + f, args) == "%" + Render(f, args)
    ensures c !in {'%', 'c', 's', 'd', 'x', 'b'} ==> Render("%" + [c] + f, args) == "%" + [c] + f
    ensures Render("%", args) == "%"
  {
    assert ([c] + f)[1..] == f && ("%%" + f)[2..] == f;
  }

  /** What a conversion prints: %c the character with the low byte of the int, %s the string, %d decimal text
      with a minus sign for negative numbers, %x and %b the 32 bits in hexadecimal after 0x and in binary
      after 0b. */
  lemma ConversionsPrint(f: string, args: seq<Arg>, v: i32, s: string)
    ensures Render("%c" + f, [Int(v)] + args) == [(v % 256) as char] + Render(f, args)
    ensures Render("%s" + f, [Str(s)] + args) == s + Render(f, args)
    ensures Render("%d" + f, [Int(v)] + args)
         == (if v < 0 then "-" + Digits(-(v as int), 10) else Digits(v, 10)) + Render(f, args)
    ensures Render("%x" + f, [Int(v)] + args) == ("0x" + Digits(v % 0x1_0000_0000, 16)) + Render(f, args)
    ensures Render("%b" + f, [Int(v)] + args) == ("0b" + Digits(v % 0x1_0000_0000, 2)) + Render(f, args)
  {
    hide Render, Digits, Conversion;
    ConversionPrints('c', f, args, Int(v));
    ConversionPrints('s', f, args, Str(s));
    ConversionPrints('d', f, args, Int(v));
    ConversionPrints('x', f, args, Int(v));
    ConversionPrints('b', f, args, Int(v));
    ConversionsAre(v, s);
    assert "%" + ['c'] == "%c" && "%" + ['s'] == "%s" && "%" + ['d'] == "%d";
    assert "%" + ['x'] == "%x" && "%" + ['b'] == "%b";
  }

  lemma ConversionPrints(c: char, f: string, args: seq<Arg>, arg: Arg)
    requires Converts(c)
    ensures Render(("%" + [c]) + f, [arg] + args) == Conversion(c, [arg]) + Render(f, args)
  {
    var g := ("%" + [c]) + f;
    assert g[2..] == f && ([arg] + args)[1..] == args;
    ConversionLooksAtFirst(c, [arg], args);
    hide Conversion;
  }

  lemma ConversionsAre(v: i32, s: string)
    ensures Conversion('c', [Int(v)]) == [(v % 256) as char] && Conversion('s', [Str(s)]) == s
    ensures Conversion('d', [Int(v)]) == if v < 0 then "-" + Digits(-(v as int), 10) else Digits(v, 10)
    ensures Conversion('x', [Int(v)]) == "0x" + Digits(v % 0x1_0000_0000, 16)
    ensures Conversion('b', [Int(v)]) == "0b" + Digits(v % 0x1_0000_0000, 2)
  {
    hide Digits;
    assert v >= 0 ==> "" + Digits(v, 10) == Digits(v, 10);
    assert "" + Digits(v % 0x1_0000_0000, 16) == Digits(v % 0x1_0000_0000, 16);
    assert "" + Digits(v % 0x1_0000_0000, 2) == Digits(v % 0x1_0000_0000, 2);
  }

  /** Which calls are defined: text asks for nothing, %s for a string without a NUL, %b for an int whose
      bits are those of a number below 2^16, and the other conversions for an int. */
  lemma DefinedIff(f: string, args: seq<Arg>, arg: Arg, c: char)
    ensures Defined("", args)
    ensures c != '%' ==> (Defined([c] + f, args) <==> Defined(f, args))
    ensures Defined("%%" + f, args) <==> Defined(f, args)
    ensures c in {'c', 's', 'd', 'x', 'b'} ==> !Defined("%" + [c] + f, [])
    ensures Defined("%s" + f, [arg] + args) <==> arg.Str? && '\0' !in arg.text && Defined(f, args)
    ensures Defined("%b" + f, [arg] + args) <==>
            arg.Int? && arg.value % 0x1_0000_0000 < 0x1_0000 && Defined(f, args)
    ensures c in {'c', 'd', 'x'} ==> (Defined("%" + [c] + f, [arg] + args) <==> arg.Int? && Defined(f, args))
    ensures c !in {'%', 'c', 's', 'd', 'x', 'b'} ==> Defined("%" + [c] + f, args)
  {
    assert ([c] + f)[1..] == f && ("%%" + f)[2..] == f && ("%s" + f)[2..] == f && ("%b" + f)[2..] == f;
    assert ("%" + [c] + f)[2..] == f && ([arg] + args)[1..] == args;
  }

  // ----- concatenation

  /** The format has no unknown conversion. */
  predicate Complete(f: string) {
    if f == "" then true
    else if f[0] != '%' then Complete(f[1..])
    else |f| > 1 && (f[1] == '%' || Converts(f[1])) && Complete(f[2..])
  }

  /** How many arguments a complete format consumes. */
  function Consumed(f: string): nat
    requires Complete(f)
  {
    if f == "" then 0
    else if f[0] != '%' then Consumed(f[1..])
    else (if f[1] == '%' then 0 else 1) + Consumed(f[2..])
  }

  lemma ConversionLooksAtFirst(c: char, a: seq<Arg>, b: seq<Arg>)
    requires a != []
    ensures Conversion(c, a + b) == Conversion(c, a)
    ensures Rest(a + b) == Rest(a) + b
  {
    assert (a + b)[0] == a[0] && (a + b)[1..] == a[1..] + b;
  }

  /** Two formats printed in one call print what they print in two, if the first has no unknown
      conversion. */
  lemma {:induction false} RenderOfConcat(f1: string, f2: string, a1: seq<Arg>, a2: seq<Arg>)
    requires Complete(f1) && |a1| == Consumed(f1)
    ensures Render(f1 + f2, a1 + a2) == Render(f1, a1) + Render(f2, a2)
  {
    hide Conversion;
    if f1 == "" {
      assert f1 + f2 == f2 && a1 + a2 == a2;
    } else if f1[0] != '%' {
      assert (f1 + f2)[1..] == f1[1..] + f2;
      RenderOfConcat(f1[1..], f2, a1, a2);
    } else {
      assert (f1 + f2)[2..] == f1[2..] + f2;
      if f1[1] == '%' {
        RenderOfConcat(f1[2..], f2, a1, a2);
      } else {
        ConversionLooksAtFirst(f1[1], a1, a2);
        RenderOfConcat(f1[2..], f2, Rest(a1), a2);
      }
    }
  }

  // ----- how the interpreter cuts the output into pieces

  /** A piece of output; only some pieces are checked against the space that is left in an int. */
  datatype Piece = Piece(text: string, limited: bool)

  /** The length of the run of text at the start of a format: its first character and what follows it
      up to the next percent sign. */
  function RunLength(f: string, n: nat): (r: nat)
    requires 1 <= n <= |f|
    ensures n <= r <= |f|
    ensures forall i :: n <= i < r ==> f[i] != '%'
    ensures r < |f| ==> f[r] == '%'
    decreases |f| - n
  {
    if n < |f| && f[n] != '%' then RunLength(f, n + 1) else n
  }

  function Pieces(f: string, args: seq<Arg>): seq<Piece>
    decreases |f|
  {
    if f == "" then []
    else if f[0] != '%' || (|f| > 1 && f[1] == '%') then
      var g := if f[0] == '%' then f[1..] else f;
      var n := RunLength(g, 1);
      [Piece(g[..n], true)] + Pieces(g[n..], args)
    else if |f| > 1 && Converts(f[1]) then
      [Piece(Conversion(f[1], args), f[1] == 'c' || f[1] == 's')] + Pieces(f[2..], Rest(args))
    else [Piece(f, true)]
  }

  function Joined(ps: seq<Piece>): string {
    if ps == [] then "" else ps[0].text + Joined(ps[1..])
  }

  /** A run of text renders as itself. */
  lemma {:induction false} RunRenders(g: string, i: nat, n: nat, args: seq<Arg>)
    requires i <= n <= |g| && forall k :: i <= k < n ==> g[k] != '%'
    ensures Render(g[i..], args) == g[i..n] + Render(g[n..], args)
    decreases n - i
  {
    if i < n {
      assert g[i..][1..] == g[i + 1..];
      RunRenders(g, i + 1, n, args);
      assert g[i..n] == [g[i]] + g[i + 1..n];
    } else {
      assert g[i..n] == "";
    }
  }

  predicate StartsWithText(f: string) {
    f != "" && (f[0] != '%' || (|f| > 1 && f[1] == '%'))
  }

  /** The run of text at the start of a format, without the percent sign that escapes its first
      character. */
  function Unescaped(f: string): string
    requires StartsWithText(f)
  {
    if f[0] == '%' then f[1..] else f
  }

  /** `n` characters of `g` are a run of text. */
  predicate IsRun(g: string, n: nat) {
    1 <= n <= |g| && (forall k :: 1 <= k < n ==> g[k] != '%') && (n < |g| ==> g[n] == '%')
  }

  lemma RunLengthIs(g: string, n: nat)
    requires IsRun(g, n)
    ensures RunLength(g, 1) == n
  {}

  lemma TextHead(f: string, args: seq<Arg>, n: nat)
    requires StartsWithText(f) && IsRun(Unescaped(f), n)
    ensures var g := Unescaped(f);
            Pieces(f, args) == [Piece(g[..n], true)] + Pieces(g[n..], args)
  {
    RunLengthIs(Unescaped(f), n);
  }

  lemma FirstCharacterRenders(f: string, args: seq<Arg>)
    requires StartsWithText(f)
    ensures Unescaped(f) != "" && Render(f, args) == [Unescaped(f)[0]] + Render(Unescaped(f)[1..], args)
  {
    var g := Unescaped(f);
    assert f[0] == '%' ==> f[2..] == g[1..];
  }

  lemma TextRenders(f: string, args: seq<Arg>, n: nat)
    requires StartsWithText(f) && IsRun(Unescaped(f), n)
    ensures var g := Unescaped(f);
            Render(f, args) == g[..n] + Render(g[n..], args)
  {
    hide Render, Unescaped, StartsWithText;
    var g := Unescaped(f);
    FirstCharacterRenders(f, args);
    RunRenders(g, 1, n, args);
    assert g[..n] == [g[0]] + g[1..n];
    assert [g[0]] + (g[1..n] + Render(g[n..], args)) == g[..n] + Render(g[n..], args);
  }

  lemma ConversionHead(f: string, args: seq<Arg>)
    requires |f| > 1 && f[0] == '%' && Converts(f[1])
    ensures var piece := Piece(Conversion(f[1], args), f[1] == 'c' || f[1] == 's');
            Pieces(f, args) == [piece] + Pieces(f[2..], Rest(args))
    ensures Render(f, args) == Conversion(f[1], args) + Render(f[2..], Rest(args))
  {}

  lemma UnknownHead(f: string, args: seq<Arg>)
    requires f != "" && f[0] == '%' && (|f| == 1 || (f[1] != '%' && !Converts(f[1])))
    ensures Pieces(f, args) == [Piece(f, true)] + Pieces("", args)
    ensures Render(f, args) == f
  {}

  /** The pieces together are the text that the format stands for. */
  lemma {:induction false} PiecesJoinToRender(f: string, args: seq<Arg>)
    ensures Joined(Pieces(f, args)) == Render(f, args)
    decreases |f|
  {
    if f == "" {
    } else {
      hide Conversion, Joined, Pieces, Render;
      if StartsWithText(f) {
        var g := Unescaped(f);
        var n := RunLength(g, 1);
        PiecesJoinToRender(g[n..], args);
        TextHead(f, args, n);
        TextRenders(f, args, n);
        JoinedCons(Piece(g[..n], true), Pieces(g[n..], args));
      } else if |f| > 1 && Converts(f[1]) {
        PiecesJoinToRender(f[2..], Rest(args));
        ConversionHead(f, args);
        JoinedCons(Piece(Conversion(f[1], args), f[1] == 'c' || f[1] == 's'), Pieces(f[2..], Rest(args)));
      } else {
        UnknownHead(f, args);
        PiecesJoinToRender("", args);
        JoinedCons(Piece(f, true), Pieces("", args));
        RenderNothing(args);
        assert f + "" == f;
      }
    }
  }

  lemma RenderNothing(args: seq<Arg>)
    ensures Render("", args) == "" && Pieces("", args) == []
  {}

  lemma JoinedCons(p: Piece, ps: seq<Piece>)
    ensures Joined([p] + ps) == p.text + Joined(ps)
  {
    assert ([p] + ps)[1..] == ps;
  }

  // ----- the count that printf keeps and returns

  /** A 64-bit count returned as an int. */
  function ToInt(x: u64): i32 {
    var low := x % 0x1_0000_0000;
    if low < 0x8000_0000 then low else low - 0x1_0000_0000
  }

  /** That is the int that is congruent to it modulo 2^32. */
  lemma ToIntIs(x: u64, r: i32)
    ensures r == ToInt(x) <==> (x - r) % 0x1_0000_0000 == 0
  {}

  /** What is printed and returned when `written` characters have been counted already. */
  function Emit(ps: seq<Piece>, written: u64): (string, i32) {
    if ps == [] then ("", ToInt(written))
    else if ps[0].limited && Wrap(INT_MAX - written) < |ps[0].text| then ("", -1)
    else
      var (out, r) := Emit(ps[1..], Plus(written, |ps[0].text|));
      (ps[0].text + out, r)
  }

  /** The first piece that takes the count beyond INT_MAX, or the number of pieces. */
  function Crossing(ps: seq<Piece>, written: nat): (k: nat)
    ensures k <= |ps|
  {
    if ps == [] || written + |ps[0].text| > INT_MAX then 0 else 1 + Crossing(ps[1..], written + |ps[0].text|)
  }

  /** The unsigned subtraction finds too little room exactly at the first crossing. */
  lemma RoomLeft(written: u64, n: nat)
    requires written + n < W64
    ensures Wrap(INT_MAX - written) < n <==> written <= INT_MAX < written + n
    ensures Plus(written, n) == written + n
  {}

  lemma EmitFirst(ps: seq<Piece>, written: u64)
    requires ps != [] && written + |ps[0].text| < W64
    ensures var next := written + |ps[0].text|;
            Emit(ps, written) ==
            if written <= INT_MAX < next && ps[0].limited then ("", -1)
            else (ps[0].text + Emit(ps[1..], next).0, Emit(ps[1..], next).1)
  {
    hide Wrap, Plus;
    RoomLeft(written, |ps[0].text|);
  }

  lemma {:induction false} EmitBeyond(ps: seq<Piece>, written: u64)
    requires written > INT_MAX && written + |Joined(ps)| < W64
    ensures Emit(ps, written) == (Joined(ps), ToInt(written + |Joined(ps)|))
  {
    if ps != [] {
      hide Emit, ToInt;
      EmitFirst(ps, written);
      EmitBeyond(ps[1..], written + |ps[0].text|);
    }
  }

  /** The exact result: everything is printed and counted if the total fits an int. Otherwise it
      depends on the piece that goes beyond INT_MAX: at a limited one printf stops and returns -1; at
      an integer it goes on to the end and returns the total cut down to an int. */
  lemma {:induction false} EmitExact(ps: seq<Piece>, written: u64)
    requires written <= INT_MAX && written + |Joined(ps)| < W64
    ensures var k := Crossing(ps, written);
            Emit(ps, written) ==
            if k == |ps| || !ps[k].limited then (Joined(ps), ToInt(written + |Joined(ps)|))
            else (Joined(ps[..k]), -1)
    ensures Crossing(ps, written) == |ps| <==> written + |Joined(ps)| <= INT_MAX
  {
    if ps != [] {
      hide ToInt, Emit;
      var next := written + |ps[0].text|;
      EmitFirst(ps, written);
      if next > INT_MAX {
        if !ps[0].limited {
          EmitBeyond(ps[1..], next);
        }
      } else {
        EmitExact(ps[1..], next);
        var k := Crossing(ps, written);
        assert k < |ps| ==> ps[..k][1..] == ps[1..][..k - 1];
      }
    }
  }

  /** The result of a call. */
  function Printed(f: string, args: seq<Arg>): (string, i32) { Emit(Pieces(f, args), 0) }

  lemma PrintedIsEmitted(f: string, args: seq<Arg>)
    ensures Printed(f, args) == Emit(Pieces(f, args), 0)
  {}

  lemma SmallCount(n: nat)
    ensures n <= INT_MAX ==> n < W64 && ToInt(n) == n
    ensures INT_MAX == 0x7fff_ffff && W64 > INT_MAX
  {}

  /** When the text fits an int, printf prints exactly that text and returns its length. */
  lemma PrintsWhatItRenders(f: string, args: seq<Arg>)
    requires |Render(f, args)| <= 0x7fff_ffff
    ensures Printed(f, args) == (Render(f, args), |Render(f, args)|)
  {
    hide *;
    PiecesJoinToRender(f, args);
    PrintedIsEmitted(f, args);
    SmallCount(|Render(f, args)|);
    EmitExact(Pieces(f, args), 0);
  }

  /** One call with two formats prints and counts what two calls do. */
  lemma PrintedOfConcat(f1: string, f2: string, a1: seq<Arg>, a2: seq<Arg>)
    requires Complete(f1) && |a1| == Consumed(f1)
    requires |Render(f1, a1)| + |Render(f2, a2)| <= INT_MAX
    ensures var ((o1, r1), (o2, r2), (o, r)) := (Printed(f1, a1), Printed(f2, a2), Printed(f1 + f2, a1 + a2));
            o == o1 + o2 && r as int == r1 as int + r2 as int
  {
    hide *;
    SmallCount(0);
    RenderOfConcat(f1, f2, a1, a2);
    PrintsWhatItRenders(f1, a1);
    PrintsWhatItRenders(f2, a2);
    PrintsWhatItRenders(f1 + f2, a1 + a2);
  }
}
