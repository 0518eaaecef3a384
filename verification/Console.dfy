/** printf and the functions under it, printing to the terminal. */
module Console {
  import opened Arith
  import opened Words
  import opened Stdio
  import TerminalModel
  import Terminal

  /** The byte that is printed for a character. */
  function Byte(c: char): byte { (c as int) % 0x100 }

  function Bytes(s: string): seq<byte> { seq(|s|, i requires 0 <= i < |s| => Byte(s[i])) }

  lemma BytesOfNext(s: string, c: char)
    ensures Bytes(s + [c]) == Bytes(s) + [Byte(c)]
  {}

  lemma BytesOfConcat(s: string, t: string)
    ensures Bytes(s + t) == Bytes(s) + Bytes(t)
  {}

  lemma Associate(a: string, b: string, c: string)
    ensures (a + b) + c == a + (b + c)
  {}

  function Reversed(s: string): string {
    if s == "" then "" else [s[|s| - 1]] + Reversed(s[..|s| - 1])
  }

  lemma {:induction false} ReversedLength(s: string)
    ensures |Reversed(s)| == |s|
  {
    if s != "" {
      ReversedLength(s[..|s| - 1]);
    }
  }

  lemma {:induction false} ReversedCons(c: char, s: string)
    ensures Reversed([c] + s) == Reversed(s) + [c]
  {
    if s == "" {
      assert [c] + s == [c] && [c][..0] == "";
    } else {
      var init, last := s[..|s| - 1], s[|s| - 1];
      ReversedCons(c, init);
      assert ([c] + s)[..|s|] == [c] + init && ([c] + s)[|s|] == last;
      Associate([last], Reversed(init), [c]);
    }
  }

  lemma ReversedSnoc(s: string, c: char)
    ensures Reversed(s + [c]) == [c] + Reversed(s)
  {
    assert (s + [c])[..|s|] == s;
  }

  lemma EmitStep(ps: seq<Piece>, piece: Piece, rest: seq<Piece>, written: u64)
    requires ps == [piece] + rest
    ensures Moves(Emit(ps, written), piece.text, piece.limited, written, Emit(rest, Plus(written, |piece.text|)))
  {
    assert ps[1..] == rest;
  }

  /** A call stays defined past a run of text, and past a conversion. */
  lemma {:induction false} DefinedPast(g: string, i: nat, n: nat, args: seq<Arg>)
    requires i <= n <= |g| && Defined(g[i..], args) && forall k :: i <= k < n ==> g[k] != '%'
    ensures Defined(g[n..], args)
    decreases n - i
  {
    if i < n {
      assert g[i..][1..] == g[i + 1..];
      DefinedPast(g, i + 1, n, args);
    }
  }

  lemma DefinedPastText(f: string, n: nat, args: seq<Arg>)
    requires StartsWithText(f) && IsRun(Unescaped(f), n) && Defined(f, args)
    ensures Defined(Unescaped(f)[n..], args)
  {
    var g := Unescaped(f);
    assert f[0] == '%' ==> f[2..] == g[1..];
    DefinedPast(g, 1, n, args);
  }

  lemma DefinedConversion(f: string, args: seq<Arg>)
    requires |f| > 1 && f[0] == '%' && Converts(f[1]) && Defined(f, args)
    ensures args != [] && Defined(f[2..], args[1..]) && Rest(args) == args[1..]
    ensures f[1] == 's' ==> args[0].Str? && '\0' !in args[0].text && StrArg(args) == args[0].text
    ensures f[1] != 's' ==> args[0].Int? && IntArg(args) == args[0].value
    ensures f[1] == 'b' ==> |IntText(args[0].value, 2, false)| <= BUFFER_SIZE
  {
    if f[1] == 'b' {
      BufferFits(args[0].value);
    }
  }

  /** What a conversion prints for an argument of its kind. */
  function ConversionOf(c: char, arg: Arg): string
    requires Converts(c) && if c == 's' then arg.Str? else arg.Int?
  {
    if c == 'c' then [((arg.value as int) % 0x100) as char]
    else if c == 's' then arg.text
    else if c == 'd' then IntText(arg.value, 10, true)
    else if c == 'x' then "0x" + IntText(arg.value, 16, false)
    else "0b" + IntText(arg.value, 2, false)
  }

  lemma ConversionText(c: char, args: seq<Arg>)
    requires Converts(c) && args != []
    requires if c == 's' then args[0].Str? else args[0].Int?
    ensures Conversion(c, args) == ConversionOf(c, args[0])
  {}

  /** The run of text that the interpreter has found at `start`; `p` is just past the escaping percent
      sign, if there is one. */
  lemma TextAt(format: string, start: nat, p: nat, amount: nat)
    requires start <= p < |format| && amount >= 1 && p + amount <= |format| && StartsWithText(format[start..])
    requires p == if format[start] == '%' then start + 1 else start
    requires forall k :: p + 1 <= k < p + amount ==> format[k] != '%'
    requires p + amount == |format| || format[p + amount] == '%'
    ensures Unescaped(format[start..]) == format[p..] && IsRun(format[p..], amount)
  {}

  lemma NothingReversed()
    ensures Reversed("") == ""
  {}

  lemma TextIsSignAndDigits(xx: i32, base: nat, signed: bool)
    requires 2 <= base <= 16
    ensures IntText(xx, base, signed) == (if signed && xx < 0 then ['-'] else []) + Digits(Magnitude(xx, signed), base)
    ensures |IntText(xx, base, signed)| == (if signed && xx < 0 then 1 else 0) + |Digits(Magnitude(xx, signed), base)|
  {}

  lemma QuotientLess(x: nat, base: nat)
    requires base >= 2
    ensures 0 <= x / base && (x > 0 ==> x / base < x)
  {
    if x >= base {
      DivLess(x, base);
    } else {
      DivBelow(x, 1, base);
    }
  }

  lemma DigitsUnfold(x: nat, base: nat)
    requires 2 <= base <= 16
    ensures Digits(x, base) == (if x / base == 0 then [] else Digits(x / base, base)) + [Digit(x % base)]
  {
    DivBelow(x, 1, base);
    assert [] + [Digit(x % base)] == [Digit(x % base)];
    if x < base {
      DivModUnique(x, 0, x, base);
    }
  }

  /** One more digit moved from the number to the buffer. */
  lemma DigitMoved(x: nat, base: nat, buf: string)
    requires 2 <= base <= 16
    ensures var buf' := buf + [Digit(x % base)];
            Digits(x, base) + Reversed(buf) ==
            if x / base == 0 then Reversed(buf') else Digits(x / base, base) + Reversed(buf')
  {
    hide Digits, Reversed, Digit;
    ReversedSnoc(buf, Digit(x % base));
    DigitsUnfold(x, base);
    if x / base != 0 {
      assert Digits(x, base) + Reversed(buf) == Digits(x / base, base) + ([Digit(x % base)] + Reversed(buf));
    }
  }

  lemma FirstDigit(x: nat, base: nat)
    requires 2 <= base <= 16
    ensures var buf := "" + [Digit(x % base)];
            Digits(x, base) == if x / base == 0 then Reversed(buf) else Digits(x / base, base) + Reversed(buf)
  {
    DigitMoved(x, base, "");
    assert Digits(x, base) + Reversed("") == Digits(x, base);
  }

  /** The character of a C string at an index, which may be that of its terminating NUL. */
  function At(s: string, i: nat): char
    requires i <= |s|
  {
    if i < |s| then s[i] else '\0'
  }

  // ----- the state of the interpreter, at index `p` of the format and `a` of the arguments

  /** What is still to be printed, and what will be returned. */
  function Remaining(format: string, args: seq<Arg>, p: nat, a: nat, written: u64): (string, i32)
    requires p <= |format| && a <= |args|
  {
    Emit(Pieces(format[p..], args[a..]), written)
  }

  predicate DefinedAt(format: string, args: seq<Arg>, p: nat, a: nat)
    requires p <= |format| && a <= |args|
  {
    Defined(format[p..], args[a..])
  }

  /** The result `todo` of the call is `done` and what remains. */
  ghost predicate OnTrack(todo: (string, i32), done: string, remaining: (string, i32)) {
    todo == (done + remaining.0, remaining.1)
  }

  /** Printing `text` takes the call from one state to the next, or ends it. */
  ghost predicate Moves(before: (string, i32), text: string, limited: bool, written: u64, after: (string, i32)) {
    before == if limited && Wrap(INT_MAX - written) < |text| then ("", -1) else (text + after.0, after.1)
  }

  lemma OnTrackStep(todo: (string, i32), done: string, before: (string, i32), text: string, limited: bool,
                    written: u64, after: (string, i32))
    requires OnTrack(todo, done, before) && Moves(before, text, limited, written, after)
    ensures limited && Wrap(INT_MAX - written) < |text| ==> todo == (done, -1)
    ensures !(limited && Wrap(INT_MAX - written) < |text|) ==> OnTrack(todo, done + text, after)
  {
    assert done + "" == done;
    assert done + (text + after.0) == (done + text) + after.0;
  }

  lemma TextStep(format: string, args: seq<Arg>, start: nat, p: nat, amount: nat, a: nat, written: u64)
    requires start <= p < |format| && amount >= 1 && p + amount <= |format| && a <= |args|
    requires p == if format[start] == '%' then start + 1 else start
    requires format[start] != '%' || format[p] == '%'
    requires forall k :: p + 1 <= k < p + amount ==> format[k] != '%'
    requires p + amount == |format| || format[p + amount] == '%'
    requires DefinedAt(format, args, start, a)
    ensures DefinedAt(format, args, p + amount, a)
    ensures Moves(Remaining(format, args, start, a, written), format[p..p + amount], true, written,
                  Remaining(format, args, p + amount, a, Plus(written, amount)))
  {
    hide Pieces, Emit, Defined, Unescaped;
    var f, g, rest := format[start..], format[p..], args[a..];
    TextAt(format, start, p, amount);
    TextHead(f, rest, amount);
    DefinedPastText(f, amount, rest);
    assert g[amount..] == format[p + amount..] && g[..amount] == format[p..p + amount];
    EmitStep(Pieces(f, rest), Piece(g[..amount], true), Pieces(g[amount..], rest), written);
  }

  lemma ConversionStep(format: string, args: seq<Arg>, p: nat, a: nat, written: u64)
    requires p + 1 < |format| && a <= |args| && format[p] == '%' && Converts(format[p + 1])
    requires DefinedAt(format, args, p, a)
    ensures a < |args|
    ensures var c, arg := format[p + 1], args[a];
            && (if c == 's' then arg.Str? else arg.Int?)
            && (c == 'b' ==> |IntText(arg.value, 2, false)| <= BUFFER_SIZE)
            && DefinedAt(format, args, p + 2, a + 1)
            && var text := ConversionOf(c, arg);
               Moves(Remaining(format, args, p, a, written), text, c == 'c' || c == 's', written,
                     Remaining(format, args, p + 2, a + 1, Plus(written, |text|)))
  {
    hide Pieces, Emit, Defined;
    var f, rest := format[p..], args[a..];
    ConversionHead(f, rest);
    DefinedConversion(f, rest);
    assert f[2..] == format[p + 2..] && rest[1..] == args[a + 1..];
    ConversionText(f[1], rest);
    var piece := Piece(Conversion(f[1], rest), f[1] == 'c' || f[1] == 's');
    EmitStep(Pieces(f, rest), piece, Pieces(f[2..], rest[1..]), written);
  }

  lemma UnknownStep(format: string, args: seq<Arg>, p: nat, a: nat, written: u64)
    requires p < |format| && a <= |args| && format[p] == '%'
    requires p + 1 == |format| || (format[p + 1] != '%' && !Converts(format[p + 1]))
    ensures DefinedAt(format, args, |format|, a)
    ensures Moves(Remaining(format, args, p, a, written), format[p..], true, written,
                  Remaining(format, args, |format|, a, Plus(written, |format| - p)))
  {
    hide Pieces, Emit;
    var f, rest := format[p..], args[a..];
    UnknownHead(f, rest);
    assert format[|format|..] == "";
    EmitStep(Pieces(f, rest), Piece(f, true), Pieces("", rest), written);
  }

  lemma NothingLeft(todo: (string, i32), done: string, r: i32)
    requires OnTrack(todo, done, ("", r))
    ensures todo == (done, r)
  {
    assert done + "" == done;
  }

  lemma NothingRemains(format: string, args: seq<Arg>, a: nat, written: u64)
    requires a <= |args|
    ensures Remaining(format, args, |format|, a, written) == ("", ToInt(written))
  {
    assert format[|format|..] == "";
    RenderNothing(args[a..]);
  }

  lemma EverythingRemains(format: string, args: seq<Arg>)
    ensures OnTrack(Printed(format, args), "", Remaining(format, args, 0, 0, 0))
    ensures Defined(format, args) ==> DefinedAt(format, args, 0, 0)
  {
    assert format[0..] == format && args[0..] == args;
    assert "" + Printed(format, args).0 == Printed(format, args).0;
  }

  class Output {
    const tty: Terminal.Tty
    /** What has been printed, the text that the screen held before, and whether its pixels showed it. */
    ghost var out: string
    ghost const start: TerminalModel.Text
    ghost const shown: bool

    ghost function Repr(): set<object> {
      {this, tty} + (if tty.fb != null then {tty.fb.address} else {})
    }

    /** Printing has reached the terminal: its text is the old one with the output written to it, and its
        pixels show it if they showed the old one and the output stays within the pixel rows. */
    ghost predicate Valid()
      reads Repr()
    {
      && tty.Valid()
      && (tty.fb != null ==>
            && tty.At() == TerminalModel.AdvanceAll(tty.Sizes(), start.cursor, Bytes(out))
            && (!tty.Sizes().Degenerate() ==>
                  && TerminalModel.Text(tty.At(), tty.grid) == TerminalModel.PutAll(tty.Sizes(), start, Bytes(out))
                  && (shown && tty.AllInRows(start.cursor, Bytes(out)) ==> tty.Showing())))
    }

    /** Output of this text stays in the framebuffer. */
    ghost predicate Stays(text: string) { tty.fb != null ==> tty.AllInBuffer(start.cursor, Bytes(text)) }

    lemma StaysBefore(a: string, b: string)
      requires Stays(a + b)
      ensures Stays(a)
    {
      BytesOfConcat(a, b);
      if tty.fb != null {
        tty.AllOfConcat(start.cursor, Bytes(a), Bytes(b));
      }
    }

    constructor (tty: Terminal.Tty)
      requires tty.Valid()
      ensures this.tty == tty && Valid() && out == ""
      ensures start == TerminalModel.Text(tty.At(), tty.grid) && shown == tty.Showing()
    {
      this.tty := tty;
      out := "";
      start, shown := TerminalModel.Text(tty.At(), tty.grid), tty.Showing();
    }

    /** The terminal is given the low byte of the character's code. */
    method PutChar(c: char)
      requires Valid() && Stays(out + [c])
      modifies Repr()
      ensures Valid()
      ensures out == old(out) + [c]
      ensures tty.fb != null ==>
                tty.At() == TerminalModel.Advance(tty.Sizes(), old(tty.At()), (c as int) % 0x100)
      ensures tty.fb != null && !tty.Sizes().Degenerate() ==>
                TerminalModel.Text(tty.At(), tty.grid) ==
                TerminalModel.Put(tty.Sizes(), TerminalModel.Text(old(tty.At()), old(tty.grid)), (c as int) % 0x100)
    {
      BytesOfNext(out, c);
      ghost var before := Bytes(out);
      if tty.fb != null {
        tty.AllOfConcat(start.cursor, before, [Byte(c)]);
        TerminalModel.AdvanceAllOfConcat(tty.Sizes(), start.cursor, before, [Byte(c)]);
        if !tty.Sizes().Degenerate() {
          TerminalModel.PutAllOfConcat(tty.Sizes(), start, before, [Byte(c)]);
        }
      }
      OneByte(Byte(c));
      tty.Write([Byte(c)]);
      out := out + [c];
    }

    lemma OneByte(b: byte)
      ensures tty.fb != null ==> forall c ::
                TerminalModel.AdvanceAll(tty.Sizes(), c, [b]) == TerminalModel.Advance(tty.Sizes(), c, b)
      ensures tty.fb != null && !tty.Sizes().Degenerate() ==> forall s ::
                TerminalModel.PutAll(tty.Sizes(), s, [b]) == TerminalModel.Put(tty.Sizes(), s, b)
    {
      assert [b][1..] == [];
    }

    /** The screen was cleared, with at least two text rows and the cursor at home. */
    ghost predicate FromHome() {
      && tty.fb != null && !tty.Sizes().Degenerate() && tty.Sizes().Rows() >= 2 && shown
      && start == TerminalModel.Text(TerminalModel.Cursor(0, 0), TerminalModel.BlankGrid(tty.Sizes()))
    }

    /** The text takes no more lines than there are, and stays within the pixel rows. */
    ghost predicate FitsScreen(text: string)
      requires tty.fb != null && !tty.Sizes().Degenerate()
    {
      && TerminalModel.EndRow(Bytes(text), tty.Sizes().Columns() + 1) < tty.Sizes().Rows()
      && tty.AllInRows(start.cursor, Bytes(text))
    }

    /** Output from home that fits the screen stands on it line by line, in the pixels too. */
    lemma OutputShows()
      requires Valid() && FromHome() && FitsScreen(out)
      ensures TerminalModel.ShowsLines(tty.Sizes(), tty.grid, Bytes(out))
      ensures tty.Shows(tty.fb.address[..], tty.grid)
    {
      var text := Bytes(out);
      assert text[..|text|] == text;
      TerminalModel.LinesShow(tty.Sizes(), text, |text|);
    }

    /** So after one printf from home the screen shows exactly the rendered text: the glyphs are those of its
        characters' codes, and lines end where it has newlines. */
    lemma PrintfShowsText(format: string, args: seq<Arg>, text: seq<byte>)
      requires Valid() && FromHome() && out == Printed(format, args).0 && |Render(format, args)| <= 0x7fff_ffff
      requires |text| == |Render(format, args)|
      requires forall i :: 0 <= i < |text| ==> text[i] == Render(format, args)[i] as int
      requires TerminalModel.EndRow(text, tty.Sizes().Columns() + 1) < tty.Sizes().Rows()
      requires tty.AllInRows(TerminalModel.Cursor(0, 0), text)
      ensures TerminalModel.ShowsLines(tty.Sizes(), tty.grid, text)
      ensures forall i :: 0 <= i < |text| ==> (text[i] == TerminalModel.NEWLINE <==> Render(format, args)[i] == '\n')
      ensures tty.Shows(tty.fb.address[..], tty.grid)
    {
      assert start.cursor == TerminalModel.Cursor(0, 0);
      BytesAreCodes(Render(format, args), text);
      hide Valid, FromHome, Render, Printed, Bytes;
      PrintsWhatItRenders(format, args);
      OutputShows();
    }

    lemma BytesAreCodes(s: string, text: seq<byte>)
      requires |text| == |s| && forall i :: 0 <= i < |s| ==> text[i] == s[i] as int
      ensures text == Bytes(s)
      ensures forall i :: 0 <= i < |s| ==> (text[i] == TerminalModel.NEWLINE <==> s[i] == '\n')
    {}

    method Print(data: string)
      requires Valid() && Stays(out + data)
      modifies Repr()
      ensures Valid()
      ensures out == old(out) + data
    {
      hide Valid, Stays;
      for i := 0 to |data|
        invariant Valid()
        invariant out == old(out) + data[..i]
      {
        assert old(out) + data == (out + [data[i]]) + data[i + 1..];
        StaysBefore(out + [data[i]], data[i + 1..]);
        PutChar(data[i]);
        assert data[..i + 1] == data[..i] + [data[i]];
      }
      assert data[..|data|] == data;
    }

    /** Puts the text of an int into the buffer, back to front. */
    static method StoreDigits(buf: array<char>, xx: i32, base: nat, signed: bool) returns (i: nat)
      requires 2 <= base <= 16 && buf.Length == BUFFER_SIZE
      requires |IntText(xx, base, signed)| <= BUFFER_SIZE
      modifies buf
      ensures i == |IntText(xx, base, signed)| && Reversed(buf[..i]) == IntText(xx, base, signed)
    {
      hide Digits, Reversed, IntText, Magnitude, Digit;
      var neg := signed && xx < 0;
      var x: nat := Magnitude(xx, signed);
      ghost var digits := Digits(x, base);
      TextIsSignAndDigits(xx, base, signed);
      i := 0;
      ghost var text := "";
      FirstDigit(x, base);
      QuotientLess(x, base);
      buf[i] := Digit(x % base);
      text := text + [buf[i]];
      i := i + 1;
      x := x / base;
      while x != 0
        invariant 1 <= i <= BUFFER_SIZE && text == buf[..i]
        invariant x == 0 ==> digits == Reversed(text)
        invariant x != 0 ==> digits == Digits(x, base) + Reversed(text)
        decreases x
      {
        ReversedLength(text);
        DigitMoved(x, base, text);
        QuotientLess(x, base);
        buf[i] := Digit(x % base);
        text := text + [buf[i]];
        i := i + 1;
        x := x / base;
      }
      ReversedLength(text);
      if neg {
        ReversedSnoc(text, '-');
        buf[i] := '-';
        text := text + [buf[i]];
        i := i + 1;
      }
      assert buf[..i] == text;
      ReversedLength(text);
    }

    /** What comes out of the buffer stays, if all of it does. */
    lemma StaysReversed(done: string, text: string, i: nat)
      requires i <= |text| && Stays(done + Reversed(text))
      ensures Stays(done + Reversed(text[i..]))
    {
      hide Stays, Reversed;
      if i > 0 {
        StaysReversed(done, text, i - 1);
        assert text[i - 1..] == [text[i - 1]] + text[i..];
        ReversedCons(text[i - 1], text[i..]);
        Associate(done, Reversed(text[i..]), [text[i - 1]]);
        StaysBefore(done + Reversed(text[i..]), [text[i - 1]]);
      } else {
        assert text[0..] == text;
      }
    }

    /** Prints an int; the digits go through a buffer of sixteen characters. */
    method PrintInt(xx: i32, base: nat, signed: bool) returns (written: nat)
      requires 2 <= base <= 16
      requires |IntText(xx, base, signed)| <= BUFFER_SIZE
      requires Valid() && Stays(out + IntText(xx, base, signed))
      modifies Repr()
      ensures Valid()
      ensures out == old(out) + IntText(xx, base, signed)
      ensures written == |IntText(xx, base, signed)|
    {
      hide Reversed, IntText, Valid, Stays;
      var buf := new char[BUFFER_SIZE];
      var i := StoreDigits(buf, xx, base, signed);
      ghost var n, text := i, buf[..i];
      written := 0;
      NothingReversed();
      assert text[i..] == "" && old(out) + "" == old(out);
      while i > 0
        invariant 0 <= i <= n && buf[..n] == text && written == n - i
        invariant Valid() && out == old(out) + Reversed(text[i..])
      {
        i := i - 1;
        written := written + 1;
        assert text[i..] == [buf[i]] + text[i + 1..];
        ReversedCons(buf[i], text[i + 1..]);
        Associate(old(out), Reversed(text[i + 1..]), [buf[i]]);
        StaysReversed(old(out), text, i);
        PutChar(buf[i]);
      }
      assert text[0..] == text;
    }

    /** Prints the text of a conversion and returns its length, or -1, printing nothing, if it is a
        character or a string that exceeds what may still be printed. */
    method Convert(c: char, arg: Arg, maxrem: u64) returns (n: int)
      requires Converts(c) && if c == 's' then arg.Str? else arg.Int?
      requires c == 'b' ==> |IntText(arg.value, 2, false)| <= BUFFER_SIZE
      requires Valid()
      requires Stays(out + ConversionOf(c, arg)) || ((c == 'c' || c == 's') && maxrem < |ConversionOf(c, arg)|)
      modifies Repr()
      ensures Valid()
      ensures var text := ConversionOf(c, arg);
              if (c == 'c' || c == 's') && maxrem < |text| then n == -1 && out == old(out)
              else n == |text| && out == old(out) + text
    {
      hide IntText, Valid, Stays;
      if c == 'c' {
        if maxrem == 0 {
          return -1;
        }
        Print([((arg.value as int) % 0x100) as char]);
        return 1;
      } else if c == 's' {
        if maxrem < |arg.text| {
          return -1;
        }
        Print(arg.text);
        return |arg.text|;
      } else if c == 'd' {
        BufferFits(arg.value);
        n := PrintInt(arg.value, 10, true);
      } else if c == 'x' {
        Associate(out, "0x", IntText(arg.value, 16, false));
        StaysBefore(out + "0x", IntText(arg.value, 16, false));
        Print("0x");
        BufferFits(arg.value);
        n := PrintInt(arg.value, 16, false);
        n := n + 2;
      } else {
        Associate(out, "0b", IntText(arg.value, 2, false));
        StaysBefore(out + "0b", IntText(arg.value, 2, false));
        Print("0b");
        n := PrintInt(arg.value, 2, false);
        n := n + 2;
      }
    }

    /** The next piece of a call whose whole output stays does so too. */
    lemma StaysNext(before: string, todo: (string, i32), done: string, text: string, after: (string, i32))
      requires Stays(before + todo.0) && OnTrack(todo, done + text, after)
      ensures Stays((before + done) + text)
    {
      hide Stays;
      Associate(before, done, text);
      Associate(before, done + text, after.0);
      StaysBefore(before + (done + text), after.0);
    }

    method Printf(format: string, args: seq<Arg>) returns (r: i32)
      requires '\0' !in format && Defined(format, args)
      requires Valid() && Stays(out + Printed(format, args).0)
      modifies Repr()
      ensures Valid()
      ensures (out, r) == (old(out) + Printed(format, args).0, Printed(format, args).1)
    {
      hide Remaining, DefinedAt, OnTrack, Moves, ConversionOf, IntText, ToInt, Plus, Wrap, Printed, Valid, Stays, Repr;
      var written: u64 := 0;
      var p, a := 0, 0;
      ghost var todo := Printed(format, args);
      ghost var done := "";
      EverythingRemains(format, args);
      assert out == old(out) + done;
      while At(format, p) != '\0'
        invariant p <= |format| && a <= |args| && Valid()
        invariant DefinedAt(format, args, p, a)
        invariant out == old(out) + done
        invariant OnTrack(todo, done, Remaining(format, args, p, a, written))
        decreases |format| - p
      {
        var maxrem := Wrap(INT_MAX - written);
        ghost var remaining := Remaining(format, args, p, a, written);
        ghost var text;
        if At(format, p) != '%' || At(format, p + 1) == '%' {
          ghost var start := p;
          if At(format, p) == '%' {
            p := p + 1;
          }
          var amount := 1;
          while At(format, p + amount) != '\0' && At(format, p + amount) != '%'
            invariant 1 <= amount && p + amount <= |format|
            invariant forall k :: p + 1 <= k < p + amount ==> format[k] != '%'
            decreases |format| - amount
          {
            amount := amount + 1;
          }
          text := format[p..p + amount];
          TextStep(format, args, start, p, amount, a, written);
          OnTrackStep(todo, done, remaining, text, true, written,
                      Remaining(format, args, p + amount, a, Plus(written, amount)));
          if maxrem < amount {
            return -1;
          }
          StaysNext(old(out), todo, done, text, Remaining(format, args, p + amount, a, Plus(written, amount)));
          Print(format[p..p + amount]);
          p := p + amount;
          written := Plus(written, amount);
        } else if Converts(At(format, p + 1)) {
          var c := At(format, p + 1);
          ConversionStep(format, args, p, a, written);
          text := ConversionOf(c, args[a]);
          OnTrackStep(todo, done, remaining, text, c == 'c' || c == 's', written,
                      Remaining(format, args, p + 2, a + 1, Plus(written, |text|)));
          if !((c == 'c' || c == 's') && maxrem < |text|) {
            StaysNext(old(out), todo, done, text, Remaining(format, args, p + 2, a + 1, Plus(written, |text|)));
          }
          var n := Convert(c, args[a], maxrem);
          if n < 0 {
            return -1;
          }
          p := p + 2;
          a := a + 1;
          written := Plus(written, n);
        } else {
          var len := |format| - p;
          text := format[p..];
          UnknownStep(format, args, p, a, written);
          OnTrackStep(todo, done, remaining, text, true, written,
                      Remaining(format, args, |format|, a, Plus(written, |text|)));
          if maxrem < len {
            return -1;
          }
          StaysNext(old(out), todo, done, text, Remaining(format, args, |format|, a, Plus(written, |text|)));
          Print(format[p..]);
          written := Plus(written, len);
          p := p + len;
        }
        Associate(old(out), done, text);
        done := done + text;
      }
      NothingRemains(format, args, a, written);
      NothingLeft(todo, done, ToInt(written));
      return ToInt(written);
    }
  }
}
