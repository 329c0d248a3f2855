/** Render_Engine_DisplayFrame and its helpers: the framebuffer is streamed to a
    terminal as ANSI text, one space per cell drawn in the current background
    colour. Every helper ends in writeTerminalBlock, the single byte sink; here it
    appends to the sequence of bytes sent so far, and each method returns the
    extended sequence. A decoder that reads the stream back the way a terminal
    would shows that the stream carries the whole frame. */
module Terminal {
  import opened Types
  import opened Framebuffers

  const ESC: Byte := 27
  const LEFT_BRACKET: Byte := 91   // '['
  const SEMICOLON: Byte := 59      // ';'
  const CURSOR_FINAL: Byte := 72   // 'H'
  const COLOR_FINAL: Byte := 109   // 'm'
  const CR: Byte := 13
  const LF: Byte := 10
  const SPACE: Byte := 32
  const DIGIT_ZERO: Byte := 48     // '0'

  predicate IsDigit(b: Byte) {
    DIGIT_ZERO <= b <= DIGIT_ZERO + 9
  }

  predicate AllDigits(s: seq<Byte>) {
    forall k :: 0 <= k < |s| ==> IsDigit(s[k])
  }

  /** writeTerminalBlock: one byte onto the wire. */
  method WriteTerminalBlock(sent: seq<Byte>, data: Byte) returns (out: seq<Byte>)
    ensures out == sent + [data]
  {
    out := sent + [data];
  }

  // ---------------------------------------------------------------------------
  // Numbers

  /** The decimal digits of a positive number, most significant first. */
  function Decimal(n: nat): seq<Byte>
    requires n > 0
    decreases n
  {
    if n < 10 then [DIGIT_ZERO + n] else Decimal(n / 10) + [DIGIT_ZERO + n % 10]
  }

  /** The number a string of digits denotes. */
  function DigitsValue(s: seq<Byte>): nat
    requires AllDigits(s)
  {
    if s == [] then 0 else DigitsValue(s[..|s| - 1]) * 10 + (s[|s| - 1] - DIGIT_ZERO)
  }

  /** What writeTerminalNumber emits: nothing for 0, else the decimal digits. */
  function NumberText(n: Byte): seq<Byte> {
    if n == 0 then [] else Decimal(n)
  }

  lemma {:induction false} DecimalDigits(n: nat)
    requires n > 0
    ensures AllDigits(Decimal(n)) && DigitsValue(Decimal(n)) == n
    ensures Decimal(n)[0] != DIGIT_ZERO
    decreases n
  {
    if n >= 10 {
      DecimalDigits(n / 10);
      var d := Decimal(n);
      assert d[..|d| - 1] == Decimal(n / 10);
    }
  }

  /** writeTerminalNumber writes digits only, without leading zeros, that read back
      as the number; for 0 it writes nothing at all. */
  lemma NumberTextDigits(n: Byte)
    ensures AllDigits(NumberText(n)) && DigitsValue(NumberText(n)) == n
    ensures n == 0 <==> NumberText(n) == []
    ensures n > 0 ==> NumberText(n)[0] != DIGIT_ZERO
    ensures |NumberText(n)| <= 3
  {
    if n > 0 {
      DecimalDigits(n);
      NumberTextByPlaces(n);
    }
  }

  /** The digits of a byte, place by place. */
  lemma NumberTextByPlaces(n: Byte)
    ensures NumberText(n) ==
      (if n >= 100 then [DIGIT_ZERO + n / 100] else []) +
      (if n >= 10 then [DIGIT_ZERO + (n / 10) % 10] else []) +
      (if n >= 1 then [DIGIT_ZERO + n % 10] else [])
  {
    if n >= 100 {
      assert (n / 10) / 10 == n / 100;
      assert Decimal(n / 10) == Decimal(n / 100) + [DIGIT_ZERO + (n / 10) % 10];
    } else if n >= 10 {
      assert Decimal(n / 10) == [DIGIT_ZERO + n / 10];
    }
  }

  /** writeTerminalNumber (render_engine.c:444-467): hundreds, tens and ones, each
      written once a non-zero digit has been seen or when it is itself non-zero. */
  method WriteTerminalNumber(sent: seq<Byte>, number: Byte) returns (out: seq<Byte>)
    ensures out == sent + NumberText(number)
  {
    out := sent;
    var atDigits := false;

    var hundreds := (number / 100) % 10;
    if hundreds > 0 {
      atDigits := true;
      out := WriteTerminalBlock(out, hundreds + DIGIT_ZERO);
    }

    var tens := (number / 10) % 10;
    if tens > 0 || atDigits {
      atDigits := true;
      out := WriteTerminalBlock(out, tens + DIGIT_ZERO);
    }

    var ones := number % 10;
    if ones > 0 || atDigits {
      atDigits := true;
      out := WriteTerminalBlock(out, ones + DIGIT_ZERO);
    }

    NumberTextByPlaces(number);
  }

  // ---------------------------------------------------------------------------
  // Escape sequences

  /** ESC [ n m: select background colour n. */
  function ColorText(color: Byte): seq<Byte> {
    [ESC, LEFT_BRACKET] + NumberText(color) + [COLOR_FINAL]
  }

  /** ESC [ row ; column H with the one-based row and column held in uint8_t. */
  function CursorText(x: Byte, y: Byte): seq<Byte> {
    [ESC, LEFT_BRACKET] + NumberText((y + 1) % 0x100) + [SEMICOLON] + NumberText((x + 1) % 0x100) + [CURSOR_FINAL]
  }

  /** changeTerminalColor. */
  method ChangeTerminalColor(sent: seq<Byte>, color: Byte) returns (out: seq<Byte>)
    ensures out == sent + ColorText(color)
  {
    out := WriteTerminalBlock(sent, ESC);
    out := WriteTerminalBlock(out, LEFT_BRACKET);
    out := WriteTerminalNumber(out, color);
    out := WriteTerminalBlock(out, COLOR_FINAL);
  }

  /** changeTerminalCursorLocation. */
  method ChangeTerminalCursorLocation(sent: seq<Byte>, x: Byte, y: Byte) returns (out: seq<Byte>)
    ensures out == sent + CursorText(x, y)
  {
    out := WriteTerminalBlock(sent, ESC);
    out := WriteTerminalBlock(out, LEFT_BRACKET);
    out := WriteTerminalNumber(out, (y + 1) % 0x100);
    out := WriteTerminalBlock(out, SEMICOLON);
    out := WriteTerminalNumber(out, (x + 1) % 0x100);
    out := WriteTerminalBlock(out, CURSOR_FINAL);
  }

  // ---------------------------------------------------------------------------
  // The frame stream

  /** The colour the terminal was last told to use before cell i: none (0) before
      the first cell, and after any cell that cell's colour. */
  function ColorBefore(buf: seq<Byte>, i: nat): Byte
    requires i <= |buf|
  {
    if i == 0 then 0 else buf[i - 1]
  }

  /** Cell i starts a row other than the first. */
  predicate RowStart(w: nat, i: nat)
    requires w > 0
  {
    i > 0 && i % w == 0
  }

  /** The row break before cell i, if it starts a row other than the first. */
  function RowBreakText(w: nat, i: nat): seq<Byte>
    requires w > 0
  {
    if RowStart(w, i) then [CR, LF] else []
  }

  /** The colour change before cell i, if its colour differs from the one in force. */
  function CellColorText(buf: seq<Byte>, i: nat): seq<Byte>
    requires i < |buf|
  {
    if buf[i] != ColorBefore(buf, i) then ColorText(buf[i]) else []
  }

  /** The bytes for cell i: its row break, its colour change, one space. */
  function CellText(buf: seq<Byte>, w: nat, i: nat): seq<Byte>
    requires i < |buf| && w > 0
  {
    RowBreakText(w, i) + CellColorText(buf, i) + [SPACE]
  }

  /** The bytes of every cell, cell by cell. */
  function CellTexts(buf: seq<Byte>, w: nat): (cs: seq<seq<Byte>>)
    requires |buf| > 0 ==> w > 0
    ensures |cs| == |buf|
  {
    seq(|buf|, i requires 0 <= i < |buf| => CellText(buf, w, i))
  }

  /** The pieces of `ss` one after another. */
  function Concat(ss: seq<seq<Byte>>): seq<Byte> {
    if ss == [] then [] else ss[0] + Concat(ss[1..])
  }

  /** The whole stream for a `w`-wide frame: cursor to the origin, then every cell. */
  function FrameText(buf: seq<Byte>, w: nat): seq<Byte>
    requires |buf| > 0 ==> w > 0
  {
    CursorText(0, 0) + Concat(CellTexts(buf, w))
  }

  lemma {:induction false} ConcatAppend(a: seq<seq<Byte>>, b: seq<seq<Byte>>)
    ensures Concat(a + b) == Concat(a) + Concat(b)
  {
    if a == [] {
      assert a + b == b;
    } else {
      assert (a + b)[1..] == a[1..] + b;
      ConcatAppend(a[1..], b);
    }
  }

  /** Render_Engine_DisplayFrame (render_engine.c:330-358). The loop counter is a
      uint16_t compared against width*height, so the frame must have fewer than
      65536 cells for the loop to end. */
  method DisplayFrame(frame: Framebuffer, sent: seq<Byte>) returns (out: seq<Byte>)
    requires frame.Valid() && frame.width * frame.height < 0x1_0000
    ensures out == sent + FrameText(frame.buffer[..], frame.width)
  {
    ghost var buf := frame.buffer[..];
    ghost var w := frame.width;
    ghost var cs := CellTexts(buf, w);
    out := ChangeTerminalCursorLocation(sent, 0, 0);
    ghost var home := out;
    assert cs[..0] == [];
    assert out == home + Concat(cs[..0]);

    PositiveFactor(frame.width, frame.height);

    var i: U16 := 0;
    var lastColor: Byte := 0;
    while i < frame.width * frame.height
      invariant i <= |buf| == frame.width * frame.height
      invariant |buf| > 0 ==> w > 0
      invariant lastColor == ColorBefore(buf, i)
      invariant out == home + Concat(cs[..i])
    {
      var cell := frame.buffer[i];
      assert cell == buf[i];
      ghost var before := out;
      if i > 0 && i % frame.width == 0 {
        out := WriteTerminalBlock(out, CR);
        out := WriteTerminalBlock(out, LF);
      }
      ghost var afterBreak := out;
      if lastColor != cell {
        lastColor := cell;
        out := ChangeTerminalColor(out, cell);
      }
      ghost var afterColor := out;
      out := WriteTerminalBlock(out, SPACE);
      CellStep(home, before, afterBreak, afterColor, out, buf, w, i);
      i := i + 1;
    }
    assert cs[..i] == cs;
    AppendTwo(sent, CursorText(0, 0), Concat(cs));
  }

  lemma PositiveFactor(a: nat, b: nat)
    ensures a * b > 0 ==> a > 0
  {
  }

  lemma AppendTwo(p: seq<Byte>, a: seq<Byte>, b: seq<Byte>)
    ensures p + a + b == p + (a + b)
  {
  }

  /** One iteration of the loop appends the bytes of cell i to the stream. */
  lemma CellStep(home: seq<Byte>, before: seq<Byte>, afterBreak: seq<Byte>, afterColor: seq<Byte>,
                 after: seq<Byte>, buf: seq<Byte>, w: nat, i: nat)
    requires i < |buf| && w > 0
    requires before == home + Concat(CellTexts(buf, w)[..i])
    requires afterBreak == if RowStart(w, i) then before + [CR] + [LF] else before
    requires afterColor == if buf[i] != ColorBefore(buf, i) then afterBreak + ColorText(buf[i]) else afterBreak
    requires after == afterColor + [SPACE]
    ensures after == home + Concat(CellTexts(buf, w)[..i + 1])
  {
    CellWrites(before, afterBreak, afterColor, buf, w, i);
    EmitCell(home, before, afterBreak, afterColor, after, RowBreakText(w, i), CellColorText(buf, i), CellTexts(buf, w), i);
  }

  /** The writes of one iteration are cell i's row break and colour change. */
  lemma CellWrites(before: seq<Byte>, afterBreak: seq<Byte>, afterColor: seq<Byte>,
                   buf: seq<Byte>, w: nat, i: nat)
    requires i < |buf| && w > 0
    requires afterBreak == if RowStart(w, i) then before + [CR] + [LF] else before
    requires afterColor == if buf[i] != ColorBefore(buf, i) then afterBreak + ColorText(buf[i]) else afterBreak
    ensures afterBreak == before + RowBreakText(w, i)
    ensures afterColor == afterBreak + CellColorText(buf, i)
    ensures CellTexts(buf, w)[i] == RowBreakText(w, i) + CellColorText(buf, i) + [SPACE]
  {
  }

  /** One iteration of the loop appends piece i: a row break, a colour change and
      a space written one after another make up that piece. */
  lemma EmitCell(home: seq<Byte>, before: seq<Byte>, afterBreak: seq<Byte>, afterColor: seq<Byte>,
                 after: seq<Byte>, rb: seq<Byte>, cc: seq<Byte>, cs: seq<seq<Byte>>, i: nat)
    requires i < |cs| && cs[i] == rb + cc + [SPACE]
    requires before == home + Concat(cs[..i])
    requires afterBreak == before + rb && afterColor == afterBreak + cc && after == afterColor + [SPACE]
    ensures after == home + Concat(cs[..i + 1])
  {
    assert before + rb + cc + [SPACE] == before + (rb + cc + [SPACE]);
    ConcatSnoc(cs, i);
  }

  /** Dropping one fewer piece puts that piece in front. */
  lemma ConcatDrop(ss: seq<seq<Byte>>, i: nat)
    requires i < |ss|
    ensures Concat(ss[i..]) == ss[i] + Concat(ss[i + 1..])
  {
    assert ss[i..][0] == ss[i] && ss[i..][1..] == ss[i + 1..];
  }

  /** Taking one more piece appends that piece. */
  lemma ConcatSnoc(ss: seq<seq<Byte>>, i: nat)
    requires i < |ss|
    ensures Concat(ss[..i + 1]) == Concat(ss[..i]) + ss[i]
  {
    assert ss[..i + 1] == ss[..i] + [ss[i]];
    ConcatAppend(ss[..i], [ss[i]]);
    assert Concat([ss[i]]) == ss[i] + Concat([]);
  }

  // ---------------------------------------------------------------------------
  // Counting the blocks

  function CountSpaces(s: seq<Byte>): nat {
    if s == [] then 0 else CountSpaces(s[1..]) + (if s[0] == SPACE then 1 else 0)
  }

  lemma {:induction false} CountSpacesAppend(a: seq<Byte>, b: seq<Byte>)
    ensures CountSpaces(a + b) == CountSpaces(a) + CountSpaces(b)
  {
    if a == [] {
      assert a + b == b;
    } else {
      assert (a + b)[1..] == a[1..] + b;
      CountSpacesAppend(a[1..], b);
    }
  }

  lemma {:induction false} NoSpaces(s: seq<Byte>)
    requires forall k :: 0 <= k < |s| ==> s[k] != SPACE
    ensures CountSpaces(s) == 0
  {
    if s != [] {
      NoSpaces(s[1..]);
    }
  }

  /** A colour change holds no space. */
  lemma ColorTextSpaces(c: Byte)
    ensures CountSpaces(ColorText(c)) == 0
  {
    NumberTextDigits(c);
    NoSpaces(ColorText(c));
  }

  /** Each cell's bytes hold exactly one space. */
  lemma CellSpaces(buf: seq<Byte>, w: nat, i: nat)
    requires i < |buf| && w > 0
    ensures CountSpaces(CellText(buf, w, i)) == 1
  {
    ColorTextSpaces(buf[i]);
    assert [CR, LF][1..] == [LF] && [LF][1..] == [] && [SPACE][1..] == [];
    CountSpacesAppend(RowBreakText(w, i), CellColorText(buf, i));
    CountSpacesAppend(RowBreakText(w, i) + CellColorText(buf, i), [SPACE]);
  }

  lemma {:induction false} ConcatSpaces(ss: seq<seq<Byte>>)
    requires forall k :: 0 <= k < |ss| ==> CountSpaces(ss[k]) == 1
    ensures CountSpaces(Concat(ss)) == |ss|
  {
    if ss != [] {
      ConcatSpaces(ss[1..]);
      CountSpacesAppend(ss[0], Concat(ss[1..]));
    }
  }

  /** The stream holds exactly one space, one block on screen, per cell. */
  lemma FrameSpaces(buf: seq<Byte>, w: nat)
    requires |buf| > 0 ==> w > 0
    ensures CountSpaces(FrameText(buf, w)) == |buf|
  {
    var home: seq<Byte> := [ESC, LEFT_BRACKET, DIGIT_ZERO + 1, SEMICOLON, DIGIT_ZERO + 1, CURSOR_FINAL];
    assert NumberText(1) == [DIGIT_ZERO + 1];
    assert CursorText(0, 0) == home;
    NoSpaces(home);
    var cs := CellTexts(buf, w);
    forall k | 0 <= k < |cs| ensures CountSpaces(cs[k]) == 1 {
      CellSpaces(buf, w, k);
    }
    ConcatSpaces(cs);
    CountSpacesAppend(home, Concat(cs));
  }

  // ---------------------------------------------------------------------------
  // Reading the stream back

  /** Length of the run of digits that starts `s`. */
  function DigitRun(s: seq<Byte>): (n: nat)
    ensures n <= |s| && AllDigits(s[..n])
    ensures n < |s| ==> !IsDigit(s[n])
  {
    if s != [] && IsDigit(s[0]) then
      var n := 1 + DigitRun(s[1..]);
      assert s[..n] == [s[0]] + s[1..][..n - 1];
      n
    else 0
  }

  /** ESC [ digits `final` at the start of `s`: the number and the length read. */
  function ParseEscape(s: seq<Byte>, final: Byte): (r: Option<(nat, nat)>)
    ensures r.Some? ==> r.value.1 <= |s|
  {
    if |s| >= 2 && s[0] == ESC && s[1] == LEFT_BRACKET then
      var n := DigitRun(s[2..]);
      if 2 + n < |s| && s[2 + n] == final then
        assert s[2..][..n] == s[2..2 + n];
        Some((DigitsValue(s[2..2 + n]), 3 + n))
      else None
    else None
  }

  /** ESC [ row ; column H at the start of `s`: row, column, length read. */
  function ParseCursor(s: seq<Byte>): (r: Option<(nat, nat, nat)>)
    ensures r.Some? ==> r.value.2 <= |s|
  {
    if |s| >= 2 && s[0] == ESC && s[1] == LEFT_BRACKET then
      var n := DigitRun(s[2..]);
      if 2 + n < |s| && s[2 + n] == SEMICOLON then
        var rest := s[3 + n..];
        var m := DigitRun(rest);
        if m < |rest| && rest[m] == CURSOR_FINAL then
          assert s[2..][..n] == s[2..2 + n];
          Some((DigitsValue(s[2..2 + n]), DigitsValue(rest[..m]), 4 + n + m))
        else None
      else None
    else None
  }

  /** One block as a terminal shows it: its colour, whether a row break came before
      it, and whether a colour change came before it. */
  datatype CellView = CellView(color: nat, rowStart: bool, recolored: bool)

  datatype Screen = Screen(row: nat, column: nat, cells: seq<CellView>)

  /** An optional CR LF at the start of `s`: whether it is there, and what follows. */
  function SkipRowBreak(s: seq<Byte>): (r: (bool, seq<Byte>))
    ensures |r.1| <= |s|
  {
    if |s| >= 2 && s[0] == CR && s[1] == LF then (true, s[2..]) else (false, s)
  }

  /** An optional colour change at the start of `s`: the colour then in force,
      whether it was changed, and what follows. */
  function ReadColor(s: seq<Byte>, current: nat): (r: (nat, bool, seq<Byte>))
    ensures |r.2| <= |s|
  {
    match ParseEscape(s, COLOR_FINAL)
    case Some((color, n)) => (color, true, s[n..])
    case None => (current, false, s)
  }

  /** Reads blocks, each with an optional CR LF before it and an optional colour
      change after that, starting with colour `current` in force. */
  function DecodeCells(s: seq<Byte>, current: nat): Option<seq<CellView>>
    decreases |s|
  {
    if s == [] then Some([])
    else
      var (rowStart, s1) := SkipRowBreak(s);
      var (color, recolored, s2) := ReadColor(s1, current);
      if s2 != [] && s2[0] == SPACE then
        match DecodeCells(s2[1..], color)
        case None => None
        case Some(rest) => Some([CellView(color, rowStart, recolored)] + rest)
      else None
  }

  /** Reads a whole frame stream: the cursor position, then the blocks, with the
      terminal's default colour 0 in force at the start. */
  function Decode(s: seq<Byte>): Option<Screen> {
    match ParseCursor(s)
    case None => None
    case Some((row, column, n)) =>
      match DecodeCells(s[n..], 0)
      case None => None
      case Some(cells) => Some(Screen(row, column, cells))
  }

  /** What the stream of a frame is meant to show: cell i in colour buf[i], a row
      break before each cell that starts a row after the first, and a colour change
      exactly where the colour differs from the one in force. */
  function Views(buf: seq<Byte>, w: nat): (vs: seq<CellView>)
    requires |buf| > 0 ==> w > 0
    ensures |vs| == |buf|
  {
    seq(|buf|, i requires 0 <= i < |buf| =>
      CellView(buf[i], RowStart(w, i), buf[i] != ColorBefore(buf, i)))
  }

  lemma {:induction false} DigitRunStops(ds: seq<Byte>, rest: seq<Byte>)
    requires AllDigits(ds) && rest != [] && !IsDigit(rest[0])
    ensures DigitRun(ds + rest) == |ds|
  {
    if ds != [] {
      assert (ds + rest)[1..] == ds[1..] + rest;
      DigitRunStops(ds[1..], rest);
    }
  }

  /** A colour change reads back as the colour it selects. */
  lemma ParseColorText(c: Byte, rest: seq<Byte>)
    ensures ParseEscape(ColorText(c) + rest, COLOR_FINAL) == Some((c as nat, |ColorText(c)|))
  {
    var ds := NumberText(c);
    NumberTextDigits(c);
    var s := ColorText(c) + rest;
    assert s[2..] == ds + ([COLOR_FINAL] + rest);
    DigitRunStops(ds, [COLOR_FINAL] + rest);
    assert s[2..2 + |ds|] == ds;
  }

  /** A row break is recognised exactly when there is one. */
  lemma SkipRowBreakText(w: nat, i: nat, t: seq<Byte>)
    requires w > 0 && t != [] && t[0] != CR
    ensures SkipRowBreak(RowBreakText(w, i) + t) == (RowStart(w, i), t)
  {
    if RowStart(w, i) {
      assert (RowBreakText(w, i) + t)[2..] == t;
    } else {
      assert RowBreakText(w, i) + t == t;
    }
  }

  lemma SkipCellRowBreak(buf: seq<Byte>, w: nat, i: nat, rest: seq<Byte>)
    requires i < |buf| && w > 0
    ensures SkipRowBreak(CellText(buf, w, i) + rest) ==
      (RowStart(w, i), CellColorText(buf, i) + ([SPACE] + rest))
  {
    var t := CellColorText(buf, i) + ([SPACE] + rest);
    assert t[0] == ESC || t[0] == SPACE;
    assert CellText(buf, w, i) + rest == RowBreakText(w, i) + t;
    SkipRowBreakText(w, i, t);
  }

  lemma ReadCellColor(buf: seq<Byte>, i: nat, rest: seq<Byte>)
    requires i < |buf|
    ensures ReadColor(CellColorText(buf, i) + ([SPACE] + rest), ColorBefore(buf, i)) ==
      (buf[i], buf[i] != ColorBefore(buf, i), [SPACE] + rest)
  {
    if buf[i] != ColorBefore(buf, i) {
      ParseColorText(buf[i], [SPACE] + rest);
      assert (ColorText(buf[i]) + ([SPACE] + rest))[|ColorText(buf[i])|..] == [SPACE] + rest;
    } else {
      assert CellColorText(buf, i) + ([SPACE] + rest) == [SPACE] + rest;
    }
  }

  /** Cell i's bytes read back as cell i's view, with its colour then in force. */
  lemma DecodeCell(buf: seq<Byte>, w: nat, i: nat, rest: seq<Byte>, tail: seq<CellView>)
    requires i < |buf| && w > 0
    requires DecodeCells(rest, buf[i]) == Some(tail)
    ensures DecodeCells(CellText(buf, w, i) + rest, ColorBefore(buf, i)) ==
      Some([CellView(buf[i], RowStart(w, i), buf[i] != ColorBefore(buf, i))] + tail)
  {
    SkipCellRowBreak(buf, w, i, rest);
    ReadCellColor(buf, i, rest);
    assert ([SPACE] + rest)[1..] == rest;
  }

  /** The cells from i on read back as their views, given the colour in force before cell i. */
  predicate ReadsBackFrom(buf: seq<Byte>, w: nat, i: nat)
    requires i <= |buf| && (|buf| > 0 ==> w > 0)
  {
    DecodeCells(Concat(CellTexts(buf, w)[i..]), ColorBefore(buf, i)) == Some(Views(buf, w)[i..])
  }

  lemma {:induction false} DecodeCellsFrom(buf: seq<Byte>, w: nat, i: nat)
    requires i <= |buf| && (|buf| > 0 ==> w > 0)
    ensures ReadsBackFrom(buf, w, i)
    decreases |buf| - i
  {
    if i < |buf| {
      DecodeCellsFrom(buf, w, i + 1);
      DecodeCellsStep(buf, w, i);
    } else {
      DecodeNoCells(buf, w);
    }
  }

  /** Past the last cell there is nothing to read and nothing to show. */
  lemma DecodeNoCells(buf: seq<Byte>, w: nat)
    requires |buf| > 0 ==> w > 0
    ensures ReadsBackFrom(buf, w, |buf|)
  {
    assert CellTexts(buf, w)[|buf|..] == [] && Views(buf, w)[|buf|..] == [];
  }

  /** Cell i in front of the cells after it reads back as its view in front of theirs. */
  lemma DecodeCellsStep(buf: seq<Byte>, w: nat, i: nat)
    requires i < |buf| && w > 0
    requires ReadsBackFrom(buf, w, i + 1)
    ensures ReadsBackFrom(buf, w, i)
  {
    var cs, vs := CellTexts(buf, w), Views(buf, w);
    assert ColorBefore(buf, i + 1) == buf[i];
    ConcatDrop(cs, i);
    DecodeCell(buf, w, i, Concat(cs[i + 1..]), vs[i + 1..]);
    SliceDrop(vs, i);
  }

  lemma SliceDrop<T>(s: seq<T>, i: nat)
    requires i < |s|
    ensures s[i..] == [s[i]] + s[i + 1..]
  {
  }

  /** Round trip: a terminal reading the stream of a frame puts the cursor at row 1,
      column 1 and then shows every cell in its colour, with the row breaks and the
      colour changes where they belong, and nothing else. */
  lemma DisplayRoundTrip(buf: seq<Byte>, w: nat)
    requires |buf| > 0 ==> w > 0
    ensures Decode(FrameText(buf, w)) == Some(Screen(1, 1, Views(buf, w)))
  {
    var cs := CellTexts(buf, w);
    var s := FrameText(buf, w);
    HomeParses(Concat(cs));
    assert s[6..] == Concat(cs[0..]) by {
      assert cs[0..] == cs;
    }
    DecodeCellsFrom(buf, w, 0);
    assert Views(buf, w)[0..] == Views(buf, w);
  }

  /** The home sequence at the head of a stream reads back as row 1, column 1. */
  lemma HomeParses(rest: seq<Byte>)
    ensures ParseCursor(CursorText(0, 0) + rest) == Some((1, 1, 6))
    ensures (CursorText(0, 0) + rest)[6..] == rest
  {
    ParseCursorText(0, 0, rest);
    assert NumberText(1) == [DIGIT_ZERO + 1];
  }

  /** A cursor move reads back as the one-based row and column it names, with the
      uint8_t wrap of y + 1 and x + 1. */
  lemma ParseCursorText(x: Byte, y: Byte, rest: seq<Byte>)
    ensures ParseCursor(CursorText(x, y) + rest) == Some(((y + 1) % 0x100, (x + 1) % 0x100, |CursorText(x, y)|))
  {
    var ds, es := NumberText((y + 1) % 0x100), NumberText((x + 1) % 0x100);
    NumberTextDigits((y + 1) % 0x100);
    NumberTextDigits((x + 1) % 0x100);
    ParseCursorWith(ds, es, rest, CursorText(x, y) + rest, (y + 1) % 0x100, (x + 1) % 0x100, |CursorText(x, y)|);
  }

  /** ESC [ digits ; digits H, then anything, reads back as the two numbers and the
      sequence's own length. */
  lemma ParseCursorWith(ds: seq<Byte>, es: seq<Byte>, rest: seq<Byte>, s: seq<Byte>, row: nat, column: nat, length: nat)
    requires AllDigits(ds) && AllDigits(es) && row == DigitsValue(ds) && column == DigitsValue(es)
    requires s == [ESC, LEFT_BRACKET] + ds + [SEMICOLON] + es + [CURSOR_FINAL] + rest
    requires length == 4 + |ds| + |es|
    ensures ParseCursor(s) == Some((row, column, length))
  {
    var tail := [CURSOR_FINAL] + rest;
    var mid := [SEMICOLON] + (es + tail);
    var head := [ESC, LEFT_BRACKET] + ds + [SEMICOLON];
    AppendTwo(head + es, [CURSOR_FINAL], rest);
    AppendTwo(head, es, tail);
    AppendTwo([ESC, LEFT_BRACKET] + ds, [SEMICOLON], es + tail);
    AppendTwo([ESC, LEFT_BRACKET], ds, mid);
    CursorFields(ds, es, rest, tail, mid, s);
    ParseCursorOf(s, |ds|, |es|, row, column, length);
  }

  /** In ESC [ digits ; digits H the two digit runs end where the separators are. */
  lemma CursorFields(ds: seq<Byte>, es: seq<Byte>, rest: seq<Byte>, tail: seq<Byte>, mid: seq<Byte>, s: seq<Byte>)
    requires AllDigits(ds) && AllDigits(es)
    requires tail == [CURSOR_FINAL] + rest && mid == [SEMICOLON] + (es + tail)
    requires s == [ESC, LEFT_BRACKET] + (ds + mid)
    ensures |s| >= 2 && s[0] == ESC && s[1] == LEFT_BRACKET
    ensures DigitRun(s[2..]) == |ds| && s[2..2 + |ds|] == ds && 2 + |ds| < |s| && s[2 + |ds|] == SEMICOLON
    ensures DigitRun(s[3 + |ds|..]) == |es| && s[3 + |ds|..][..|es|] == es
    ensures |es| < |s[3 + |ds|..]| && s[3 + |ds|..][|es|] == CURSOR_FINAL
  {
    assert s[2..] == ds + mid;
    DigitRunStops(ds, mid);
    var r := s[3 + |ds|..];
    assert r == es + tail;
    DigitRunStops(es, tail);
  }

  /** The steps ParseCursor takes, one by one, give its result. */
  lemma ParseCursorOf(s: seq<Byte>, n: nat, m: nat, row: nat, column: nat, length: nat)
    requires |s| >= 2 && s[0] == ESC && s[1] == LEFT_BRACKET
    requires DigitRun(s[2..]) == n && 2 + n < |s| && s[2 + n] == SEMICOLON
    requires DigitRun(s[3 + n..]) == m && m < |s[3 + n..]| && s[3 + n..][m] == CURSOR_FINAL
    requires AllDigits(s[2..2 + n]) && row == DigitsValue(s[2..2 + n]) && column == DigitsValue(s[3 + n..][..m])
    requires length == 4 + n + m
    ensures ParseCursor(s) == Some((row, column, length))
  {
  }
}
