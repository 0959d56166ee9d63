/** src/screen.rs: a buffer of coloured characters, one per terminal cell
    in row-major order, that the renderer draws into and `display` turns
    into one string of escape sequences: a cursor position (CUP, ECMA-48
    section 8.3.21) before each row, and within a row only the colour
    changes (SGR, ECMA-48 section 8.3.117). The size is a
    `crate::common::Point`, which is not part of this model;
    `Common.Point2`, the same pair of `i32` and the type the renderer passes
    in, stands in for it. */
module Screen {
  import opened Ints
  import opened Decimal
  import opened Common
  import W = Wrappers
  import C = Color

  datatype Pixel = Pixel(ch: char, color: C.Color)

  /** `Pixel::from(char)`: the character in the text colour. */
  function PixelFrom(ch: char): (p: Pixel)
    ensures p.ch == ch && p.color == C.Color(W.Some(0), W.Some(7))
  {
    Pixel(ch, C.Text())
  }

  /** A buffer of n blank pixels. */
  function Blank(n: nat): (r: seq<Pixel>)
    ensures |r| == n && forall i :: 0 <= i < n ==> r[i] == PixelFrom(' ')
  {
    seq(n, _ => PixelFrom(' '))
  }

  /** The buffer with `text` written from `index` on, one pixel per
      character, all in `color`. */
  function Overwrite(buffer: seq<Pixel>, index: nat, text: string, color: C.Color): (r: seq<Pixel>)
    requires index + |text| <= |buffer|
    ensures |r| == |buffer|
    ensures forall i :: 0 <= i < |r| && !(index <= i < index + |text|) ==> r[i] == buffer[i]
    ensures forall k :: 0 <= k < |text| ==> r[index + k] == Pixel(text[k], color)
  {
    buffer[..index] + seq(|text|, k requires 0 <= k < |text| => Pixel(text[k], color)) + buffer[index + |text|..]
  }

  /** The colour the terminal uses after `over` is selected on top of
      `under`: each channel `over` sets replaces the one in effect. This is
      also how `display` updates `last_color` from `change_color`. */
  function Overlay(under: C.Color, over: C.Color): C.Color
  {
    C.Color(if over.bg.Some? then over.bg else under.bg,
            if over.fg.Some? then over.fg else under.fg)
  }

  /** `change_color`: the channels of `color` that are set and differ from
      the ones last emitted. */
  function Change(last: C.Color, color: C.Color): C.Color
  {
    C.Color(if color.bg.Some? && color.bg != last.bg then color.bg else W.None,
            if color.fg.Some? && color.fg != last.fg then color.fg else W.None)
  }

  /** Emitting only the change leaves the terminal in the colour that
      emitting the whole colour would. */
  lemma ChangeSuffices(last: C.Color, color: C.Color)
    ensures Overlay(last, Change(last, color)) == Overlay(last, color)
  {
  }

  /** Nothing is emitted exactly when the pixel's colour is already in effect. */
  lemma NothingEmittedIff(last: C.Color, color: C.Color)
    ensures Change(last, color) == C.None() <==> Overlay(last, color) == last
  {
  }

  /** The `change_color` computation of `display`. */
  method ChangeColor(lastColor: C.Color, color: C.Color) returns (changeColor: C.Color)
    ensures changeColor == Change(lastColor, color)
  {
    changeColor := C.None();
    if color.bg.Some? && color.bg != lastColor.bg {
      changeColor := changeColor.(bg := color.bg);
    }
    if color.fg.Some? && color.fg != lastColor.fg {
      changeColor := changeColor.(fg := color.fg);
    }
  }

  /** The `last_color` update of `display`: the channels just emitted
      replace the ones before. */
  method TrackColor(lastColor: C.Color, changeColor: C.Color) returns (r: C.Color)
    ensures r == Overlay(lastColor, changeColor)
  {
    r := lastColor;
    if changeColor.bg.Some? {
      r := r.(bg := changeColor.bg);
    }
    if changeColor.fg.Some? {
      r := r.(fg := changeColor.fg);
    }
  }

  /** One pass of the inner loop of `display`: the colour channels that
      change, then the character, and the colour now in effect. */
  method EmitNext(ghost line: seq<Pixel>, ghost x: nat, s: string, lastColor: C.Color, pixel: Pixel)
    returns (text: string, nextColor: C.Color)
    requires x < |line| && pixel == line[x]
    requires s == RowText(line[..x]) && lastColor == InEffect(line[..x])
    ensures text == RowText(line[..x + 1]) && nextColor == InEffect(line[..x + 1])
  {
    var changeColor := ChangeColor(lastColor, pixel.color);
    EmitPixel(line, x, s, lastColor, pixel.ch);
    ChangeSuffices(lastColor, pixel.color);
    text := s + C.ToString(changeColor) + [pixel.ch];
    nextColor := TrackColor(lastColor, changeColor);
  }

  /** The inner loop of `display`: the pixels of one row, each after the
      colour channels that change, with no colour emitted at the start of
      the row. */
  method RenderLine(line: seq<Pixel>) returns (s: string)
    requires |line| <= I32_MAX
    ensures s == RowText(line)
  {
    s := "";
    var lastColor := C.None();
    var x: i32 := 0;
    while x < |line|
      invariant 0 <= x <= |line|
      invariant s == RowText(line[..x]) && lastColor == InEffect(line[..x])
    {
      s, lastColor := EmitNext(line, x, s, lastColor, line[x]);
      x := x + 1;
    }
    assert line[..x] == line;
  }

  /** The characters of a row, in order. */
  function Chars(row: seq<Pixel>): (s: string)
    ensures |s| == |row|
  {
    if row == [] then [] else Chars(row[..|row| - 1]) + [row[|row| - 1].ch]
  }

  /** Character i of a row's characters is pixel i's. */
  lemma {:induction false} CharsAt(row: seq<Pixel>)
    ensures forall i :: 0 <= i < |row| ==> Chars(row)[i] == row[i].ch
  {
    if row != [] {
      CharsAt(row[..|row| - 1]);
    }
  }

  /** `last_color` after a row's pixels: the colour in effect on the
      terminal, starting from none at the row start, with each pixel's set
      channels replacing the ones before. */
  function InEffect(row: seq<Pixel>): C.Color
  {
    if row == [] then C.None() else Overlay(InEffect(row[..|row| - 1]), row[|row| - 1].color)
  }

  /** What `display` emits for one row: for each pixel the channels that
      change from the colour in effect, then its character. */
  function RowText(row: seq<Pixel>): string
  {
    if row == [] then ""
    else
      var init := row[..|row| - 1];
      RowText(init) + C.ToString(Change(InEffect(init), row[|row| - 1].color)) + [row[|row| - 1].ch]
  }

  /** One more pixel of a row. */
  lemma RowTextSnoc(line: seq<Pixel>, x: nat)
    requires x < |line|
    ensures RowText(line[..x + 1])
      == RowText(line[..x]) + C.ToString(Change(InEffect(line[..x]), line[x].color)) + [line[x].ch]
    ensures InEffect(line[..x + 1]) == Overlay(InEffect(line[..x]), line[x].color)
  {
    assert line[..x + 1][..x] == line[..x];
  }

  /** The loop step of `display` within a row: emitting the change and the
      character of pixel x extends the row text by that pixel. */
  lemma EmitPixel(line: seq<Pixel>, x: nat, s: string, last: C.Color, ch: char)
    requires x < |line| && s == RowText(line[..x]) && last == InEffect(line[..x]) && ch == line[x].ch
    ensures s + C.ToString(Change(last, line[x].color)) + [ch] == RowText(line[..x + 1])
    ensures Overlay(last, line[x].color) == InEffect(line[..x + 1])
  {
    RowTextSnoc(line, x);
  }

  /** In a row of one colour with both channels set, that colour is in
      effect after the first pixel. */
  lemma {:induction false} InEffectOneColour(row: seq<Pixel>, color: C.Color)
    requires color.bg.Some? && color.fg.Some?
    requires |row| > 0 && forall i :: 0 <= i < |row| ==> row[i].color == color
    ensures InEffect(row) == color
  {
    if |row| > 1 {
      InEffectOneColour(row[..|row| - 1], color);
    }
  }

  /** A non-empty row in one colour with both channels set selects the
      colour once, before the first character, and then holds only its
      characters. */
  lemma {:induction false} RowTextOneColour(row: seq<Pixel>, color: C.Color)
    requires color.bg.Some? && color.fg.Some?
    requires |row| > 0 && forall i :: 0 <= i < |row| ==> row[i].color == color
    ensures RowText(row) == C.ToString(color) + Chars(row)
  {
    var init, last := row[..|row| - 1], row[|row| - 1];
    if |row| == 1 {
      assert Change(C.None(), color) == color;
    } else {
      RowTextOneColour(init, color);
      InEffectOneColour(init, color);
      assert C.ToString(Change(InEffect(init), last.color)) == "";
      assert RowText(row) == C.ToString(color) + Chars(init) + [last.ch];
      assert C.ToString(color) + Chars(init) + [last.ch] == C.ToString(color) + (Chars(init) + [last.ch]);
    }
  }

  /** `"\x1b[{row};1H"`: move the cursor to column 1 of the 1-based row. */
  function Cup(row: nat): (s: string)
    ensures |s| >= 5 && s[..2] == C.ESC_CSI && s[|s| - 1] == 'H'
  {
    C.ESC_CSI + Show(row) + ";1H"
  }

  /** Row y of a buffer whose rows are w pixels wide. */
  function RowOf(buffer: seq<Pixel>, w: nat, y: nat): (row: seq<Pixel>)
    requires w * y + w <= |buffer|
    ensures |row| == w && forall x :: 0 <= x < w ==> row[x] == buffer[w * y + x]
  {
    buffer[w * y..w * y + w]
  }

  /** Rows 0 to n - 1 lie in a buffer of w * n pixels. */
  lemma RowsInBuffer(w: nat, n: nat)
    requires 1 <= n
    ensures 0 <= w * (n - 1) && w * (n - 1) + w == w * n
  {
  }

  /** The first n rows of the frame: for each row y its CUP to row y + 1,
      then its pixels' text starting with no colour emitted. */
  function FrameRows(buffer: seq<Pixel>, w: nat, n: nat): string
    requires w * n <= |buffer|
  {
    if n == 0 then ""
    else
      RowsInBuffer(w, n);
      FrameRows(buffer, w, n - 1) + Cup(n) + RowText(RowOf(buffer, w, n - 1))
  }

  /** The whole string `display` writes. */
  function Frame(prelude: string, buffer: seq<Pixel>, w: nat, h: nat): string
    requires w * h <= |buffer|
  {
    prelude + FrameRows(buffer, w, h)
  }

  /** n spaces. */
  function Spaces(n: nat): (s: string)
    ensures |s| == n && forall i :: 0 <= i < n ==> s[i] == ' '
  {
    seq(n, _ => ' ')
  }

  /** The first n rows of a cleared screen of width w, written directly:
      each row selects white on black once and then holds w spaces. */
  function ClearedRows(w: nat, n: nat): string
  {
    if n == 0 then "" else ClearedRows(w, n - 1) + Cup(n) + C.ToString(C.Text()) + Spaces(w)
  }

  /** Rendering a cleared buffer gives the cleared screen. */
  lemma {:induction false} ClearedFrame(w: nat, n: nat)
    requires 1 <= w
    ensures FrameRows(Blank(w * n), w, n) == ClearedRows(w, n)
  {
    if n > 0 {
      RowsInBuffer(w, n);
      var b := Blank(w * n);
      var row := RowOf(b, w, n - 1);
      RowTextOneColour(row, C.Text());
      CharsAt(row);
      assert Chars(row) == Spaces(w);
      FrameRowsPrefix(b, Blank(w * (n - 1)), w, n - 1);
      ClearedFrame(w, n - 1);
    }
  }

  /** The first rows of a frame depend only on the pixels they show. */
  lemma {:induction false} FrameRowsPrefix(a: seq<Pixel>, b: seq<Pixel>, w: nat, n: nat)
    requires w * n <= |a| && w * n <= |b| && a[..w * n] == b[..w * n]
    ensures FrameRows(a, w, n) == FrameRows(b, w, n)
  {
    if n > 0 {
      RowsInBuffer(w, n);
      assert a[..w * (n - 1)] == a[..w * n][..w * (n - 1)];
      assert b[..w * (n - 1)] == b[..w * n][..w * (n - 1)];
      FrameRowsPrefix(a, b, w, n - 1);
      var m := n - 1;
      var start := w * m;
      assert 0 <= start && start + w == w * n;
      var ra, rb := RowOf(a, w, m), RowOf(b, w, m);
      assert ra == rb by {
        forall x | 0 <= x < w
          ensures ra[x] == rb[x]
        {
          assert a[..w * n][start + x] == b[..w * n][start + x];
        }
      }
    }
  }

  /** Regrouping four pieces of text. */
  lemma Associative4(a: string, b: string, c: string, d: string)
    ensures a + b + c + d == a + (b + c + d)
  {
  }

  /** Row y of a buffer of h rows of width w lies inside it. */
  lemma RowFits(w: int, h: int, y: int)
    requires 0 <= w && 0 <= y < h
    ensures 0 <= w * y && w * y + w == w * (y + 1) <= w * h
  {
    assert w * h - w * (y + 1) == w * (h - y - 1);
  }

  /** One more row of the frame. */
  lemma FrameRowsStep(buffer: seq<Pixel>, w: nat, y: nat)
    requires w * (y + 1) <= |buffer|
    ensures w * y + w == w * (y + 1)
    ensures FrameRows(buffer, w, y + 1) == FrameRows(buffer, w, y) + Cup(y + 1) + RowText(RowOf(buffer, w, y))
  {
    RowsInBuffer(w, y + 1);
  }

  /** ESC, the first character of every control sequence. */
  const ESC: char := '\U{1B}'

  /** A final byte of a control sequence (section 5.4 of ECMA-48): any
      character from `@` to `~`. */
  predicate IsFinalByte(c: char) { '@' <= c <= '~' }

  /** The text after the first final byte of s; nothing if s has none. */
  function AfterFinal(s: string): (r: string)
    ensures |r| <= |s|
  {
    if s == [] then [] else if IsFinalByte(s[0]) then s[1..] else AfterFinal(s[1..])
  }

  /** What a terminal prints of s: every control sequence, ESC `[` up to
      and including its final byte, is removed and every other character
      is printed in order. */
  function Printed(s: string): string
    decreases |s|
  {
    if s == [] then []
    else if |s| > 1 && s[0] == ESC && s[1] == '[' then Printed(AfterFinal(s[2..]))
    else [s[0]] + Printed(s[1..])
  }

  /** Parameter characters are passed over up to the final byte. */
  lemma {:induction false} AfterFinalSkips(params: string, final: char, t: string)
    requires forall i :: 0 <= i < |params| ==> !IsFinalByte(params[i])
    requires IsFinalByte(final)
    ensures AfterFinal(params + [final] + t) == t
  {
    if params == [] {
      assert params + [final] + t == [final] + t;
    } else {
      assert (params + [final] + t)[1..] == params[1..] + [final] + t;
      AfterFinalSkips(params[1..], final, t);
    }
  }

  /** A control sequence prints nothing. */
  lemma ControlPrintsNothing(params: string, final: char, t: string)
    requires forall i :: 0 <= i < |params| ==> !IsFinalByte(params[i])
    requires IsFinalByte(final)
    ensures Printed(C.ESC_CSI + params + [final] + t) == Printed(t)
  {
    var s := C.ESC_CSI + params + [final] + t;
    assert s[0] == ESC && s[1] == '[';
    assert s[2..] == params + [final] + t;
    AfterFinalSkips(params, final, t);
  }

  /** A colour change prints nothing. */
  lemma SgrPrintsNothing(c: C.Color, t: string)
    ensures Printed(C.ToString(c) + t) == Printed(t)
  {
    var s := C.ToString(c);
    if c != C.None() {
      C.ToStringIsSgr(c);
      var params := s[2..|s| - 1];
      assert s == C.ESC_CSI + params + ['m'];
      ControlPrintsNothing(params, 'm', t);
    } else {
      assert s + t == t;
    }
  }

  /** A cursor move prints nothing. */
  lemma CupPrintsNothing(row: nat, t: string)
    ensures Printed(Cup(row) + t) == Printed(t)
  {
    var params := Show(row) + ";1";
    assert Cup(row) == C.ESC_CSI + params + ['H'];
    ControlPrintsNothing(params, 'H', t);
  }

  /** A character that does not start a control sequence is printed. */
  lemma PrintsChar(ch: char, t: string)
    requires ch != ESC
    ensures Printed([ch] + t) == [ch] + Printed(t)
  {
    assert ([ch] + t)[1..] == t;
  }

  /** Three pieces of text printed one after another, the middle one
      printing nothing. */
  lemma PrintedGlue(a: string, b: string, c: string, t: string, pa: string, pc: string)
    requires Printed(a + (b + (c + t))) == pa + Printed(b + (c + t))
    requires Printed(b + (c + t)) == Printed(c + t)
    requires Printed(c + t) == pc + Printed(t)
    ensures Printed(a + b + c + t) == pa + pc + Printed(t)
  {
    assert a + b + c + t == a + (b + (c + t));
  }

  /** The characters of two rows side by side. */
  lemma CharsConcat(a: seq<Pixel>, b: seq<Pixel>)
    ensures Chars(a + b) == Chars(a) + Chars(b)
  {
    CharsAt(a + b);
    CharsAt(a);
    CharsAt(b);
    var l, r := Chars(a + b), Chars(a) + Chars(b);
    assert forall i :: 0 <= i < |l| ==> l[i] == r[i];
  }

  /** The characters of a prefix of a buffer are those of a shorter
      prefix and then those of the pixels after it. */
  lemma CharsSplit(buffer: seq<Pixel>, i: nat, j: nat)
    requires i <= j <= |buffer|
    ensures Chars(buffer[..j]) == Chars(buffer[..i]) + Chars(buffer[i..j])
  {
    assert buffer[..j] == buffer[..i] + buffer[i..j];
    CharsConcat(buffer[..i], buffer[i..j]);
  }

  /** What a terminal prints of a row's text, whatever follows it, is the
      row's characters, in order, each exactly once. */
  lemma {:induction false} RowPrinted(row: seq<Pixel>, t: string)
    requires forall i :: 0 <= i < |row| ==> row[i].ch != ESC
    ensures Printed(RowText(row) + t) == Chars(row) + Printed(t)
  {
    if row != [] {
      var init, last := row[..|row| - 1], row[|row| - 1];
      var sgr := C.ToString(Change(InEffect(init), last.color));
      RowPrinted(init, sgr + ([last.ch] + t));
      SgrPrintsNothing(Change(InEffect(init), last.color), [last.ch] + t);
      PrintsChar(last.ch, t);
      PrintedGlue(RowText(init), sgr, [last.ch], t, Chars(init), [last.ch]);
      assert Chars(row) == Chars(init) + [last.ch];
    } else {
      assert RowText(row) + t == t;
    }
  }

  /** The pixels of a slice of a buffer are pixels of the buffer. */
  lemma NoEscapeSlice(buffer: seq<Pixel>, i: nat, j: nat)
    requires i <= j <= |buffer|
    requires forall x :: 0 <= x < |buffer| ==> buffer[x].ch != ESC
    ensures forall x :: 0 <= x < j - i ==> buffer[i..j][x].ch != ESC
  {
    forall x | 0 <= x < j - i
      ensures buffer[i..j][x].ch != ESC
    {
      assert buffer[i..j][x] == buffer[i + x];
    }
  }

  /** What a terminal prints of the first n rows of a frame, whatever
      follows them, is the characters of the buffer's first k = w * n
      pixels, in row-major order. */
  lemma {:induction false} FrameRowsPrinted(buffer: seq<Pixel>, w: nat, n: nat, k: nat, t: string)
    requires k == w * n <= |buffer|
    requires forall i :: 0 <= i < |buffer| ==> buffer[i].ch != ESC
    ensures Printed(FrameRows(buffer, w, n) + t) == Chars(buffer[..k]) + Printed(t)
  {
    if n > 0 {
      var m := n - 1;
      var start := w * m;
      assert 0 <= start && start + w == k by {
        RowsInBuffer(w, n);
      }
      var row := buffer[start..k];
      assert FrameRows(buffer, w, n) == FrameRows(buffer, w, m) + Cup(n) + RowText(row) by {
        RowsInBuffer(w, n);
        assert row == RowOf(buffer, w, m);
      }
      FrameRowsPrinted(buffer, w, m, start, Cup(n) + (RowText(row) + t));
      CupPrintsNothing(n, RowText(row) + t);
      NoEscapeSlice(buffer, start, k);
      RowPrinted(row, t);
      PrintedGlue(FrameRows(buffer, w, m), Cup(n), RowText(row), t, Chars(buffer[..start]), Chars(row));
      CharsSplit(buffer, start, k);
    } else {
      assert FrameRows(buffer, w, n) + t == t;
    }
  }

  /** Each pixel's character is printed exactly once, in row-major order:
      with nothing queued before it, what a terminal prints of the frame of
      a w by h buffer is the characters of its pixels. */
  lemma FramePrinted(buffer: seq<Pixel>, w: nat, h: nat)
    requires |buffer| == w * h
    requires forall i :: 0 <= i < |buffer| ==> buffer[i].ch != ESC
    ensures Printed(Frame("", buffer, w, h)) == Chars(buffer)
  {
    FrameRowsPrinted(buffer, w, h, |buffer|, "");
    assert Frame("", buffer, w, h) == FrameRows(buffer, w, h) + "";
    assert buffer[..|buffer|] == buffer;
  }

  /** The buffer size computed at start-up as written: `cols * rows` in
      `u16`, which panics on overflow in a debug build (None). */
  function StartupBufferSizeAsWritten(cols: u16, rows: u16): (r: W.Option<nat>)
    ensures r.Some? <==> cols * rows <= U16_MAX
    ensures r.Some? ==> r.value == cols * rows
  {
    if cols * rows <= U16_MAX then W.Some(cols * rows) else W.None
  }

  /** A 256 by 256 terminal already overflows the `u16` product. */
  lemma StartupOverflows()
    ensures StartupBufferSizeAsWritten(256, 256) == W.None
  {
  }

  class Screen {
    var preludeBuffer: string
    var pixelBuffer: seq<Pixel>
    var size: Point2

    /** The buffer has one pixel per cell of the size. */
    predicate Valid()
      reads this
    {
      0 <= size.x && 0 <= size.y && |pixelBuffer| == size.x * size.y
    }

    /** `From<W>` without the terminal: a blank screen of the terminal's
      `cols` by `rows` cells, the buffer size computed without the `u16`
      overflow of `StartupBufferSizeAsWritten`. */
    constructor (cols: u16, rows: u16)
      ensures preludeBuffer == "" && pixelBuffer == Blank(cols * rows)
      ensures size == Point2(cols, rows) && Valid()
    {
      preludeBuffer := "";
      pixelBuffer := Blank(cols * rows);
      size := New(cols, rows);
    }

    /** A blank, text-coloured buffer of `width * height` pixels and an
        empty prelude; the size is kept. */
    method Clear()
      requires 0 <= size.x * size.y <= I32_MAX
      modifies this
      ensures size == old(size)
      ensures preludeBuffer == "" && pixelBuffer == Blank(size.x * size.y)
      ensures 0 <= size.x && 0 <= size.y ==> Valid()
    {
      var bufferSize := Width(size) * Height(size);
      preludeBuffer := "";
      pixelBuffer := Blank(bufferSize);
    }

    /** A blank pixel in `color` at `width * y + x`; nothing else changes. */
    method DrawPixel(p: Point2, color: C.Color)
      requires IsI32(size.x * p.y) && IsI32(size.x * p.y + p.x)
      requires 0 <= size.x * p.y + p.x < |pixelBuffer|
      modifies this
      ensures size == old(size) && preludeBuffer == old(preludeBuffer)
      ensures pixelBuffer == old(pixelBuffer)[size.x * p.y + p.x := Pixel(' ', color)]
      ensures old(Valid()) ==> Valid()
    {
      var index := Width(size) * p.y + p.x;
      pixelBuffer := pixelBuffer[index := Pixel(' ', color)];
    }

    /** The i-th character of `text` at `width * y + x + i`: past the end
        of a row it runs on into the next one. Empty text writes nothing,
        wherever it is placed. */
    method DrawText(p: Point2, color: C.Color, text: string)
      requires IsI32(size.x * p.y) && IsI32(size.x * p.y + p.x)
      requires |text| > 0 ==> 0 <= size.x * p.y + p.x && size.x * p.y + p.x + |text| <= |pixelBuffer|
      modifies this
      ensures size == old(size) && preludeBuffer == old(preludeBuffer)
      ensures |text| == 0 ==> pixelBuffer == old(pixelBuffer)
      ensures |text| > 0 ==> pixelBuffer == Overwrite(old(pixelBuffer), size.x * p.y + p.x, text, color)
      ensures old(Valid()) ==> Valid()
    {
      var index := Width(size) * p.y + p.x;
      if |text| == 0 {
        return;
      }
      ghost var before := pixelBuffer;
      for i := 0 to |text|
        invariant size == old(size) && preludeBuffer == old(preludeBuffer)
        invariant |pixelBuffer| == |before|
        invariant forall j :: 0 <= j < |before| && !(index <= j < index + i) ==> pixelBuffer[j] == before[j]
        invariant forall k :: 0 <= k < i ==> pixelBuffer[index + k] == Pixel(text[k], color)
      {
        pixelBuffer := pixelBuffer[index + i := Pixel(text[i], color)];
      }
      ghost var written := Overwrite(before, index, text, color);
      assert forall j :: 0 <= j < |before| ==> pixelBuffer[j] == written[j] by {
        forall j | 0 <= j < |before|
          ensures pixelBuffer[j] == written[j]
        {
          if index <= j < index + |text| {
            var k := j - index;
            assert pixelBuffer[index + k] == Pixel(text[k], color) == written[index + k];
          } else {
            assert pixelBuffer[j] == before[j] == written[j];
          }
        }
      }
      assert pixelBuffer == written;
    }

    /** The string `display` writes to the terminal: the prelude, then
        for each row its cursor move and its pixels. */
    method Render() returns (s: string)
      requires 0 <= size.x && 0 <= size.y && size.x * size.y <= |pixelBuffer|
      requires size.x * size.y <= I32_MAX
      ensures s == Frame(preludeBuffer, pixelBuffer, size.x, size.y)
    {
      s := "";
      s := s + preludeBuffer;
      var w, h := Width(size), Height(size);
      var y: i32 := 0;
      while y < h
        invariant 0 <= y <= h
        invariant s == preludeBuffer + FrameRows(pixelBuffer, w, y)
      {
        RowFits(w, h, y);
        var row := y + 1;
        ghost var above := s;
        s := s + Cup(row);
        var text := RenderLine(RowOf(pixelBuffer, w, y));
        s := s + text;
        FrameRowsStep(pixelBuffer, w, y);
        Associative4(preludeBuffer, FrameRows(pixelBuffer, w, y), Cup(row), text);
        y := y + 1;
      }
    }

  }
}
