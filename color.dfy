/** src/color.rs: a terminal colour whose background and foreground are
    each an optional 256-colour palette index, and the SGR escape sequence
    (ECMA-48 section 8.3.117) that selects it with the `38;5;n` (foreground)
    and `48;5;n` (background) parameters. */
module Color {
  import opened Ints
  import W = Wrappers
  import opened Decimal

  datatype Color = Color(bg: W.Option<u8>, fg: W.Option<u8>)

  /** `Color::RESET`: select the default rendition. */
  const RESET: string := "\U{1B}[0m"

  const ESC_CSI: string := "\U{1B}["
  const FG_SELECT: string := "38;5;"
  const BG_SELECT: string := "48;5;"

  function New(bg: u8, fg: u8): Color { Color(W.Some(bg), W.Some(fg)) }

  /** Neither channel set: emits nothing. */
  function None(): Color { Color(W.None, W.None) }

  function Null(): Color { Color(W.Some(0), W.Some(0)) }

  /** White (7) on black (0). */
  function Text(): Color { Color(W.Some(0), W.Some(7)) }

  /** `From<&Color> for String`: both channels give foreground then
      background, one channel gives its selector alone, none gives "". */
  function ToString(c: Color): (s: string)
    ensures s == "" <==> c == None()
  {
    if c.bg.Some? then
      if c.fg.Some? then ESC_CSI + FG_SELECT + Show(c.fg.value) + ";" + BG_SELECT + Show(c.bg.value) + "m"
      else ESC_CSI + BG_SELECT + Show(c.bg.value) + "m"
    else if c.fg.Some? then ESC_CSI + FG_SELECT + Show(c.fg.value) + "m"
    else ""
  }

  /** The constructors set the channels they name. */
  lemma ConstructorChannels(bg: u8, fg: u8)
    ensures New(bg, fg).bg == W.Some(bg) && New(bg, fg).fg == W.Some(fg)
    ensures None().bg.None? && None().fg.None?
    ensures Null() == New(0, 0) && Text() == New(0, 7)
  {
  }

  /** The text colour is written as foreground 7 on background 0. */
  lemma TextString()
    ensures ToString(Text()) == "\U{1B}[38;5;7;48;5;0m"
  {
    assert Show(7) == "7" && Show(0) == "0";
  }

  /** A parameter character of the sequence: a digit or the separator `;`. */
  predicate IsParameterChar(c: char) { IsDigit(c) || c == ';' }

  /** A non-empty string is one control sequence: ESC `[`, parameter
      characters only, then the final `m`. */
  lemma ToStringIsSgr(c: Color)
    requires c != None()
    ensures var s := ToString(c);
      |s| >= 3 && s[..2] == ESC_CSI && s[|s| - 1] == 'm'
      && forall i :: 2 <= i < |s| - 1 ==> IsParameterChar(s[i])
  {
  }

  lemma DropPrefix(p: string, u: string, v: string)
    requires p + u == p + v
    ensures u == v
  {
    assert u == (p + u)[|p|..] && v == (p + v)[|p|..];
  }

  lemma DropSuffix(u: string, v: string, q: string)
    requires u + q == v + q
    ensures u == v
  {
    assert u == (u + q)[..|u|] && v == (v + q)[..|v|];
  }

  /** What follows the foreground number: the background selector, if any, and `m`. */
  function FgTail(bg: W.Option<u8>): string
  {
    if bg.Some? then ";" + BG_SELECT + Show(bg.value) + "m" else "m"
  }

  lemma FgForm(c: Color)
    requires c.fg.Some?
    ensures ToString(c) == ESC_CSI + FG_SELECT + (Show(c.fg.value) + FgTail(c.bg))
  {
  }

  lemma FgTailInjective(x: W.Option<u8>, y: W.Option<u8>)
    requires FgTail(x) == FgTail(y)
    ensures x == y
  {
    if x.Some? {
      assert FgTail(y)[0] == ';';
      assert FgTail(x) == (";" + BG_SELECT) + (Show(x.value) + "m");
      assert FgTail(y) == (";" + BG_SELECT) + (Show(y.value) + "m");
      DropPrefix(";" + BG_SELECT, Show(x.value) + "m", Show(y.value) + "m");
      DropSuffix(Show(x.value), Show(y.value), "m");
      ShowInjective(x.value, y.value);
    } else {
      assert FgTail(y)[0] == 'm';
    }
  }

  /** The first parameter character tells whether a foreground is selected. */
  lemma SelectorDigit(c: Color)
    ensures ToString(c) != "" ==> ToString(c)[2] == if c.fg.Some? then '3' else '4'
  {
  }

  /** Different colours give different sequences, so the text identifies
      the colour. */
  lemma ToStringInjective(a: Color, b: Color)
    requires ToString(a) == ToString(b)
    ensures a == b
  {
    if a.fg.Some? && b.fg.Some? {
      FgForm(a);
      FgForm(b);
      DropPrefix(ESC_CSI + FG_SELECT, Show(a.fg.value) + FgTail(a.bg), Show(b.fg.value) + FgTail(b.bg));
      DigitsThenNonDigit(Show(a.fg.value), FgTail(a.bg), Show(b.fg.value), FgTail(b.bg));
      ShowInjective(a.fg.value, b.fg.value);
      FgTailInjective(a.bg, b.bg);
    } else if a.fg.Some? || b.fg.Some? {
      SelectorDigit(a);
      SelectorDigit(b);
      assert false;
    } else if a.bg.Some? && b.bg.Some? {
      assert ToString(a) == ESC_CSI + BG_SELECT + (Show(a.bg.value) + "m");
      assert ToString(b) == ESC_CSI + BG_SELECT + (Show(b.bg.value) + "m");
      DropPrefix(ESC_CSI + BG_SELECT, Show(a.bg.value) + "m", Show(b.bg.value) + "m");
      DropSuffix(Show(a.bg.value), Show(b.bg.value), "m");
      ShowInjective(a.bg.value, b.bg.value);
    }
  }
}
