/** src/common/color.rs: a colour with both channels always set, written
    as one SGR sequence (ECMA-48 section 8.3.117) selecting the 256-colour
    foreground and background. */
module CommonColor {
  import opened Ints
  import opened Decimal
  import C = Color

  datatype Color = Color(bg: u8, fg: u8)

  /** `Color::RESET`: select the default rendition. */
  const RESET: string := "\U{1B}[0m"

  /** `new(bg_color, fg_color)`: the first argument is the background. */
  function New(bgColor: u8, fgColor: u8): Color { Color(bgColor, fgColor) }

  function Null(): Color { Color(0, 0) }

  /** White (7) on black (0). */
  function Text(): Color { Color(0, 7) }

  /** `From<&Color> for String`: foreground first, then background. */
  function ToString(c: Color): (s: string)
    ensures |s| >= 3 && s[..2] == C.ESC_CSI && s[|s| - 1] == 'm'
  {
    C.ESC_CSI + C.FG_SELECT + Show(c.fg) + ";" + C.BG_SELECT + Show(c.bg) + "m"
  }

  lemma ConstructorChannels(bgColor: u8, fgColor: u8)
    ensures New(bgColor, fgColor).bg == bgColor && New(bgColor, fgColor).fg == fgColor
    ensures Null() == New(0, 0) && Text() == New(0, 7)
  {
  }

  /** The same colour with both channels set in src/color.rs is written
      identically. */
  lemma AgreesWithOptionalColor(c: Color)
    ensures ToString(c) == C.ToString(C.New(c.bg, c.fg))
  {
  }

  /** Distinct colours give distinct strings. */
  lemma ToStringInjective(a: Color, b: Color)
    requires ToString(a) == ToString(b)
    ensures a == b
  {
    AgreesWithOptionalColor(a);
    AgreesWithOptionalColor(b);
    C.ToStringInjective(C.New(a.bg, a.fg), C.New(b.bg, b.fg));
  }

  /** Both colour constructors agree on the text colour. */
  lemma TextAgrees()
    ensures ToString(Text()) == C.ToString(C.Text()) == "\U{1B}[38;5;7;48;5;0m"
  {
    C.TextString();
  }
}
