/** src/state/cell_setup.rs: the preset seed patterns, drawn with `#` for a
    living cell and ` ` for a dead one, one text line per grid row. Each
    text starts with a line break, so its first row is empty. */
module StateCellSetup {
  const ACORN: string :=
    "\n"
    + " #     \n"
    + "   #   \n"
    + "##  ###\n"

  const BLANK: string := ""

  const R_PENTONIMO: string :=
    "\n"
    + "## \n"
    + " ##\n"
    + " # \n"

  /** The five drawn rows of TERMGOL, each with its line break, written in
      three pieces of 14 characters. */
  const TERMGOL_ROW_1A: string := "##### ##### ##"
  const TERMGOL_ROW_1B: string := "##  #   #  ###"
  const TERMGOL_ROW_1C: string := "#  ###  #    \n"
  const TERMGOL_ROW_1: string := TERMGOL_ROW_1A + TERMGOL_ROW_1B + TERMGOL_ROW_1C
  const TERMGOL_ROW_2A: string := "  #   #     # "
  const TERMGOL_ROW_2B: string := "  # ## ## #   "
  const TERMGOL_ROW_2C: string := "  #   # #    \n"
  const TERMGOL_ROW_2: string := TERMGOL_ROW_2A + TERMGOL_ROW_2B + TERMGOL_ROW_2C
  const TERMGOL_ROW_3A: string := "  #   ####  ##"
  const TERMGOL_ROW_3B: string := "##  # # # #  #"
  const TERMGOL_ROW_3C: string := "# #   # #    \n"
  const TERMGOL_ROW_3: string := TERMGOL_ROW_3A + TERMGOL_ROW_3B + TERMGOL_ROW_3C
  const TERMGOL_ROW_4A: string := "  #   #     # "
  const TERMGOL_ROW_4B: string := " #  #   # #   "
  const TERMGOL_ROW_4C: string := "# #   # #    \n"
  const TERMGOL_ROW_4: string := TERMGOL_ROW_4A + TERMGOL_ROW_4B + TERMGOL_ROW_4C
  const TERMGOL_ROW_5A: string := "  #   ##### # "
  const TERMGOL_ROW_5B: string := "  # #   #  ###"
  const TERMGOL_ROW_5C: string := "   ###  #####\n"
  const TERMGOL_ROW_5: string := TERMGOL_ROW_5A + TERMGOL_ROW_5B + TERMGOL_ROW_5C

  const TERMGOL: string :=
    "\n" + TERMGOL_ROW_1 + TERMGOL_ROW_2 + TERMGOL_ROW_3 + TERMGOL_ROW_4 + TERMGOL_ROW_5

  datatype CellSetup = Acorn | Blank | RPentonimo | Termgol

  /** `From<CellSetup> for &str`: the preset text of a setup. */
  function SetupText(setup: CellSetup): string
  {
    match setup
    case Acorn => ACORN
    case Blank => BLANK
    case RPentonimo => R_PENTONIMO
    case Termgol => TERMGOL
  }

  /** Different setups have different texts. */
  lemma SetupTextInjective(a: CellSetup, b: CellSetup)
    ensures SetupText(a) == SetupText(b) ==> a == b
  {
  }

  predicate IsPresetChar(c: char) { c == '#' || c == ' ' || c == '\n' }

  /** The characters from index i on are all `#`, ` ` or line breaks. */
  function DrawnWithHashesFrom(s: string, i: nat): (b: bool)
    requires i <= |s|
    ensures b <==> forall k :: i <= k < |s| ==> IsPresetChar(s[k])
    decreases |s| - i
  {
    i == |s| || (IsPresetChar(s[i]) && DrawnWithHashesFrom(s, i + 1))
  }

  /** The text is drawn with `#`, ` ` and line breaks only. */
  ghost predicate Drawn(s: string)
  {
    forall i :: 0 <= i < |s| ==> IsPresetChar(s[i])
  }

  lemma DrawnConcat(a: string, b: string)
    requires Drawn(a) && Drawn(b)
    ensures Drawn(a + b)
  {
  }

  /** Row 1 of TERMGOL is drawn with hashes only. */
  lemma TermgolRow1Drawn()
    ensures Drawn(TERMGOL_ROW_1)
  {
    assert DrawnWithHashesFrom(TERMGOL_ROW_1A, 0);
    assert DrawnWithHashesFrom(TERMGOL_ROW_1B, 0);
    assert DrawnWithHashesFrom(TERMGOL_ROW_1C, 0);
    DrawnConcat(TERMGOL_ROW_1A, TERMGOL_ROW_1B);
    DrawnConcat(TERMGOL_ROW_1A + TERMGOL_ROW_1B, TERMGOL_ROW_1C);
  }

  /** Row 2 of TERMGOL is drawn with hashes only. */
  lemma TermgolRow2Drawn()
    ensures Drawn(TERMGOL_ROW_2)
  {
    assert DrawnWithHashesFrom(TERMGOL_ROW_2A, 0);
    assert DrawnWithHashesFrom(TERMGOL_ROW_2B, 0);
    assert DrawnWithHashesFrom(TERMGOL_ROW_2C, 0);
    DrawnConcat(TERMGOL_ROW_2A, TERMGOL_ROW_2B);
    DrawnConcat(TERMGOL_ROW_2A + TERMGOL_ROW_2B, TERMGOL_ROW_2C);
  }

  /** Row 3 of TERMGOL is drawn with hashes only. */
  lemma TermgolRow3Drawn()
    ensures Drawn(TERMGOL_ROW_3)
  {
    assert DrawnWithHashesFrom(TERMGOL_ROW_3A, 0);
    assert DrawnWithHashesFrom(TERMGOL_ROW_3B, 0);
    assert DrawnWithHashesFrom(TERMGOL_ROW_3C, 0);
    DrawnConcat(TERMGOL_ROW_3A, TERMGOL_ROW_3B);
    DrawnConcat(TERMGOL_ROW_3A + TERMGOL_ROW_3B, TERMGOL_ROW_3C);
  }

  /** Row 4 of TERMGOL is drawn with hashes only. */
  lemma TermgolRow4Drawn()
    ensures Drawn(TERMGOL_ROW_4)
  {
    assert DrawnWithHashesFrom(TERMGOL_ROW_4A, 0);
    assert DrawnWithHashesFrom(TERMGOL_ROW_4B, 0);
    assert DrawnWithHashesFrom(TERMGOL_ROW_4C, 0);
    DrawnConcat(TERMGOL_ROW_4A, TERMGOL_ROW_4B);
    DrawnConcat(TERMGOL_ROW_4A + TERMGOL_ROW_4B, TERMGOL_ROW_4C);
  }

  /** Row 5 of TERMGOL is drawn with hashes only. */
  lemma TermgolRow5Drawn()
    ensures Drawn(TERMGOL_ROW_5)
  {
    assert DrawnWithHashesFrom(TERMGOL_ROW_5A, 0);
    assert DrawnWithHashesFrom(TERMGOL_ROW_5B, 0);
    assert DrawnWithHashesFrom(TERMGOL_ROW_5C, 0);
    DrawnConcat(TERMGOL_ROW_5A, TERMGOL_ROW_5B);
    DrawnConcat(TERMGOL_ROW_5A + TERMGOL_ROW_5B, TERMGOL_ROW_5C);
  }

  /** TERMGOL, row by row. */
  lemma TermgolDrawn()
    ensures Drawn(TERMGOL)
  {
    TermgolRow1Drawn();
    TermgolRow2Drawn();
    TermgolRow3Drawn();
    TermgolRow4Drawn();
    TermgolRow5Drawn();
    DrawnConcat("\n", TERMGOL_ROW_1);
    DrawnConcat("\n" + TERMGOL_ROW_1, TERMGOL_ROW_2);
    DrawnConcat("\n" + TERMGOL_ROW_1 + TERMGOL_ROW_2, TERMGOL_ROW_3);
    DrawnConcat("\n" + TERMGOL_ROW_1 + TERMGOL_ROW_2 + TERMGOL_ROW_3, TERMGOL_ROW_4);
    DrawnConcat("\n" + TERMGOL_ROW_1 + TERMGOL_ROW_2 + TERMGOL_ROW_3 + TERMGOL_ROW_4, TERMGOL_ROW_5);
  }

  /** Every preset text uses only `#`, ` ` and line breaks, so its living
      cells are exactly its `#` characters. */
  lemma PresetsDrawnWithHashes(setup: CellSetup)
    ensures forall i :: 0 <= i < |SetupText(setup)| ==> IsPresetChar(SetupText(setup)[i])
  {
    match setup
    case Acorn =>
      assert DrawnWithHashesFrom(ACORN, 0);
    case Blank =>
    case RPentonimo =>
      assert DrawnWithHashesFrom(R_PENTONIMO, 0);
    case Termgol => TermgolDrawn();
  }
}
