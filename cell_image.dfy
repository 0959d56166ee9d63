/** src/state/cell_image.rs: decoding a seed pattern from text. Every line
    of the text is a grid row; every character other than a space is a
    living cell. The size is the longest line's length (in UTF-8 bytes, as
    `str::len` counts) by the number of lines. */
module StateCellImage {
  import opened Ints
  import opened CommonPoint
  import opened StateCellSetup

  datatype CellImage = CellImage(livingPoints: seq<Point>, size: Point)

  // ---------------------------------------------------------------------
  // `str::len`: the UTF-8 length of a string.

  /** The number of UTF-8 bytes that encode one character. */
  function Utf8Width(c: char): nat
  {
    if c as int < 0x80 then 1
    else if c as int < 0x800 then 2
    else if c as int < 0x1_0000 then 3
    else 4
  }

  /** The UTF-8 length of a string: at least one byte per character. */
  function Utf8Len(s: string): (n: nat)
    ensures |s| <= n <= 4 * |s|
  {
    if s == [] then 0 else Utf8Width(s[0]) + Utf8Len(s[1..])
  }

  /** A text drawn with `#`, ` ` and line breaks is ASCII: one byte each. */
  lemma {:induction false} Utf8LenOfDrawn(s: string)
    requires Drawn(s)
    ensures Utf8Len(s) == |s|
  {
    if s != [] {
      assert Drawn(s[1..]) by {
        forall i | 0 <= i < |s[1..]|
          ensures IsPresetChar(s[1..][i])
        {
          assert s[1..][i] == s[i + 1];
        }
      }
      Utf8LenOfDrawn(s[1..]);
    }
  }

  // ---------------------------------------------------------------------
  // `str::split("\n")`: the lines of a text.

  /** The lines of s, split at every line break. There is always at least
      one line: "" has the single line "", and a text that ends with a line
      break has an empty last line. */
  function Lines(s: string): (lines: seq<string>)
    ensures |lines| >= 1
  {
    if s == [] then [""]
    else
      var rest := Lines(s[1..]);
      if s[0] == '\n' then [""] + rest
      else [[s[0]] + rest[0]] + rest[1..]
  }

  /** The lines put back together with a line break between each two. */
  function Join(lines: seq<string>): string
    requires |lines| >= 1
  {
    if |lines| == 1 then lines[0] else lines[0] + "\n" + Join(lines[1..])
  }

  function NewlineCount(s: string): (n: nat)
    ensures n <= |s|
  {
    if s == [] then 0 else (if s[0] == '\n' then 1 else 0) + NewlineCount(s[1..])
  }

  predicate NoBreak(line: string) { forall i :: 0 <= i < |line| ==> line[i] != '\n' }

  /** Joining the lines of a text gives the text back. */
  lemma {:induction false} JoinLines(s: string)
    ensures Join(Lines(s)) == s
  {
    if s != [] {
      var rest := Lines(s[1..]);
      JoinLines(s[1..]);
      if s[0] == '\n' {
        assert ([""] + rest)[1..] == rest;
      } else if |rest| > 1 {
        assert ([[s[0]] + rest[0]] + rest[1..])[1..] == rest[1..];
      }
    }
  }

  /** Splitting a line, a break and more text gives the line and then the
      lines of the rest; a text without breaks is one line. */
  lemma {:induction false} LinesOfLineAndRest(line: string, t: string)
    requires NoBreak(line)
    ensures Lines(line + "\n" + t) == [line] + Lines(t)
    ensures Lines(line) == [line]
  {
    if line == [] {
      assert ("\n" + t)[1..] == t;
    } else {
      LinesOfLineAndRest(line[1..], t);
      assert (line + "\n" + t)[1..] == line[1..] + "\n" + t;
      assert [line[0]] + line[1..] == line;
    }
  }

  /** Splitting the join of break-free lines gives the same lines. */
  lemma {:induction false} LinesJoin(lines: seq<string>)
    requires |lines| >= 1 && forall k :: 0 <= k < |lines| ==> NoBreak(lines[k])
    ensures Lines(Join(lines)) == lines
  {
    if |lines| == 1 {
      LinesOfLineAndRest(lines[0], "");
    } else {
      LinesJoin(lines[1..]);
      LinesOfLineAndRest(lines[0], Join(lines[1..]));
    }
  }

  /** No line contains a break, there is one line more than there are
      breaks, and no line is longer in bytes than the whole text. */
  lemma {:induction false} LinesShape(s: string)
    ensures forall k :: 0 <= k < |Lines(s)| ==> NoBreak(Lines(s)[k])
    ensures |Lines(s)| == NewlineCount(s) + 1
    ensures forall k :: 0 <= k < |Lines(s)| ==> Utf8Len(Lines(s)[k]) <= Utf8Len(s)
  {
    if s != [] {
      LinesShape(s[1..]);
      var rest := Lines(s[1..]);
      if s[0] != '\n' {
        var first := [s[0]] + rest[0];
        assert first[1..] == rest[0];
      }
    }
  }

  /** The lines of a drawn text are drawn. */
  lemma {:induction false} LinesDrawn(s: string)
    requires Drawn(s)
    ensures forall k :: 0 <= k < |Lines(s)| ==> Drawn(Lines(s)[k])
  {
    if s != [] {
      assert Drawn(s[1..]) by {
        forall i | 0 <= i < |s[1..]|
          ensures IsPresetChar(s[1..][i])
        {
          assert s[1..][i] == s[i + 1];
        }
      }
      LinesDrawn(s[1..]);
      var rest := Lines(s[1..]);
      if s[0] != '\n' {
        var first := [s[0]] + rest[0];
        assert Drawn(first) by {
          forall i | 0 <= i < |first|
            ensures IsPresetChar(first[i])
          {
            if i > 0 {
              assert first[i] == rest[0][i - 1];
            }
          }
        }
        assert forall k :: 1 <= k < |Lines(s)| ==> Lines(s)[k] == rest[k];
      }
    }
  }

  // ---------------------------------------------------------------------
  // The image a text decodes to.

  /** p comes before q in row-major order: an earlier row, or the same row
      and an earlier column. */
  predicate Before(p: Point, q: Point)
  {
    p.y < q.y || (p.y == q.y && p.x < q.x)
  }

  /** Strictly increasing in row-major order, so without duplicates. */
  predicate RowMajorSorted(ps: seq<Point>)
  {
    forall i, j :: 0 <= i < j < |ps| ==> Before(ps[i], ps[j])
  }

  /** The living points of one line at row y: a point (x, y) for every
      character x of the line that is not a space, left to right. */
  function LinePoints(line: string, y: i32): (ps: seq<Point>)
    requires |line| <= I32_MAX
    ensures forall p <- ps :: p.y == y && 0 <= p.x < |line|
  {
    if line == [] then []
    else
      var init := LinePoints(line[..|line| - 1], y);
      init + (if line[|line| - 1] != ' ' then [Point(|line| - 1, y)] else [])
  }

  /** The text's lines fit the i32 coordinates of a `Point`. */
  predicate LinesFit(lines: seq<string>)
  {
    |lines| <= I32_MAX && forall k :: 0 <= k < |lines| ==> Utf8Len(lines[k]) <= I32_MAX
  }

  /** The living points of the first lines, row after row. */
  function TextPoints(lines: seq<string>): (ps: seq<Point>)
    requires LinesFit(lines)
    ensures forall p <- ps :: 0 <= p.y < |lines|
  {
    if lines == [] then []
    else TextPoints(lines[..|lines| - 1]) + LinePoints(lines[|lines| - 1], |lines| - 1)
  }

  /** A line's points come left to right, each once. */
  lemma {:induction false} LinePointsSorted(line: string, y: i32)
    requires |line| <= I32_MAX
    ensures RowMajorSorted(LinePoints(line, y))
  {
    if line != [] {
      var init := line[..|line| - 1];
      LinePointsSorted(init, y);
      var ps := LinePoints(init, y);
      var all := LinePoints(line, y);
      forall i, j | 0 <= i < j < |all|
        ensures Before(all[i], all[j])
      {
        if j >= |ps| {
          assert all[i] in ps;
        }
      }
    }
  }

  /** The text's points come in row-major order, each once. */
  lemma {:induction false} TextPointsSorted(lines: seq<string>)
    requires LinesFit(lines)
    ensures RowMajorSorted(TextPoints(lines))
  {
    if lines != [] {
      var n := |lines| - 1;
      var init := TextPoints(lines[..n]);
      var last := LinePoints(lines[n], n);
      TextPointsSorted(lines[..n]);
      LinePointsSorted(lines[n], n);
      var all := TextPoints(lines);
      forall i, j | 0 <= i < j < |all|
        ensures Before(all[i], all[j])
      {
        if i < |init| <= j {
          assert all[i] in init && all[j] == last[j - |init|];
        } else if |init| <= i {
          assert all[i] == last[i - |init|] && all[j] == last[j - |init|];
        }
      }
    }
  }

  /** The longest line, in UTF-8 bytes. */
  function MaxLineLen(lines: seq<string>): nat
  {
    if lines == [] then 0
    else
      var init := MaxLineLen(lines[..|lines| - 1]);
      var last := Utf8Len(lines[|lines| - 1]);
      if init < last then last else init
  }

  /** What `CellImage::from(&str)` builds from the text s. */
  function Image(s: string): CellImage
    requires Utf8Len(s) < I32_MAX
  {
    TextFits(s);
    CellImageOfLines(Lines(s))
  }

  /** The image of a list of lines. */
  function CellImageOfLines(lines: seq<string>): (img: CellImage)
    requires LinesFit(lines)
    ensures img.size.y == |lines|
  {
    MaxLineLenBound(lines);
    CellImage(TextPoints(lines), Point(MaxLineLen(lines), |lines|))
  }

  /** The longest line is one of the lines (or 0 for no lines) and no line
      is longer. */
  lemma {:induction false} MaxLineLenBound(lines: seq<string>)
    ensures forall k :: 0 <= k < |lines| ==> Utf8Len(lines[k]) <= MaxLineLen(lines)
    ensures lines == [] ==> MaxLineLen(lines) == 0
    ensures lines != [] ==> exists k :: 0 <= k < |lines| && Utf8Len(lines[k]) == MaxLineLen(lines)
  {
    if lines != [] {
      var n := |lines| - 1;
      var init := lines[..n];
      MaxLineLenBound(init);
      assert forall k :: 0 <= k < n ==> init[k] == lines[k];
      if MaxLineLen(init) < Utf8Len(lines[n]) || n == 0 {
        assert Utf8Len(lines[n]) == MaxLineLen(lines);
      } else {
        var k :| 0 <= k < n && Utf8Len(init[k]) == MaxLineLen(init);
        assert Utf8Len(lines[k]) == MaxLineLen(lines);
      }
    }
  }

  /** The source panics (or truncates the width) on texts too long for i32;
      shorter texts always fit. */
  lemma TextFits(s: string)
    requires Utf8Len(s) < I32_MAX
    ensures LinesFit(Lines(s))
  {
    LinesShape(s);
  }

  // ---------------------------------------------------------------------
  // The decoder.

  /** `CellImage::from(&str)`: for every line, widen `width` to its length,
      then push (x, y) for every character that is not a space. */
  method FromStr(s: string) returns (img: CellImage)
    requires Utf8Len(s) < I32_MAX
    ensures img == Image(s)
  {
    var livingPoints: seq<Point> := [];
    var width: i32 := 0;
    var y: i32 := 0;
    var lines := Lines(s);
    TextFits(s);
    while y < |lines|
      invariant 0 <= y <= |lines|
      invariant livingPoints == TextPoints(lines[..y])
      invariant width == MaxLineLen(lines[..y])
    {
      var line := lines[y];
      assert lines[..y + 1][..y] == lines[..y] && lines[..y + 1][y] == line;
      if width < Utf8Len(line) {
        width := Utf8Len(line);
      }
      livingPoints := PushLinePoints(livingPoints, line, y);
      TextPointsExtend(lines, y);
      y := y + 1;
    }
    assert lines[..y] == lines;
    img := CellImage(livingPoints, Point(width, y));
  }

  /** The inner loop of `CellImage::from(&str)`: push (x, y) for every
      character x of the line that is not a space. */
  method PushLinePoints(livingPoints: seq<Point>, line: string, y: i32) returns (points: seq<Point>)
    requires |line| <= I32_MAX
    ensures points == livingPoints + LinePoints(line, y)
  {
    points := livingPoints;
    var x: i32 := 0;
    while x < |line|
      invariant 0 <= x <= |line|
      invariant points == livingPoints + LinePoints(line[..x], y)
    {
      PushLivingPoint(livingPoints, line, x, y, points);
      if line[x] != ' ' {
        points := points + [Point(x, y)];
      }
      x := x + 1;
    }
    assert line[..x] == line;
  }

  /** The inner loop step of the decoder: pushing the point of a
      non-space character extends the points by that character. */
  lemma PushLivingPoint(above: seq<Point>, line: string, x: nat, y: i32, points: seq<Point>)
    requires x < |line| <= I32_MAX && points == above + LinePoints(line[..x], y)
    ensures (if line[x] != ' ' then points + [Point(x, y)] else points)
      == above + LinePoints(line[..x + 1], y)
  {
    var piece := if line[x] != ' ' then [Point(x, y)] else [];
    LinePointsExtend(line, x, y);
    assert above + LinePoints(line[..x], y) + piece == above + (LinePoints(line[..x], y) + piece);
  }

  /** One more character of a line adds its point when it is not a space. */
  lemma LinePointsExtend(line: string, x: nat, y: i32)
    requires x < |line| <= I32_MAX
    ensures LinePoints(line[..x + 1], y)
      == LinePoints(line[..x], y) + (if line[x] != ' ' then [Point(x, y)] else [])
  {
    assert line[..x + 1][..x] == line[..x];
  }

  /** One more line adds that line's points. */
  lemma TextPointsExtend(lines: seq<string>, y: nat)
    requires LinesFit(lines) && y < |lines|
    ensures LinesFit(lines[..y]) && LinesFit(lines[..y + 1])
    ensures TextPoints(lines[..y + 1]) == TextPoints(lines[..y]) + LinePoints(lines[y], y)
  {
    assert lines[..y + 1][..y] == lines[..y];
  }

  /** `CellImage::from(CellSetup)`: the image of the preset's text. */
  method FromSetup(setup: CellSetup) returns (img: CellImage)
    ensures img == Image(SetupText(setup))
  {
    var s := SetupText(setup);
    PresetsDrawnWithHashes(setup);
    Utf8LenOfDrawn(s);
    img := FromStr(s);
  }

  /** A preset's living cells are exactly its `#` characters: its texts
      hold no other character that is not a space or a line break. */
  lemma PresetLivingPointsAreHashes(setup: CellSetup, p: Point)
    ensures var lines := Lines(SetupText(setup));
      p in Image(SetupText(setup)).livingPoints <==>
        0 <= p.y < |lines| && 0 <= p.x < |lines[p.y]| && lines[p.y][p.x] == '#'
  {
    var s := SetupText(setup);
    PresetsDrawnWithHashes(setup);
    Utf8LenOfDrawn(s);
    LivingPointsAreNonSpaces(s, p);
    LinesShape(s);
    LinesDrawn(s);
  }

  // ---------------------------------------------------------------------
  // What the image is.

  /** A point of a line's points is a non-space character of the line, and
      every non-space character is one. */
  lemma {:induction false} InLinePoints(line: string, y: i32, p: Point)
    requires |line| <= I32_MAX
    ensures p in LinePoints(line, y) <==> p.y == y && 0 <= p.x < |line| && line[p.x] != ' '
  {
    if line != [] {
      var init := line[..|line| - 1];
      InLinePoints(init, y, p);
      if p.y == y && 0 <= p.x < |init| {
        assert line[p.x] == init[p.x];
      }
    }
  }

  /** A point of the text's points is a non-space character of some line,
      and every non-space character is one. */
  lemma {:induction false} InTextPoints(lines: seq<string>, p: Point)
    requires LinesFit(lines)
    ensures p in TextPoints(lines) <==>
      0 <= p.y < |lines| && 0 <= p.x < |lines[p.y]| && lines[p.y][p.x] != ' '
  {
    if lines != [] {
      var init := lines[..|lines| - 1];
      InTextPoints(init, p);
      InLinePoints(lines[|lines| - 1], |lines| - 1, p);
      if 0 <= p.y < |init| {
        assert lines[p.y] == init[p.y];
      }
    }
  }

  /** (x, y) is a living point exactly when character x of line y is not a
      space: `#` and `.` alike are alive. */
  lemma LivingPointsAreNonSpaces(s: string, p: Point)
    requires Utf8Len(s) < I32_MAX
    ensures var lines := Lines(s);
      p in Image(s).livingPoints <==>
        0 <= p.y < |lines| && 0 <= p.x < |lines[p.y]| && lines[p.y][p.x] != ' '
  {
    TextFits(s);
    InTextPoints(Lines(s), p);
  }

  /** The height is the number of line breaks plus one, so "" has height 1;
      the width is the longest line in bytes, and no line is longer. */
  lemma ImageSize(s: string)
    requires Utf8Len(s) < I32_MAX
    ensures Image(s).size.y == NewlineCount(s) + 1
    ensures var lines := Lines(s);
      && (forall k :: 0 <= k < |lines| ==> Utf8Len(lines[k]) <= Image(s).size.x)
      && (exists k :: 0 <= k < |lines| && Utf8Len(lines[k]) == Image(s).size.x)
  {
    LinesShape(s);
    MaxLineLenBound(Lines(s));
  }

  /** Every living point lies inside the image's size. */
  lemma LivingPointsInside(s: string)
    requires Utf8Len(s) < I32_MAX
    ensures var img := Image(s);
      forall p <- img.livingPoints :: 0 <= p.x < img.size.x && 0 <= p.y < img.size.y
  {
    var img := Image(s);
    var lines := Lines(s);
    TextFits(s);
    MaxLineLenBound(lines);
    forall p <- img.livingPoints
      ensures 0 <= p.x < img.size.x && 0 <= p.y < img.size.y
    {
      InTextPoints(lines, p);
    }
  }

  /** The living points come in strictly increasing row-major order, each once. */
  lemma LivingPointsSorted(s: string)
    requires Utf8Len(s) < I32_MAX
    ensures RowMajorSorted(Image(s).livingPoints)
  {
    TextFits(s);
    TextPointsSorted(Lines(s));
  }

  // ---------------------------------------------------------------------
  // The preset images.

  /** The empty preset has no living cells and one empty row. */
  lemma BlankImage()
    ensures Image(BLANK) == CellImage([], Point(0, 1))
  {
    assert Lines(BLANK) == [""];
    assert [""][..0] == [];
  }

  /** A text of five break-free lines joined by breaks splits into them. */
  lemma LinesOfFive(s: string, l0: string, l1: string, l2: string, l3: string, l4: string)
    requires NoBreak(l0) && NoBreak(l1) && NoBreak(l2) && NoBreak(l3) && NoBreak(l4)
    requires s == l0 + "\n" + (l1 + "\n" + (l2 + "\n" + (l3 + "\n" + l4)))
    ensures var ls := Lines(s);
      |ls| == 5 && ls[0] == l0 && ls[1] == l1 && ls[2] == l2 && ls[3] == l3 && ls[4] == l4
  {
    var t3 := l3 + "\n" + l4;
    var t2 := l2 + "\n" + t3;
    var t1 := l1 + "\n" + t2;
    LinesOfLineAndRest(l4, "");
    LinesOfLineAndRest(l3, l4);
    LinesOfLineAndRest(l2, t3);
    LinesOfLineAndRest(l1, t2);
    LinesOfLineAndRest(l0, t1);
  }

  /** One more line whose points are known extends the known points. */
  lemma TextPointsStep(ls: seq<string>, y: nat, above: seq<Point>, row: seq<Point>)
    requires LinesFit(ls) && y < |ls|
    requires TextPoints(ls[..y]) == above && LinePoints(ls[y], y) == row
    ensures TextPoints(ls[..y + 1]) == above + row
  {
    TextPointsExtend(ls, y);
  }

  /** The points of five lines are the points of each line, row after row. */
  lemma TextPointsOfFive(ls: seq<string>, p0: seq<Point>, p1: seq<Point>, p2: seq<Point>, p3: seq<Point>, p4: seq<Point>)
    requires |ls| == 5 && LinesFit(ls)
    requires LinePoints(ls[0], 0) == p0 && LinePoints(ls[1], 1) == p1 && LinePoints(ls[2], 2) == p2
    requires LinePoints(ls[3], 3) == p3 && LinePoints(ls[4], 4) == p4
    ensures TextPoints(ls) == [] + p0 + p1 + p2 + p3 + p4
  {
    assert ls[..0] == [];
    TextPointsStep(ls, 0, [], p0);
    TextPointsStep(ls, 1, [] + p0, p1);
    TextPointsStep(ls, 2, [] + p0 + p1, p2);
    TextPointsStep(ls, 3, [] + p0 + p1 + p2, p3);
    TextPointsStep(ls, 4, [] + p0 + p1 + p2 + p3, p4);
    assert ls[..5] == ls;
  }

  /** The longest line is w when no line is longer and one line has w bytes. */
  lemma MaxLineLenIs(lines: seq<string>, k: nat, w: nat)
    requires k < |lines| && Utf8Len(lines[k]) == w
    requires forall j :: 0 <= j < |lines| ==> Utf8Len(lines[j]) <= w
    ensures MaxLineLen(lines) == w
  {
    MaxLineLenBound(lines);
  }

  /** The longest of five lines is w when the middle three have w bytes
      and the outer two are empty. */
  lemma MaxLineLenOfFive(ls: seq<string>, w: nat)
    requires |ls| == 5 && Utf8Len(ls[0]) == Utf8Len(ls[4]) == 0
    requires Utf8Len(ls[1]) == Utf8Len(ls[2]) == Utf8Len(ls[3]) == w
    ensures MaxLineLen(ls) == w
  {
    forall j | 0 <= j < |ls|
      ensures Utf8Len(ls[j]) <= w
    {
    }
    MaxLineLenIs(ls, 1, w);
  }

  /** The points of the R-pentomino's three drawn lines. */
  lemma RPentonimoRow1()
    ensures LinePoints("## ", 1) == [Point(0, 1), Point(1, 1)]
  {
    assert "## "[..2] == "##" && "##"[..1] == "#" && "#"[..0] == "";
  }

  lemma RPentonimoRow2()
    ensures LinePoints(" ##", 2) == [Point(1, 2), Point(2, 2)]
  {
    assert " ##"[..2] == " #" && " #"[..1] == " " && " "[..0] == "";
  }

  lemma RPentonimoRow3()
    ensures LinePoints(" # ", 3) == [Point(1, 3)]
  {
    assert " # "[..2] == " #" && " #"[..1] == " " && " "[..0] == "";
  }

  /** The image of a text whose lines, points and width are known. */
  lemma ImageOfLines(s: string, ls: seq<string>, points: seq<Point>, w: nat)
    requires Utf8Len(s) < I32_MAX && Lines(s) == ls && LinesFit(ls)
    requires TextPoints(ls) == points && MaxLineLen(ls) == w
    ensures Image(s) == CellImage(points, Point(w, |ls|))
  {
  }

  /** The R-pentomino's text splits into an empty first line, its three
      drawn lines and an empty last line. */
  lemma RPentonimoLines()
    ensures var ls := Lines(R_PENTONIMO);
      |ls| == 5 && ls[0] == "" && ls[1] == "## " && ls[2] == " ##" && ls[3] == " # " && ls[4] == ""
  {
    LinesOfFive(R_PENTONIMO, "", "## ", " ##", " # ", "");
  }

  /** The R-pentomino's points, row after row. */
  lemma RPentonimoPoints(ls: seq<string>)
    requires |ls| == 5 && ls[0] == "" && ls[1] == "## " && ls[2] == " ##" && ls[3] == " # " && ls[4] == ""
    ensures LinesFit(ls)
    ensures TextPoints(ls) == [Point(0, 1), Point(1, 1), Point(1, 2), Point(2, 2), Point(1, 3)]
  {
    var p1, p2, p3 := [Point(0, 1), Point(1, 1)], [Point(1, 2), Point(2, 2)], [Point(1, 3)];
    assert [] + [] + p1 + p2 + p3 + [] == [Point(0, 1), Point(1, 1), Point(1, 2), Point(2, 2), Point(1, 3)];
    assert forall k :: 0 <= k < |ls| ==> |ls[k]| <= 3;
    RPentonimoRow1();
    RPentonimoRow2();
    RPentonimoRow3();
    TextPointsOfFive(ls, [], p1, p2, p3, []);
  }

  /** The R-pentomino's widest lines have three bytes. */
  lemma RPentonimoWidth(ls: seq<string>)
    requires |ls| == 5 && ls[0] == "" && ls[1] == "## " && ls[2] == " ##" && ls[3] == " # " && ls[4] == ""
    requires Drawn(ls[1]) && Drawn(ls[2]) && Drawn(ls[3])
    ensures MaxLineLen(ls) == 3
  {
    Utf8LenOfDrawn(ls[1]);
    Utf8LenOfDrawn(ls[2]);
    Utf8LenOfDrawn(ls[3]);
    assert Utf8Len(ls[0]) == Utf8Len(ls[4]) == 0;
    MaxLineLenOfFive(ls, 3);
  }

  /** The R-pentomino: five cells, shifted down one row by the leading
      line break, in a 3 by 5 image. */
  lemma RPentonimoImage()
    ensures Image(R_PENTONIMO)
      == CellImage([Point(0, 1), Point(1, 1), Point(1, 2), Point(2, 2), Point(1, 3)], Point(3, 5))
  {
    var ls := Lines(R_PENTONIMO);
    RPentonimoLines();
    RPentonimoPoints(ls);
    PresetsDrawnWithHashes(RPentonimo);
    LinesDrawn(SetupText(RPentonimo));
    RPentonimoWidth(ls);
    Utf8LenOfDrawn(R_PENTONIMO);
    ImageOfLines(R_PENTONIMO, ls, [Point(0, 1), Point(1, 1), Point(1, 2), Point(2, 2), Point(1, 3)], 3);
  }

  /** The points of the acorn's three drawn lines, character by character. */
  lemma AcornRow1()
    ensures LinePoints(" #     ", 1) == [Point(1, 1)]
  {
    assert " #     "[..6] == " #    ";
    assert " #    "[..5] == " #   ";
    assert " #   "[..4] == " #  ";
    assert " #  "[..3] == " # ";
    assert " # "[..2] == " #";
    assert " #"[..1] == " ";
    assert " "[..0] == "";
    assert LinePoints(" ", 1) == [];
    assert LinePoints(" #", 1) == [Point(1, 1)];
    assert LinePoints(" # ", 1) == [Point(1, 1)];
    assert LinePoints(" #  ", 1) == [Point(1, 1)];
    assert LinePoints(" #   ", 1) == [Point(1, 1)];
    assert LinePoints(" #    ", 1) == [Point(1, 1)];
  }

  lemma AcornRow2()
    ensures LinePoints("   #   ", 2) == [Point(3, 2)]
  {
    assert "   #   "[..6] == "   #  ";
    assert "   #  "[..5] == "   # ";
    assert "   # "[..4] == "   #";
    assert "   #"[..3] == "   ";
    assert "   "[..2] == "  ";
    assert "  "[..1] == " ";
    assert " "[..0] == "";
    assert LinePoints(" ", 2) == [];
    assert LinePoints("  ", 2) == [];
    assert LinePoints("   ", 2) == [];
    assert LinePoints("   #", 2) == [Point(3, 2)];
    assert LinePoints("   # ", 2) == [Point(3, 2)];
    assert LinePoints("   #  ", 2) == [Point(3, 2)];
  }

  lemma AcornRow3()
    ensures LinePoints("##  ###", 3) == [Point(0, 3), Point(1, 3), Point(4, 3), Point(5, 3), Point(6, 3)]
  {
    assert "##  ###"[..6] == "##  ##";
    assert "##  ##"[..5] == "##  #";
    assert "##  #"[..4] == "##  ";
    assert "##  "[..3] == "## ";
    assert "## "[..2] == "##";
    assert "##"[..1] == "#";
    assert "#"[..0] == "";
    assert LinePoints("#", 3) == [Point(0, 3)];
    assert LinePoints("##", 3) == [Point(0, 3), Point(1, 3)];
    assert LinePoints("## ", 3) == [Point(0, 3), Point(1, 3)];
    assert LinePoints("##  ", 3) == [Point(0, 3), Point(1, 3)];
    assert LinePoints("##  #", 3) == [Point(0, 3), Point(1, 3), Point(4, 3)];
    assert LinePoints("##  ##", 3) == [Point(0, 3), Point(1, 3), Point(4, 3), Point(5, 3)];
  }

  /** The acorn's text splits into an empty first line, its three drawn
      lines and an empty last line. */
  lemma AcornLines()
    ensures var ls := Lines(ACORN);
      |ls| == 5 && ls[0] == "" && ls[1] == " #     " && ls[2] == "   #   " && ls[3] == "##  ###" && ls[4] == ""
  {
    LinesOfFive(ACORN, "", " #     ", "   #   ", "##  ###", "");
  }

  /** The acorn's points, row after row. */
  lemma AcornPoints(ls: seq<string>)
    requires |ls| == 5 && ls[0] == "" && ls[1] == " #     " && ls[2] == "   #   " && ls[3] == "##  ###" && ls[4] == ""
    ensures LinesFit(ls)
    ensures TextPoints(ls)
      == [Point(1, 1), Point(3, 2), Point(0, 3), Point(1, 3), Point(4, 3), Point(5, 3), Point(6, 3)]
  {
    var p1, p2, p3 := [Point(1, 1)], [Point(3, 2)], [Point(0, 3), Point(1, 3), Point(4, 3), Point(5, 3), Point(6, 3)];
    assert [] + [] + p1 + p2 + p3 + []
      == [Point(1, 1), Point(3, 2), Point(0, 3), Point(1, 3), Point(4, 3), Point(5, 3), Point(6, 3)];
    assert forall k :: 0 <= k < |ls| ==> |ls[k]| <= 7;
    AcornRow1();
    AcornRow2();
    AcornRow3();
    TextPointsOfFive(ls, [], p1, p2, p3, []);
  }

  /** The acorn's drawn lines have seven bytes each. */
  lemma AcornWidth(ls: seq<string>)
    requires |ls| == 5 && ls[0] == "" && ls[1] == " #     " && ls[2] == "   #   " && ls[3] == "##  ###" && ls[4] == ""
    requires Drawn(ls[1]) && Drawn(ls[2]) && Drawn(ls[3])
    ensures MaxLineLen(ls) == 7
  {
    Utf8LenOfDrawn(ls[1]);
    Utf8LenOfDrawn(ls[2]);
    Utf8LenOfDrawn(ls[3]);
    assert Utf8Len(ls[0]) == Utf8Len(ls[4]) == 0;
    MaxLineLenOfFive(ls, 7);
  }

  /** The acorn: seven cells in a 7 by 5 image, its first row empty. */
  lemma AcornImage()
    ensures Image(ACORN) == CellImage(
      [Point(1, 1), Point(3, 2), Point(0, 3), Point(1, 3), Point(4, 3), Point(5, 3), Point(6, 3)], Point(7, 5))
  {
    var ls := Lines(ACORN);
    AcornLines();
    AcornPoints(ls);
    PresetsDrawnWithHashes(Acorn);
    LinesDrawn(SetupText(Acorn));
    AcornWidth(ls);
    Utf8LenOfDrawn(ACORN);
    ImageOfLines(ACORN, ls,
      [Point(1, 1), Point(3, 2), Point(0, 3), Point(1, 3), Point(4, 3), Point(5, 3), Point(6, 3)], 7);
  }
}
