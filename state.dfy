/** src/state.rs: the interactive state beside the grid: which debug page
    is shown, the cursor, the tick counter and the screen size. The cursor
    and screen size are `MapPoint`s, which are not part of this model;
    `Common.Point2`, the same pair of `i32`, stands in for them. */
module State {
  import opened Ints
  import opened Common

  /** src/renderer/draw_debug_info.rs:6: the page number at which the
      cycle wraps back to 0 (page 0 shows nothing). */
  const DEBUG_INFO_PAGE_TOTAL: i32 := 2

  /** The page after `page`: one more, wrapping past the total to 0. */
  function NextPage(page: i32): (r: i32)
    requires page < I32_MAX
    ensures r == 0 || r == page + 1
    ensures r <= DEBUG_INFO_PAGE_TOTAL
  {
    if page + 1 > DEBUG_INFO_PAGE_TOTAL then 0 else page + 1
  }

  /** Moving one step towards 0 along an axis, stopping at 0. */
  function StepBack(c: i32): (r: i32)
    requires c > I32_MIN
    ensures r == Max(c - 1, 0)
  {
    if c - 1 <= 0 then 0 else c - 1
  }

  /** Moving one step away from 0 along an axis whose extent is `extent`,
      stopping at the last cell `extent - 1`. Nothing stops the result at
      0: with an extent of 0 it is -1. */
  function StepForward(c: i32, extent: i32): (r: i32)
    requires c < I32_MAX && extent > I32_MIN
    ensures r == Min(c + 1, extent - 1)
  {
    if c + 1 >= extent - 1 then extent - 1 else c + 1
  }

  /** Pages visit 0, 1, 2 and wrap, so page 2 is reachable from the start
      page 1 in one step. */
  lemma PageCycle()
    ensures NextPage(0) == 1 && NextPage(1) == 2 && NextPage(2) == 0
    ensures NextPage(NextPage(NextPage(1))) == 1
  {
  }

  /** A page in [0, total] stays there. */
  lemma PageStaysInRange(page: i32)
    requires 0 <= page <= DEBUG_INFO_PAGE_TOTAL
    ensures 0 <= NextPage(page) <= DEBUG_INFO_PAGE_TOTAL
  {
  }

  /** On an axis of extent at least 1, a coordinate inside stays inside
      whichever way it moves. */
  lemma StepsStayInside(c: i32, extent: i32)
    requires 1 <= extent && 0 <= c < extent
    ensures 0 <= StepBack(c) < extent
    ensures 0 <= StepForward(c, extent) < extent
  {
  }

  class State {
    var debugInfoPage: i32
    var cursorPos: Point2
    var elapsedTime: u64
    var screenSize: Point2

    /** The cursor lies on the screen. */
    predicate CursorInside()
      reads this
    {
      0 <= cursorPos.x < screenSize.x && 0 <= cursorPos.y < screenSize.y
    }

    /** The debug page is one the cycle visits. */
    predicate PageInRange()
      reads this
    {
      0 <= debugInfoPage <= DEBUG_INFO_PAGE_TOTAL
    }

    constructor ()
      ensures debugInfoPage == 1 && cursorPos == Point2(0, 0)
      ensures elapsedTime == 0 && screenSize == Point2(0, 0)
      ensures PageInRange()
    {
      debugInfoPage := 1;
      cursorPos := New(0, 0);
      elapsedTime := 0;
      screenSize := New(0, 0);
    }

    /** Replaces the screen size only; the cursor is not clamped to it. */
    method Resize(screenSize: Point2)
      modifies this
      ensures this.screenSize == screenSize
      ensures debugInfoPage == old(debugInfoPage) && cursorPos == old(cursorPos)
      ensures elapsedTime == old(elapsedTime)
    {
      this.screenSize := screenSize;
    }

    /** One more tick; the `u64` counter panics rather than wrap. */
    method ElapseTime()
      requires elapsedTime < U64_MAX
      modifies this
      ensures elapsedTime == old(elapsedTime) + 1
      ensures debugInfoPage == old(debugInfoPage) && cursorPos == old(cursorPos)
      ensures screenSize == old(screenSize)
    {
      elapsedTime := elapsedTime + 1;
    }

    method DebugInfoNextPage()
      requires debugInfoPage < I32_MAX
      modifies this
      ensures debugInfoPage == NextPage(old(debugInfoPage))
      ensures old(PageInRange()) ==> PageInRange()
      ensures cursorPos == old(cursorPos) && elapsedTime == old(elapsedTime)
      ensures screenSize == old(screenSize)
    {
      debugInfoPage := debugInfoPage + 1;
      if debugInfoPage > DEBUG_INFO_PAGE_TOTAL {
        debugInfoPage := 0;
      }
    }

    method MoveCursorLeft()
      requires cursorPos.x > I32_MIN
      modifies this
      ensures cursorPos == Point2(StepBack(old(cursorPos.x)), old(cursorPos.y))
      ensures old(CursorInside()) ==> CursorInside()
      ensures debugInfoPage == old(debugInfoPage) && elapsedTime == old(elapsedTime)
      ensures screenSize == old(screenSize)
    {
      cursorPos := cursorPos.(x := cursorPos.x - 1);
      if cursorPos.x <= 0 {
        cursorPos := cursorPos.(x := 0);
      }
    }

    method MoveCursorRight()
      requires cursorPos.x < I32_MAX && screenSize.x > I32_MIN
      modifies this
      ensures cursorPos == Point2(StepForward(old(cursorPos.x), old(screenSize.x)), old(cursorPos.y))
      ensures old(CursorInside()) ==> CursorInside()
      ensures debugInfoPage == old(debugInfoPage) && elapsedTime == old(elapsedTime)
      ensures screenSize == old(screenSize)
    {
      cursorPos := cursorPos.(x := cursorPos.x + 1);
      if cursorPos.x >= Width(screenSize) - 1 {
        cursorPos := cursorPos.(x := Width(screenSize) - 1);
      }
    }

    method MoveCursorUp()
      requires cursorPos.y > I32_MIN
      modifies this
      ensures cursorPos == Point2(old(cursorPos.x), StepBack(old(cursorPos.y)))
      ensures old(CursorInside()) ==> CursorInside()
      ensures debugInfoPage == old(debugInfoPage) && elapsedTime == old(elapsedTime)
      ensures screenSize == old(screenSize)
    {
      cursorPos := cursorPos.(y := cursorPos.y - 1);
      if cursorPos.y <= 0 {
        cursorPos := cursorPos.(y := 0);
      }
    }

    method MoveCursorDown()
      requires cursorPos.y < I32_MAX && screenSize.y > I32_MIN
      modifies this
      ensures cursorPos == Point2(old(cursorPos.x), StepForward(old(cursorPos.y), old(screenSize.y)))
      ensures old(CursorInside()) ==> CursorInside()
      ensures debugInfoPage == old(debugInfoPage) && elapsedTime == old(elapsedTime)
      ensures screenSize == old(screenSize)
    {
      cursorPos := cursorPos.(y := cursorPos.y + 1);
      if cursorPos.y >= Height(screenSize) - 1 {
        cursorPos := cursorPos.(y := Height(screenSize) - 1);
      }
    }
  }
}
