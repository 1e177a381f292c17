/**
  The state `TcpDump` keeps between frames: whether `tcpdump -ntl` is running, the captured
  lines, the page and the horizontal scroll, and the window of lines it shows.
 */
module TcpDumpView {
  import opened Getline

  const LINES_PER_PAGE: nat := 17

  /** The counters stay usable: a page that starts inside the captured lines, or page 0. */
  predicate PageInvariant(page: int, size: nat) {
    0 <= page && (page == 0 || page * LINES_PER_PAGE < size)
  }

  /** `start_idx`. */
  function StartIdx(page: nat): nat { page * LINES_PER_PAGE }

  /** `end_idx = std::min(start_idx + lines_per_page, size)`. */
  function EndIdx(page: nat, size: nat): nat
  {
    if StartIdx(page) + LINES_PER_PAGE < size then StartIdx(page) + LINES_PER_PAGE else size
  }

  /** What one line shows at horizontal scroll `hor`: " " once scrolled past its end, else its tail. */
  function Clip(line: string, hor: nat): string
  {
    if hor >= |line| then " " else line[hor..]
  }

  /**
    Under the page invariant the shown indices `StartIdx .. EndIdx - 1` lie inside the lines,
    number at most 17, and at least one whenever there are lines.
   */
  lemma WindowInBounds(page: nat, size: nat)
    requires PageInvariant(page, size)
    ensures StartIdx(page) <= EndIdx(page, size) <= size
    ensures EndIdx(page, size) - StartIdx(page) <= LINES_PER_PAGE
    ensures size > 0 ==> StartIdx(page) < EndIdx(page, size)
  {
  }

  /** When DN is refused, the current page already shows the last captured line. */
  lemma LastPageReachesEnd(page: nat, size: nat)
    requires PageInvariant(page, size)
    requires !((page + 1) * LINES_PER_PAGE < size)
    ensures EndIdx(page, size) == size
  {
  }

  /** A clipped line is never empty, and is the line's own text from `hor` on when it reaches that far. */
  lemma ClipShowsTail(line: string, hor: nat)
    ensures |Clip(line, hor)| >= 1
    ensures hor < |line| ==> line[..hor] + Clip(line, hor) == line
    ensures hor >= |line| ==> Clip(line, hor) == " "
  {
  }

  /** The drawing loop `for (i = start_idx; i < end_idx; i++)`: the texts it passes to `ImGui::Text`. */
  method RenderPage(lines: seq<string>, page: nat, hor: nat) returns (shown: seq<string>)
    requires PageInvariant(page, |lines|)
    ensures |shown| == EndIdx(page, |lines|) - StartIdx(page) <= LINES_PER_PAGE
    ensures forall j :: 0 <= j < |shown| ==> shown[j] == Clip(lines[StartIdx(page) + j], hor)
  {
    var startIdx := page * LINES_PER_PAGE;
    var endIdx := if startIdx + LINES_PER_PAGE < |lines| then startIdx + LINES_PER_PAGE else |lines|;
    shown := [];
    var i := startIdx;
    while i < endIdx
      invariant startIdx <= i <= endIdx || (i == startIdx && endIdx < startIdx)
      invariant |shown| == i - startIdx
      invariant forall j :: 0 <= j < |shown| ==> shown[j] == Clip(lines[startIdx + j], hor)
    {
      if hor >= |lines[i]| {
        shown := shown + [" "];
      } else {
        shown := shown + [lines[i][hor..]];
      }
      i := i + 1;
    }
  }

  /** The `std::getline` loop over one chunk of output, pushing each line it reads. */
  method AppendLines(lines: seq<string>, output: string) returns (res: seq<string>)
    ensures res == lines + Split(output, '\n')
  {
    res := lines;
    var pos := 0;
    assert output[pos..] == output;
    while true
      invariant pos <= |output|
      invariant lines + Split(output, '\n') == res + Split(output[pos..], '\n')
      decreases |output| - pos
    {
      var ok, line, next := GetLine(output, pos, '\n');
      if !ok {
        break;
      }
      res := res + [line];
      pos := next;
    }
    assert output[pos..] == [];
  }

  class TcpDump {
    var running: bool
    var lines: seq<string>
    var page: int
    var horScroll: int

    ghost predicate Valid()
      reads this
    {
      PageInvariant(page, |lines|) && 0 <= horScroll
    }

    /** The static initial values. */
    constructor ()
      ensures Valid() && !running && lines == [] && page == 0 && horScroll == 0
    {
      running, lines, page, horScroll := false, [], 0, 0;
    }

    /** GO: starts a capture only when none is running, clearing the lines and the page. */
    method Go()
      requires Valid()
      modifies this
      ensures Valid() && running && horScroll == old(horScroll)
      ensures !old(running) ==> lines == [] && page == 0
      ensures old(running) ==> lines == old(lines) && page == old(page)
    {
      if !running {
        running := true;
        lines := [];
        page := 0;
      }
    }

    /** STOP: ends a running capture; nothing else changes. */
    method Stop()
      requires Valid()
      modifies this
      ensures Valid() && !running
      ensures lines == old(lines) && page == old(page) && horScroll == old(horScroll)
    {
      if running {
        running := false;
      }
    }

    /** UP: one page back, only from a page after the first. */
    method Up()
      requires Valid()
      modifies this`page
      ensures Valid() && page == if old(page) > 0 then old(page) - 1 else old(page)
    {
      if page > 0 {
        page := page - 1;
      }
    }

    /** DN: one page on, only while the next page would start inside the lines. */
    method Down()
      requires Valid()
      modifies this`page
      ensures Valid()
      ensures page == if (old(page) + 1) * LINES_PER_PAGE < |lines| then old(page) + 1 else old(page)
    {
      if (page + 1) * LINES_PER_PAGE < |lines| {
        page := page + 1;
      }
    }

    /** "<": one column back, only from a column after the first. */
    method Left()
      requires Valid()
      modifies this`horScroll
      ensures Valid() && horScroll == if old(horScroll) > 0 then old(horScroll) - 1 else old(horScroll)
    {
      if horScroll > 0 {
        horScroll := horScroll - 1;
      }
    }

    /** ">": one column on, without an upper bound. */
    method Right()
      requires Valid()
      modifies this`horScroll
      ensures Valid() && horScroll == old(horScroll) + 1
    {
      horScroll := horScroll + 1;
    }

    /**
      One frame's poll of a running capture: the text `readOutput` returned is split into lines
      and appended (a line cut by a read boundary becomes two lines), and a capture that
      `waitpid` reports as exited stops running.
     */
    method Poll(output: string, exited: bool)
      requires Valid()
      modifies this
      ensures Valid() && page == old(page) && horScroll == old(horScroll)
      ensures lines == if old(running) then old(lines) + Split(output, '\n') else old(lines)
      ensures running == (old(running) && !exited)
    {
      if running {
        if output != [] {
          lines := AppendLines(lines, output);
        }
        if exited {
          running := false;
        }
      }
    }

    /** The lines this frame draws. */
    method Render() returns (shown: seq<string>)
      requires Valid()
      ensures |shown| == EndIdx(page, |lines|) - StartIdx(page) <= LINES_PER_PAGE
      ensures forall j :: 0 <= j < |shown| ==> shown[j] == Clip(lines[StartIdx(page) + j], horScroll)
    {
      shown := RenderPage(lines, page, horScroll);
    }
  }
}
