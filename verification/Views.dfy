/**
 What can be read on the machine: which lines the page shows and can be made to show, while keys,
 history and typing go on.
 */
module Views {
  import opened Bytes
  import opened DiskShape
  import opened Log
  import opened Utf8
  import opened Markers
  import opened LineLayout
  import opened Pages
  import opened Separator
  import opened Runs
  import opened Outcomes
  import Paging
  import Tiling

  function LineCount(w: World): nat
    requires w.On?
  {
    |w.page.layout.spans|
  }

  /** The page draws this line. */
  predicate Drawn(w: World, line: nat)
    requires w.On?
  {
    Paging.Shows(line, LineCount(w), w.view, w.grid.rows, w.page.pen.full)
  }

  /** The lines drawn are the last so many of those above the reading offset, one fewer on a full scroll. */
  lemma DrawnExact(w: World, line: nat)
    requires w.On?
    ensures var end, rows := LineCount(w) - w.view, w.grid.rows as int;
            Drawn(w, line) <==> if w.page.pen.full then end - rows < line < end else end - rows <= line < end
  {
    Paging.ShowsExact(line, LineCount(w), w.view, w.grid.rows, w.page.pen.full);
  }

  // ------------------------------------------------- a full scroll loses its first line

  /** At every point of every run: on a full scroll the first line is drawn only while everything fits. */
  lemma FirstLineDrawn(w: World)
    requires w.On? && Started(w) && Solid(w) && w.page.pen.full && w.grid.rows >= 1
    ensures Drawn(w, 0) <==> LineCount(w) < w.grid.rows
  {
    hide Firm, HistoryInv, TextInv;
  }

  /** Once full, a scroll stays full, and its lines never become fewer. */
  lemma FullStep(w: World, e: Event)
    requires w.On? && Started(w) && Solid(w) && w.page.pen.full && (e.Press? || e.Idle?)
    ensures var r := Step(w, e);
            r.On? && r.page.pen.full && r.grid == w.grid && LineCount(r) >= LineCount(w)
  {
    if e.Press? {
      hide Solid, Inkable;
      FullKey(w, e.key);
    } else {
      CutInRange(w);
      PumpExact(w, e.readOk);
      StreamedLines(w, e.readOk);
      hide PumpPage, Streamed, Firm, HistoryInv, TextInv, ViewInv;
    }
  }

  lemma StreamedLines(w: World, readOk: bool)
    requires w.On? && PageReady(w.page) && TextInv(w)
    ensures CAP * w.cut <= |w.base|
    ensures |Streamed(w, readOk).layout.spans| >= LineCount(w) && Streamed(w, readOk).pen == w.page.pen
  {
    hide Lossy, FromText, Sealed;
    Tiling.HistoryAddsLines(Lossy(w.base[..CAP * w.cut]), w.page.text, w.grid.columns);
  }

  /**
   On a full scroll longer than the page allows, no keys and no streaming bring the first line back.
   */
  lemma {:induction false} FirstLineGone(w: World, events: seq<Event>)
    requires w.On? && Started(w) && Solid(w) && w.page.pen.full
    requires LineCount(w) >= w.grid.rows >= 1 && PowerFree(events)
    ensures var r := Run(w, events);
            && r.On? && Solid(r) && r.page.pen.full && r.grid == w.grid
            && LineCount(r) >= r.grid.rows && !Drawn(r, 0)
    decreases |events|
  {
    hide Step, Solid, Grows;
    if events == [] {
      FirstLineDrawn(w);
    } else {
      var init, e := events[..|events| - 1], events[|events| - 1];
      assert e in events && PowerFree(init);
      FirstLineGone(w, init);
      FullStep(Run(w, init), e);
      SolidStep(Run(w, init), e);
      FirstLineDrawn(Run(w, events));
    }
  }

  // ------------------------------------------------- turning pages

  /** PageUp and PageDown only. */
  ghost predicate Turning(events: seq<Event>) {
    forall e <- events :: e == Press(PageUp) || e == Press(PageDown)
  }

  function Presses(key: Key, k: nat): seq<Event> {
    seq(k, i => Press(key))
  }

  lemma TurnStep(w: World)
    requires w.On? && Started(w)
    ensures Step(w, Press(PageUp)) == w.(view := Paging.PageUp(w.view, LineCount(w), w.grid.rows))
    ensures Step(w, Press(PageDown)) == w.(view := Paging.PageDown(w.view, w.grid.rows))
  {}

  /** Turning pages moves nothing but the reading offset. */
  lemma {:induction false} PressesUp(w: World, k: nat)
    requires w.On? && Started(w) && w.view == 0
    ensures Run(w, Presses(PageUp, k)) == w.(view := Paging.Ups(k, LineCount(w), w.grid.rows))
  {
    hide Step;
    if k > 0 {
      assert Presses(PageUp, k)[..k - 1] == Presses(PageUp, k - 1);
      PressesUp(w, k - 1);
      TurnStep(Run(w, Presses(PageUp, k - 1)));
    }
  }

  lemma {:induction false} PressesDown(w: World, k: nat)
    requires w.On? && Started(w)
    ensures Run(w, Presses(PageDown, k)) == w.(view := Paging.Downs(k, w.view, w.grid.rows))
  {
    hide Step;
    if k > 0 {
      assert Presses(PageDown, k)[..k - 1] == Presses(PageDown, k - 1);
      PressesDown(w, k - 1);
      TurnStep(Run(w, Presses(PageDown, k - 1)));
    }
  }

  /** Lines a press moves by: one less than the page has rows. */
  function Stride(w: World): nat
    requires w.On?
  {
    if w.grid.rows == 0 then 0 else w.grid.rows - 1
  }

  /** Where any number of presses of PageUp lead, from any offset. */
  lemma {:induction false} PagesUp(w: World, k: nat)
    requires w.On? && Started(w) && (w.view == 0 || w.view + w.grid.rows <= LineCount(w))
    ensures var top: int := if w.grid.rows < LineCount(w) then LineCount(w) - w.grid.rows else 0;
            Run(w, Presses(PageUp, k))
            == w.(view := if w.view + k * Stride(w) < top then w.view + k * Stride(w) else top)
  {
    hide Step;
    if k > 0 {
      assert Presses(PageUp, k)[..k - 1] == Presses(PageUp, k - 1);
      PagesUp(w, k - 1);
      TurnStep(Run(w, Presses(PageUp, k - 1)));
      OneStrideMore(k, Stride(w));
    }
  }

  lemma OneStrideMore(k: nat, stride: nat)
    requires k > 0
    ensures k * stride == (k - 1) * stride + stride && (k - 1) * stride >= 0
  {}

  /** Where any number of presses of PageDown lead, from any offset. */
  lemma {:induction false} PagesDown(w: World, k: nat)
    requires w.On? && Started(w)
    ensures Run(w, Presses(PageDown, k))
         == w.(view := if k * Stride(w) < w.view then w.view - k * Stride(w) else 0)
  {
    hide Step;
    if k > 0 {
      assert Presses(PageDown, k)[..k - 1] == Presses(PageDown, k - 1);
      PagesDown(w, k - 1);
      TurnStep(Run(w, Presses(PageDown, k - 1)));
      OneStrideMore(k, Stride(w));
    }
  }

  /**
   How many presses of PageUp it takes to see the first line, from the live end of a scroll that is not
   full: (lines - rows) / (rows - 1), rounded up.
   */
  lemma PressesToTop(w: World, k: nat)
    requires w.On? && Started(w) && w.view == 0 && !w.page.pen.full && LineCount(w) > 0
    ensures var r := Run(w, Presses(PageUp, k));
            r.On? && (w.grid.rows >= 1 ==> (Drawn(r, 0) <==> k * (w.grid.rows - 1) >= LineCount(w) - w.grid.rows))
  {
    PagesUp(w, k);
    DrawnExact(Run(w, Presses(PageUp, k)), 0);
    hide Run, Drawn, Started;
  }

  /** Some page turns from here show the line. */
  ghost predicate CanRead(w: World, line: nat)
    requires Started(w)
  {
    exists events: seq<Event> :: Turning(events) && Run(w, events).On? && Drawn(Run(w, events), line)
  }

  /** Down to the live end, then up `k` pages. */
  lemma DownThenUp(w: World, k: nat, line: nat)
    requires w.On? && Started(w) && w.grid.rows >= 2
    requires Paging.Shows(line, LineCount(w), Paging.Ups(k, LineCount(w), w.grid.rows), w.grid.rows, w.page.pen.full)
    ensures CanRead(w, line)
  {
    var down, up := Presses(PageDown, w.view), Presses(PageUp, k);
    PressesDown(w, w.view);
    Paging.DownsReachZero(w.view, w.view, w.grid.rows);
    PressesUp(w.(view := 0), k);
    RunConcat(w, down, up);
    hide Run, Started;
    assert Turning(down + up) && Run(w, down + up).On? && Drawn(Run(w, down + up), line);
  }

  lemma {:induction false} OneRowStays(w: World, events: seq<Event>)
    requires w.On? && Started(w) && w.grid.rows <= 1 && Turning(events)
    requires w.view <= Paging.MaxView(LineCount(w), w.grid.rows)
    ensures Run(w, events) == w
    decreases |events|
  {
    hide Step;
    if events != [] {
      var init, e := events[..|events| - 1], events[|events| - 1];
      assert e in events && forall x <- init :: x in events;
      OneRowStays(w, init);
      TurnStep(w);
    }
  }

  /**
   What Page Up and Page Down can show from any point of any run, on a page of two rows or more: every
   line, except the first one of a full scroll that no longer fits above the closing message. On a
   page of one row they do nothing.
   */
  lemma Readable(w: World, line: nat)
    requires w.On? && Started(w) && Solid(w) && line < LineCount(w)
    ensures w.grid.rows >= 2 ==>
              (CanRead(w, line) <==> !w.page.pen.full || line > 0 || LineCount(w) < w.grid.rows)
    ensures w.grid.rows <= 1 ==> (CanRead(w, line) <==> Drawn(w, line))
  {
    if w.grid.rows <= 1 {
      ReadOneRow(w, line);
    } else if w.page.pen.full && line == 0 && LineCount(w) >= w.grid.rows {
      forall events | Turning(events)
        ensures Run(w, events).On? && !Drawn(Run(w, events), line)
      {
        FirstLineGone(w, events);
      }
      hide Solid, Run, Turning, Drawn;
    } else {
      ReadByTurning(w, line);
    }
  }

  lemma ReadByTurning(w: World, line: nat)
    requires w.On? && Started(w) && line < LineCount(w) && w.grid.rows >= 2
    requires !w.page.pen.full || line > 0 || LineCount(w) < w.grid.rows
    ensures CanRead(w, line)
  {
    var lines, rows, full := LineCount(w), w.grid.rows, w.page.pen.full;
    if full {
      Paging.FullScrollReachable(lines, rows, line);
    } else {
      Paging.OpenScrollReachable(lines, rows);
    }
    assert Paging.Reachable(line, lines, rows, full);
    var k: nat :| Paging.Shows(line, lines, Paging.Ups(k, lines, rows), rows, full);
    DownThenUp(w, k, line);
  }

  lemma ReadOneRow(w: World, line: nat)
    requires w.On? && Started(w) && Solid(w) && w.grid.rows <= 1
    ensures CanRead(w, line) <==> Drawn(w, line)
  {
    forall events | Turning(events)
      ensures Run(w, events) == w
    {
      OneRowStays(w, events);
    }
    assert Turning([]) && Run(w, []) == w;
    hide Solid, Turning, Drawn;
  }

  // ------------------------------------------------- history streams in behind a reader

  /** What `render` draws of the scroll: rows of bytes, dimmed or not, and the cursor, if it is on the page. */
  datatype Picture = Picture(rows: seq<(seq<byte>, bool)>, cursor: Option<(nat, nat)>)

  function FirstDrawn(w: World): nat
    requires w.On?
  {
    Paging.WindowFirst(LineCount(w), w.view, w.grid.rows, w.page.pen.full)
  }

  function EndDrawn(w: World): nat
    requires w.On?
  {
    Paging.WindowEnd(LineCount(w), w.view)
  }

  function Shown(w: World): Picture
    requires w.On?
  {
    var layout, first, last := w.page.layout, FirstDrawn(w), LineCount(w) - 1;
    Picture(Tiling.Drawings(AsBytes(w.page.text), layout.spans[first..EndDrawn(w)]),
            if w.view == 0 && !w.page.pen.full && first <= last then Some((last - first, layout.open)) else None)
  }

  lemma DrawingsSlice(bytes: seq<byte>, spans: seq<LineSpan>, q: nat, first: nat, end: nat)
    requires q <= first <= end <= |spans|
    ensures Tiling.Drawings(bytes, spans[first..end]) == Tiling.Drawings(bytes, spans[q..])[first - q..end - q]
  {
    hide Tiling.Drawing;
  }

  /** Every row on the page lies behind the newline at `k` of the text. */
  ghost predicate ReadsBehind(w: World, k: nat)
    requires w.On?
  {
    && k < |w.page.text| && w.page.text[k] == NEWLINE
    && |FromText(w.page.text[..k], w.grid.columns).spans| <= FirstDrawn(w)
  }

  /** The page after streaming has ended, from the page before. */
  lemma SplicedPicture(w: World, history: string, k: nat, r: World)
    requires w.On? && ReadsBehind(w, k) && w.page.layout == FromText(w.page.text, w.grid.columns)
    requires r.On? && r.page.text == history + w.page.text
    requires r.page.layout == FromText(r.page.text, r.grid.columns)
    requires r.view == w.view && r.grid == w.grid && r.page.pen == w.page.pen
    ensures Shown(r) == Shown(w)
  {
    hide FromText, AsBytes, Tiling.Drawings;
    Tiling.HistoryMovesLines(history, w.page.text, k, w.grid.columns);
    var p := |FromText(w.page.text[..k], w.grid.columns).spans|;
    var q := p + LineCount(r) - LineCount(w);
    DrawingsSlice(AsBytes(w.page.text), w.page.layout.spans, p, FirstDrawn(w), EndDrawn(w));
    DrawingsSlice(AsBytes(r.page.text), r.page.layout.spans, q, FirstDrawn(r), EndDrawn(r));
  }

  /**
   A pass of the idle loop, in which streaming may end and the layout of the whole scroll replace that
   of the window: every row on the page and the cursor stay what they were, as long as the first row
   drawn lies behind a newline of the window.
   */
  lemma UndisturbedStep(w: World, readOk: bool, k: nat)
    requires w.On? && Started(w) && Solid(w) && ReadsBehind(w, k)
    ensures var r := Step(w, Idle(readOk));
            r.On? && Shown(r) == Shown(w) && (ReadsBehind(r, k) || r.page.pending.None?)
  {
    CutInRange(w);
    PumpExact(w, readOk);
    hide PumpPage, Firm, HistoryInv, ViewInv, FromText, Lossy, AsBytes, Shown, ReadsBehind, Tiling.Drawings;
    var r := Step(w, Idle(readOk));
    if r.page.text == w.page.text && r.page.layout == w.page.layout {
      SamePicture(w, r);
    } else {
      SplicedPicture(w, Lossy(w.base[..CAP * w.cut]), k, r);
    }
  }

  lemma SamePicture(w: World, r: World)
    requires w.On? && r.On? && r.page.text == w.page.text && r.page.layout == w.page.layout
    requires r.view == w.view && r.grid == w.grid && r.page.pen == w.page.pen
    ensures Shown(r) == Shown(w)
    ensures forall k: nat :: ReadsBehind(w, k) ==> ReadsBehind(r, k)
  {}

  /** The same however long the machine idles: before its history streams in, while it does, and after. */
  lemma {:induction false} ReaderUndisturbed(w: World, events: seq<Event>, k: nat)
    requires w.On? && Started(w) && Solid(w) && ReadsBehind(w, k) && forall e <- events :: e.Idle?
    ensures var r := Run(w, events);
            && r.On? && Solid(r) && Shown(r) == Shown(w) && (ReadsBehind(r, k) || r.page.pending.None?)
    decreases |events|
  {
    hide Step, Solid, Shown, ReadsBehind, Grows;
    if events != [] {
      var init, e := events[..|events| - 1], events[|events| - 1];
      assert e in events && forall x <- init :: x in events;
      ReaderUndisturbed(w, init, k);
      var r := Run(w, init);
      SolidStep(r, e);
      if r.page.pending.None? {
        NothingPending(r, e.readOk);
      } else {
        UndisturbedStep(r, e.readOk, k);
      }
    }
  }

  lemma NothingPending(w: World, readOk: bool)
    requires w.On? && Started(w) && w.page.pending.None?
    ensures Step(w, Idle(readOk)) == w
  {}
}
