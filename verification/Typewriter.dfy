/**
 The main loop as an object: booting, handling one key, one idle pass. Each is the corresponding
 step of `Runs`.
 */
module Typewriters {
  import opened Bytes
  import opened Record
  import opened DiskShape
  import opened Pages
  import opened Scrolls
  import opened Separator
  import opened Runs
  import Events
  import Paging

  class Typewriter {
    const grid: Grid
    const scroll: Scroll
    var viewOffset: nat
    ghost var base: seq<byte>
    ghost var cut: nat
    ghost var typed: string

    ghost predicate Valid()
      reads this, scroll, scroll.disk, scroll.layout, scroll.pending
    {
      scroll.Valid()
    }

    ghost function Value(): World
      reads this, scroll, scroll.disk, scroll.layout, scroll.pending
      requires Valid()
    {
      On(scroll.Value(), viewOffset, base, cut, typed, grid)
    }

    constructor (grid: Grid, scroll: Scroll)
      requires scroll.Valid()
      ensures this.grid == grid && this.scroll == scroll && Valid()
      ensures Value() == Booted(scroll.Value(), scroll.disk.dev.sectors, grid)
    {
      this.grid := grid;
      this.scroll := scroll;
      viewOffset := 0;
      base := Stream(scroll.disk.dev.sectors);
      cut := WindowStart(Search(scroll.disk.dev.sectors, 0, |scroll.disk.dev.sectors|));
      typed := "";
    }

    /** Appending text, and remembering it if the scroll had room. */
    method Type(s: string)
      requires Valid()
      modifies this, scroll, scroll.layout, scroll.disk
      ensures Valid() && scroll.layout == old(scroll.layout) && scroll.pending == old(scroll.pending)
      ensures Value() == Write(old(Value()), s)
    {
      hide AppendPage;
      if !scroll.full {
        typed := typed + s;
      }
      scroll.AppendStr(s);
    }

    /** Power on: load the scroll, then stamp the boot separator if the clock can be read. */
    static method Boot(disk: Disk, grid: Grid, date: Option<Date>) returns (r: Option<Typewriter>)
      requires |disk.dev.sectors| <= MAX_SECTORS && disk.dev.powered
      modifies disk
      ensures r.Some? ==>
                && fresh(r.value) && fresh(r.value.scroll.Footprint() - {disk, null}) && r.value.scroll.disk == disk
                && r.value.grid == grid && r.value.Valid()
                && r.value.Value()
                   == Step(Off(old(disk.dev.sectors)), PowerOn(old(disk.dev.fates), true, date, grid))
      ensures r.None? ==> disk.dev == old(disk.dev)
      ensures r.None? ==> !disk.reliable || LoadPage(disk.dev, grid.columns) == None
    {
      hide LoadPage, Write, SeparatorFor;
      var loaded := Scroll.Load(disk, grid.columns);
      if loaded.None? {
        return None;
      }
      var machine := new Typewriter(grid, loaded.value);
      if date.Some? {
        var separator := BuildSeparator(machine.scroll.text, date.value);
        machine.Type(separator);
      }
      return Some(machine);
    }

    /** One decoded key; `dirty` asks for the page to be drawn again. */
    method HandleKey(key: Key) returns (dirty: bool)
      requires Valid()
      modifies this, scroll, scroll.layout, scroll.disk
      ensures Valid() && scroll.layout == old(scroll.layout) && scroll.pending == old(scroll.pending)
      ensures Value() == Step(old(Value()), Press(key))
      ensures key.PageUp? ==>
                viewOffset == Min(old(viewOffset) + Paging.Minus(grid.rows, 1),
                                  Paging.Minus(|scroll.layout.lines|, grid.rows))
      ensures key.PageDown? ==> viewOffset == Paging.Minus(old(viewOffset), Paging.Minus(grid.rows, 1))
      ensures key.Unicode? && (0x20 <= key.c as int < 0x7F || 0xA0 <= key.c as int) && !old(scroll.full) ==>
                scroll.text == old(scroll.text) + [key.c]
      ensures key.Unicode? && key.c as int in {10, 13} && !old(scroll.full) ==>
                scroll.text == old(scroll.text) + ['\n']
      ensures dirty <==> Inkable(key).Some? || viewOffset != old(viewOffset)
      ensures !dirty ==> Value() == old(Value())
    {
      hide AppendPage, LoadPage;
      dirty := false;
      ghost var before := Value();
      if key.Unicode? && key.c as int in {10, 13} {
        Events.EnterTyped(before, key.c);
      } else if key.Unicode? && (0x20 <= key.c as int < 0x7F || 0xA0 <= key.c as int) {
        Events.CharacterTyped(before, key.c);
      }
      if key.PageUp? {
        var page := Paging.Minus(grid.rows, 1);
        var max := Paging.Minus(|scroll.layout.lines|, grid.rows);
        var newOffset := Min(viewOffset + page, max);
        if newOffset != viewOffset {
          viewOffset := newOffset;
          dirty := true;
        }
      } else if key.PageDown? {
        var newOffset := Paging.Minus(viewOffset, Paging.Minus(grid.rows, 1));
        if newOffset != viewOffset {
          viewOffset := newOffset;
          dirty := true;
        }
      } else {
        var ink := Inkable(key);
        if ink.Some? {
          viewOffset := 0;
          Type([ink.value]);
          dirty := true;
        }
      }
    }

    /**
     One pass of the idle loop while history is streaming; a failed pass is tried again later, and the page
     is drawn again when the last batch has come.
     */
    method IdlePass() returns (redraw: bool)
      requires Valid()
      modifies this, scroll, scroll.pending
      ensures Valid()
      ensures redraw <==> old(scroll.pending) != null && scroll.pending == null
      ensures !redraw ==> scroll.text == old(scroll.text) && scroll.layout == old(scroll.layout)
      ensures Value() == Step(old(Value()), Idle(true))
           || (Value() == Step(old(Value()), Idle(false)) && !scroll.disk.reliable)
    {
      hide PumpPage, LoadPage;
      var finished := scroll.Pump(grid.columns);
      redraw := finished == Some(true);
    }

    /** The lines `render` draws. */
    method VisibleLines() returns (first: nat, end: nat)
      requires Valid()
      ensures first == Paging.WindowFirst(|scroll.layout.lines|, viewOffset, grid.rows, scroll.full)
      ensures end == Paging.WindowEnd(|scroll.layout.lines|, viewOffset)
      ensures first <= end <= |scroll.layout.lines|
      ensures end == if viewOffset < |scroll.layout.lines| then |scroll.layout.lines| - viewOffset else 0
      ensures end - first == Min(end, if scroll.full && grid.rows > 0 then grid.rows - 1 else grid.rows)
    {
      end := Paging.Minus(|scroll.layout.lines|, viewOffset);
      var maxTextRows := if scroll.full then Paging.Minus(grid.rows, 1) else grid.rows;
      first := Paging.Minus(end, maxTextRows);
    }
  }
}
