/**
 What a single event does to the machine, in characters, lines and numbers: what a key types, what a boot
 loads, when a write fails for good, and when the page is drawn again.
 */
module Events {
  import opened Bytes
  import opened Record
  import opened Device
  import opened DiskShape
  import opened Log
  import opened Utf8
  import opened LineLayout
  import opened Pages
  import opened Separator
  import opened Runs
  import opened Outcomes
  import opened Views
  import Cuts
  import Keystrokes
  import Recovery
  import Tiling

  // ------------------------------------------------- what a key types

  /** Only the page, what was typed, and the reading offset may differ. */
  predicate SameSession(w: World, r: World)
    requires w.On?
  {
    r.On? && r.base == w.base && r.cut == w.cut && r.grid == w.grid && r.page.pending == w.page.pending
  }

  /** A printable character is put behind the text, as it is, and the page goes to the live end. */
  lemma CharacterTyped(w: World, c: char)
    requires w.On? && Started(w) && (0x20 <= c as int < 0x7F || 0xA0 <= c as int)
    ensures var r := Step(w, Press(Unicode(c)));
            && SameSession(w, r) && r.view == 0
            && (!w.page.pen.full ==> r.page.text == w.page.text + [c] && r.typed == w.typed + [c])
            && (w.page.pen.full ==> r.page == w.page && r.typed == w.typed)
  {
    hide Append, AdvanceAll, AsBytes;
  }

  /** Enter, under either of its codes, ends the line: there is one more, empty, with the cursor in its first column. */
  lemma EnterTyped(w: World, c: char)
    requires w.On? && Started(w) && c as int in {10, 13}
    ensures var r := Step(w, Press(Unicode(c)));
            && SameSession(w, r) && r.view == 0
            && (!w.page.pen.full ==>
                  && r.page.text == w.page.text + ['\n'] && r.typed == w.typed + ['\n']
                  && LineCount(r) == LineCount(w) + 1 && r.page.layout.open == 0
                  && r.page.layout.spans[..LineCount(w)] == w.page.layout.spans
                  && r.page.layout.spans[LineCount(w)]
                     == LineSpan(|AsBytes(r.page.text)|, |AsBytes(r.page.text)|, false))
            && (w.page.pen.full ==> r.page == w.page && r.typed == w.typed)
  {
    Tiling.NewlineMore(w.page.text);
    OneMore(w.page.layout, |AsBytes(w.page.text)|, '\n');
    hide Append, AdvanceAll, AsBytes;
  }

  lemma OneMore(l: Laid, at: nat, c: char)
    ensures AdvanceAll(l, at, [c]) == Advance(l, at, c)
  {
    assert [c][1..] == "";
    assert AdvanceAll(l, at, [c]) == AdvanceAll(Advance(l, at, c), at + Width(c), "");
  }

  /** No other key does anything, but for the two that turn pages. */
  lemma NothingTyped(w: World, key: Key)
    requires w.On? && Started(w)
    requires key.Unicode? ==> (key.c as int < 0x20 || 0x7F <= key.c as int < 0xA0) && key.c as int !in {10, 13}
    ensures var r := Step(w, Press(key));
            && r.On? && r == w.(view := r.view)
            && (key != PageUp && key != PageDown ==> r == w)
  {}

  // ------------------------------------------------- when a write fails for good

  lemma FlushLands(pen: Pen)
    requires Room(pen) && !pen.trouble
    ensures Flush(pen).trouble <==> !Lands(pen.dev.fates, pen.dev.powered, 3)
    ensures !Flush(pen).trouble ==> FlushOk(pen)
  {
    hide Encode, Retry, Lands;
    RetryLands(pen.dev, pen.sealed, Encode(pen.sealed, pen.tail), 3);
    RetryTears(pen.dev, pen.sealed, Encode(pen.sealed, pen.tail), 3);
  }

  /** Bytes that fit are appended whole. */
  lemma ExtendedFits(ideal: seq<byte>, bytes: seq<byte>, n: nat)
    requires |ideal| + |bytes| <= CAP * n
    ensures Extended(ideal, bytes, n) == ideal + bytes
  {
    assert bytes[..|bytes|] == bytes;
  }

  /** How much a running session has put on its sectors. */
  lemma IdealLength(w: World)
    requires w.On? && Started(w) && Inv(w)
    ensures |w.base| <= CAP * |SectorsOf(w)|
    ensures |Ideal(w)| == CAP * w.page.pen.sealed + |w.page.pen.tail|
  {
    hide MarkInv, TextInv, ViewInv, Backed, Settled, AsBytes, Extended;
  }

  lemma KeyAdds(w: World, r: World, d: seq<byte>)
    requires w.On? && Started(w) && Inv(w) && !w.page.pen.trouble && !w.page.pen.full
    requires r.On? && Started(r) && Inv(r) && !r.page.pen.trouble
    requires r.base == w.base && AsBytes(r.typed) == AsBytes(w.typed) + d && |SectorsOf(r)| == |SectorsOf(w)|
    requires |w.page.pen.tail| + |d| < CAP
    ensures Stream(SectorsOf(r)) == Stream(SectorsOf(w)) + d
  {
    SettledWorld(w);
    SettledWorld(r);
    IdealLength(w);
    var n := |SectorsOf(w)|;
    assert w.page.pen.sealed < n && CAP * (w.page.pen.sealed + 1) <= CAP * n;
    hide Inv, Stream, AsBytes;
    ExtendedMore(w.base, AsBytes(w.typed), d, n);
    ExtendedFits(Ideal(w), d, n);
  }

  lemma FirmPowered(w: World)
    requires w.On? && Started(w) && Solid(w) && !w.page.pen.trouble
    ensures w.page.pen.dev.powered
  {
    hide HistoryInv, TextInv, ViewInv, Sound, Sealed;
  }

  /**
   A key that neither fills nor crosses a sector brings trouble if and only if none of the next three write
   commands lands; if one does, its bytes are on the disk behind all there was.
   */
  lemma KeyLands(w: World, key: Key)
    requires w.On? && Started(w) && Solid(w) && !w.page.pen.trouble && !w.page.pen.full && Inkable(key).Some?
    requires |w.page.pen.tail| + |AsBytes([Inkable(key).value])| < 494
    ensures var pen, r := w.page.pen, Step(w, Press(key));
            && r.On? && (r.page.pen.trouble <==> !Lands(pen.dev.fates, true, 3))
            && (Inv(w) && !r.page.pen.trouble ==>
                  && EventOk(w, Press(key)) && Inv(r)
                  && Stream(SectorsOf(r)) == Stream(SectorsOf(w)) + AsBytes([Inkable(key).value]))
  {
    hide Inv, Solid, Stream, AsBytes, Lands, Append, AppendOk, Flush, FlushOk, Inkable, Step, EventOk, Grows;
    var pen, c := w.page.pen, Inkable(key).value;
    var d := AsBytes([c]);
    InkableBytes(key);
    FirmPowered(w);
    InkSteps(w, Press(key));
    Cuts.OneWrite(pen, d);
    FlushLands(Cuts.Pushed(pen, d));
    EncodeConcat(w.typed, [c]);
    KeyOk(w, key);
    var r := Step(w, Press(key));
    if Inv(w) && !r.page.pen.trouble {
      StepKeeps(w, Press(key));
      KeyAdds(w, r, d);
    }
  }

  lemma KeyOk(w: World, key: Key)
    requires w.On? && Started(w) && Inkable(key).Some?
    ensures EventOk(w, Press(key)) <==> AppendOk(w.page.pen, AsBytes([Inkable(key).value]))
  {
    hide AppendOk, AsBytes, Inkable;
  }

  // ------------------------------------------------- sessions without three failures in a row

  lemma HealthyStep(w: World, e: Event)
    requires w.On? && Started(w) && (e.Press? || e.Idle?)
    ensures var r := Step(w, e);
            && r.On? && (Keystrokes.Healthy(r.page.pen) <==> Keystrokes.Healthy(w.page.pen))
            && (Keystrokes.Healthy(w.page.pen) ==> EventOk(w, e))
  {
    hide Append, AppendOk, AsBytes, Keystrokes.Healthy, Inkable;
    InkSteps(w, e);
    if e.Press? && Inkable(e.key).Some? {
      Keystrokes.HealthyAppend(w.page.pen, AsBytes([Inkable(e.key).value]));
    }
  }

  lemma {:induction false} HealthyRun(w: World, events: seq<Event>)
    requires w.On? && Started(w) && PowerFree(events)
    ensures var r := Run(w, events);
            && r.On? && (Keystrokes.Healthy(r.page.pen) <==> Keystrokes.Healthy(w.page.pen))
            && (Inv(w) && Keystrokes.Healthy(w.page.pen) ==> RunOk(w, events) && Inv(r))
    decreases |events|
  {
    hide Step, Inv, EventOk, Keystrokes.Healthy, Grows;
    if events != [] {
      var init, e := events[..|events| - 1], events[|events| - 1];
      assert e in events && PowerFree(init);
      HealthyRun(w, init);
      HealthyStep(Run(w, init), e);
      if Inv(w) && Keystrokes.Healthy(w.page.pen) {
        StepKeeps(Run(w, init), e);
      }
    }
  }

  lemma HealthyBoot(w: World, boot: Event)
    requires w.Off? && Solid(w) && boot.PowerOn? && boot.readsOk
    ensures var r := Step(w, boot);
            && r.On? && (Keystrokes.Healthy(r.page.pen) <==> Steady(boot.fates))
            && (Inv(w) && Steady(boot.fates) ==> EventOk(w, boot) && Inv(r))
  {
    var page := Loads(w, boot);
    BootStep(w.sectors, boot.fates, boot.date, boot.grid);
    hide Step, Inv, Solid, Steady, LoadPage, Stream, AppendOk, Append, SeparatorFor, Grows, AsBytes;
    if boot.date.Some? {
      Keystrokes.HealthyAppend(page.pen, AsBytes(SeparatorFor(page.text, boot.date.value)));
    }
    if Inv(w) && Steady(boot.fates) {
      PowerOnKeeps(w, boot);
    }
  }

  /** What a boot reads from the disk. */
  lemma Loads(w: World, boot: Event) returns (page: Page)
    requires w.Off? && Solid(w) && boot.PowerOn? && boot.readsOk
    ensures var dev := Device(w.sectors, boot.fates, true);
            var valid, stream := ScanEnd(w.sectors, 0), Stream(w.sectors);
            var first := if valid > 64 then valid - 64 else 0;
            && LoadPage(dev, boot.grid.columns) == Some(page) && PageReady(page)
            && page.pen.dev == dev && !page.pen.trouble && page.pen.full == (Sealed(w.sectors) == |w.sectors|)
            && 494 * first <= |stream| && page.text == Lossy(stream[494 * first..])
            && page.pending == (if valid > 64 then Some(Loading([], 0, valid - 64)) else None)
  {
    var dev := Device(w.sectors, boot.fates, true);
    Recovery.LoadExact(dev, boot.grid.columns);
    page := LoadPage(dev, boot.grid.columns).value;
    hide LoadPage, Stream, ScanEnd, Lossy, FromText, Sealed, Sound;
  }

  /**
   Three attempts are enough for a whole session exactly if the power stays on and no three write commands
   fail in a row: then, and only then, is the machine at any point of it without trouble and without trouble
   ahead, and everything that fits is on the disk. No luck is needed either.
   */
  lemma RetriesSuffice(w: World, boot: Event, events: seq<Event>)
    requires w.Off? && Solid(w) && boot.PowerOn? && boot.readsOk && PowerFree(events)
    ensures var r := Run(Step(w, boot), events);
            && r.On?
            && (!r.page.pen.trouble && r.page.pen.dev.powered && Steady(r.page.pen.dev.fates) <==> Steady(boot.fates))
            && (Inv(w) && Steady(boot.fates) ==>
                  && EventOk(w, boot) && RunOk(Step(w, boot), events) && Inv(r)
                  && var all, n := r.base + AsBytes(r.typed), |SectorsOf(r)|;
                     Stream(SectorsOf(r)) == all[..Min(|all|, 494 * n)])
  {
    hide Step, Run, Inv, Solid, Steady, Stream, AsBytes, EventOk;
    HealthyBoot(w, boot);
    HealthyRun(Step(w, boot), events);
    var r := Run(Step(w, boot), events);
    if Inv(w) && Steady(boot.fates) {
      MemoryAhead(r);
    }
  }

  // ------------------------------------------------- what a boot loads

  /**
   A boot from any disk a run can leave: the text is that of the last 64 records and what the boot adds; all
   before it is left to stream.
   */
  lemma BootWindow(w: World, boot: Event)
    requires w.Off? && Solid(w) && boot.PowerOn? && boot.readsOk
    ensures var r, valid, stream := Step(w, boot), ScanEnd(w.sectors, 0), Stream(w.sectors);
            var first := if valid > 64 then valid - 64 else 0;
            && r.On? && r.view == 0 && r.grid == boot.grid && r.base == stream && r.cut == first
            && 494 * first <= |stream|
            && r.page.pending == (if valid > 64 then Some(Loading([], 0, valid - 64)) else None)
            && r.page.text == Lossy(stream[494 * first..]) + r.typed
  {
    var page := Loads(w, boot);
    var booted := BootWrites(w, boot, page);
    EndFound(w);
    hide Step, Solid, LoadPage, Stream, ScanEnd, Search, Lossy, SeparatorFor, Sealed, Write, Booted;
    BootedParts(page, w.sectors, boot.grid);
  }

  lemma EndFound(w: World)
    requires w.Off? && Solid(w)
    ensures Search(w.sectors, 0, |w.sectors|) == ScanEnd(w.sectors, 0)
  {
    SolidSound(w);
    SoundContiguous(w.sectors);
    SearchIsScan(w.sectors);
  }

  /** What it adds is the separator for that text, if the clock could be read and the scroll is not full. */
  lemma BootStamps(w: World, boot: Event)
    requires w.Off? && Solid(w) && boot.PowerOn? && boot.readsOk
    ensures var r, valid, stream := Step(w, boot), ScanEnd(w.sectors, 0), Stream(w.sectors);
            var first := if valid > 64 then valid - 64 else 0;
            && r.On? && 494 * first <= |stream|
            && r.typed == if boot.date.None? || Sealed(w.sectors) == |w.sectors| then ""
                          else SeparatorFor(Lossy(stream[494 * first..]), boot.date.value)
  {
    var page := Loads(w, boot);
    var booted := BootWrites(w, boot, page);
    hide Step, Solid, LoadPage, Sound, Stream, ScanEnd, Lossy, SeparatorFor, Sealed, Write, Booted;
    BootedParts(page, w.sectors, boot.grid);
  }

  lemma BootWrites(w: World, boot: Event, page: Page) returns (booted: World)
    requires w.Off? && boot.PowerOn? && boot.readsOk && PageReady(page)
    requires LoadPage(Device(w.sectors, boot.fates, true), boot.grid.columns) == Some(page)
    ensures booted == Booted(page, w.sectors, boot.grid)
    ensures var r := Step(w, boot);
            && SameSession(booted, r) && r.view == booted.view
            && (boot.date.None? || page.pen.full ==> r == booted)
            && (boot.date.Some? && !page.pen.full ==> r.typed == SeparatorFor(page.text, boot.date.value))
            && r.page.text == page.text + r.typed
  {
    booted := Booted(page, w.sectors, boot.grid);
    BootStep(w.sectors, boot.fates, boot.date, boot.grid);
    hide Step, LoadPage, Stream, SeparatorFor, Write, Booted;
    BootedParts(page, w.sectors, boot.grid);
    if boot.date.Some? {
      var s := SeparatorFor(page.text, boot.date.value);
      WriteParts(booted, s);
      assert "" + s == s;
    }
    assert page.text + "" == page.text;
  }

  lemma BootedParts(page: Page, sectors: Sectors, grid: Grid)
    ensures var w, valid := Booted(page, sectors, grid), Search(sectors, 0, |sectors|);
            && w.On? && w.page == page && w.view == 0 && w.grid == grid && w.base == Stream(sectors) && w.typed == ""
            && w.cut == if valid > 64 then valid - 64 else 0
  {
    hide Search, Stream;
  }

  lemma WriteParts(w: World, s: string)
    requires w.On? && PageReady(w.page)
    ensures var r := Write(w, s);
            && SameSession(w, r) && r.view == w.view
            && (w.page.pen.full ==> r == w)
            && (!w.page.pen.full ==> r.typed == w.typed + s && r.page.text == w.page.text + s)
  {
    hide Append, AdvanceAll, AsBytes;
  }

  // ------------------------------------------------- when the page is drawn again

  /** The main loop draws the page after this event. */
  predicate Redraws(w: World, e: Event)
    requires w.On? && Started(w)
  {
    match e
    case Press(key) => Inkable(key).Some? || Step(w, e).view != w.view
    case Idle(readOk) => PumpPage(w.page, readOk, w.grid.columns).1 == Some(true)
    case _ => true
  }

  /** The page on the screen is never stale: an event it is not drawn after would not have changed it. */
  lemma NeverStale(w: World, e: Event)
    requires w.On? && Started(w) && !Redraws(w, e)
    ensures var r := Step(w, e);
            r.On? && Shown(r) == Shown(w) && r.page.pen == w.page.pen
  {
    hide Shown, Inkable;
    var r := Step(w, e);
    if e.Idle? {
      PumpQuiet(w.page, e.readOk, w.grid.columns);
    }
    hide PumpPage;
    SamePicture(w, r);
  }

  lemma PumpQuiet(page: Page, readOk: bool, columns: nat)
    requires PageReady(page) && PumpPage(page, readOk, columns).1 != Some(true)
    ensures var r := PumpPage(page, readOk, columns).0;
            r.text == page.text && r.layout == page.layout && r.pen == page.pen
  {
    hide TakeBatch, Lossy, FromText, AsBytes;
  }
}
