/**
 What the invariant of `Runs` means to somebody outside the machine: to the one who extracts the
 disk, to the one who types while history is streaming, and to the one who fills the disk.
 */
module Outcomes {
  import opened Bytes
  import opened Record
  import opened DiskShape
  import opened Log
  import opened Utf8
  import opened Markers
  import opened LineLayout
  import opened Pages
  import opened Separator
  import opened Runs
  import Extraction
  import Keystrokes
  import Paging
  import Recovery

  // ------------------------------------------------- the disk, read from outside

  /**
   The valid records are exactly the first so many sectors, all but the last of them full, every
   sector but one past them is zero, and the binary search finds how many there are.
   */
  ghost predicate ExactDisk(sectors: Sectors) {
    var end := ScanEnd(sectors, 0);
    && Search(sectors, 0, |sectors|) == end
    && (forall i :: 0 <= i < |sectors| ==> (Valid(sectors[i], i) <==> i < end))
    && (forall i :: 0 <= i < end - 1 ==> FullRecord(sectors[i], i))
    && (forall i :: end < i < |sectors| ==> sectors[i] == Zeros(SECTOR_SIZE))
  }

  lemma OnlyPrefixValid(sectors: Sectors)
    requires Contiguous(sectors)
    ensures forall i :: 0 <= i < |sectors| ==> (Valid(sectors[i], i) <==> i < ScanEnd(sectors, 0))
  {
    hide Valid;
    var end := ScanEnd(sectors, 0);
    forall i | end <= i < |sectors|
      ensures !Valid(sectors[i], i)
    {
      if Valid(sectors[i], i) {
        Below(sectors, end, i);
      }
    }
  }

  lemma FullButLast(sectors: Sectors)
    requires Sound(sectors)
    ensures forall i :: 0 <= i < ScanEnd(sectors, 0) - 1 ==> FullRecord(sectors[i], i)
    ensures forall i :: ScanEnd(sectors, 0) < i < |sectors| ==> sectors[i] == Zeros(SECTOR_SIZE)
  {
    SoundHolds(sectors);
    Recovery.SlotCases(sectors, Sealed(sectors), Stream(sectors));
    hide Decode, Remnant, Stream, FullRecord, Reading, Sound;
  }

  lemma SoundExact(sectors: Sectors)
    requires Sound(sectors)
    ensures ExactDisk(sectors)
  {
    SoundContiguous(sectors);
    SearchIsScan(sectors);
    OnlyPrefixValid(sectors);
    FullButLast(sectors);
    hide Sound, Valid, FullRecord, Search, ScanEnd, Contiguous;
  }

  /** On or off, the disk of a machine that keeps the invariant. */
  lemma DiskOf(w: World)
    requires Started(w) && Inv(w)
    ensures Sound(SectorsOf(w)) && MarkedBytes(Stream(SectorsOf(w)))
  {
    if w.On? {
      hide Sound, Stream, MarkedBytes, DiskInv, MarkInv, TextInv, ViewInv;
      OffKeeps(w);
    }
  }

  /** Every disk any run from a zeroed disk can leave has that form, whatever its writes are torn into. */
  lemma ReachableDisk(n: nat, events: seq<Event>)
    requires n <= MAX_SECTORS
    ensures ExactDisk(SectorsOf(Run(Zeroed(n), events)))
  {
    SolidRun(n, events);
    var w := Run(Zeroed(n), events);
    hide Run, Solid, ExactDisk, Sound;
    SolidSound(w);
    SoundExact(SectorsOf(w));
  }

  /**
   On every disk of a run that forges nothing every marker leads a line, so it makes no difference
   whether markers are stripped from its bytes, as the script does, or from the text they decode to.
   */
  lemma ReachableExtraction(n: nat, events: seq<Event>)
    requires n <= MAX_SECTORS
    requires RunOk(Zeroed(n), events)
    ensures var stream := Stream(SectorsOf(Run(Zeroed(n), events)));
            MarkedBytes(stream) && Lossy(Extraction.StripBytes(stream)) == Extraction.StripText(Lossy(stream))
  {
    RunKeeps(n, events);
    var w := Run(Zeroed(n), events);
    hide Run, RunOk, Inv, MarkedBytes, Stream, Lossy, Extraction.StripBytes, Extraction.StripText;
    DiskOf(w);
    Extraction.DumpIsExtraction(Stream(SectorsOf(w)));
  }

  // ------------------------------------------------- typing while history streams

  /** Keys and idle passes only. */
  ghost predicate PowerFree(events: seq<Event>) {
    forall e <- events :: e.Press? || e.Idle?
  }

  /** The keys among the events. */
  function Keys(events: seq<Event>): seq<Key> {
    if events == [] then []
    else
      var last := events[|events| - 1];
      Keys(events[..|events| - 1]) + if last.Press? then [last.key] else []
  }

  /** The idle passes whose reads succeed. */
  function Passes(events: seq<Event>): nat {
    if events == [] then 0
    else Passes(events[..|events| - 1]) + if events[|events| - 1] == Idle(true) then 1 else 0
  }

  /** What typing depends on. */
  datatype Ink = Ink(pen: Pen, base: seq<byte>, cut: nat, typed: string, grid: Grid)

  function InkOf(w: World): Ink
    requires w.On?
  {
    Ink(w.page.pen, w.base, w.cut, w.typed, w.grid)
  }

  /** The effect of a key on it. */
  function InkStep(ink: Ink, key: Key): Ink
    requires Ready(ink.pen)
  {
    match Inkable(key)
    case None => ink
    case Some(c) =>
      if ink.pen.full then ink
      else ink.(pen := Append(ink.pen, AsBytes([c])), typed := ink.typed + [c])
  }

  function InkRun(ink: Ink, keys: seq<Key>): (r: Ink)
    requires Ready(ink.pen)
    ensures Ready(r.pen)
  {
    if keys == [] then ink else InkStep(InkRun(ink, keys[..|keys| - 1]), keys[|keys| - 1])
  }

  /** One event of a running session: idle passes leave no trace in the ink. */
  lemma InkSteps(w: World, e: Event)
    requires w.On? && Started(w) && (e.Press? || e.Idle?)
    ensures var r := Step(w, e);
            r.On? && InkOf(r) == if e.Press? then InkStep(InkOf(w), e.key) else InkOf(w)
  {
    hide Append, AdvanceAll, AsBytes, TakeBatch, Lossy, FromText;
    if e.Press? {
      InkableExact(e.key);
    }
  }

  lemma {:induction false} InkRuns(w: World, events: seq<Event>)
    requires w.On? && Started(w) && PowerFree(events)
    ensures var r := Run(w, events);
            r.On? && InkOf(r) == InkRun(InkOf(w), Keys(events))
    decreases |events|
  {
    hide Step, InkStep, InkOf;
    if events == [] {
      WorldReady(w);
    } else {
      var init, e := events[..|events| - 1], events[|events| - 1];
      assert e in events && PowerFree(init);
      InkRuns(w, init);
      WorldReady(w);
      InkSteps(Run(w, init), e);
      if e.Press? {
        assert Keys(events) == Keys(init) + [e.key];
        InkRunSnoc(InkOf(w), Keys(init), e.key);
      } else {
        assert Keys(events) == Keys(init);
      }
    }
  }

  lemma InkRunSnoc(ink: Ink, keys: seq<Key>, key: Key)
    requires Ready(ink.pen)
    ensures InkRun(ink, keys + [key]) == InkStep(InkRun(ink, keys), key)
  {
    hide InkStep;
    assert (keys + [key])[..|keys + [key]| - 1] == keys;
  }

  lemma WorldReady(w: World)
    requires w.On? && Started(w)
    ensures Ready(InkOf(w).pen)
  {}

  lemma SameKeys(w: World, a: seq<Event>, b: seq<Event>)
    requires w.On? && Started(w) && Solid(w)
    requires PowerFree(a) && PowerFree(b) && Keys(a) == Keys(b)
    ensures var x, y := Run(w, a), Run(w, b);
            && x.On? && y.On? && x.page.pen == y.page.pen
            && (x.page.pending.None? && y.page.pending.None? ==> x.page == y.page)
  {
    InkRuns(w, a);
    InkRuns(w, b);
    SolidFrom(w, a);
    SolidFrom(w, b);
    var x, y := Run(w, a), Run(w, b);
    hide Run, Grows, PowerFree, InkRun, Firm, HistoryInv, ViewInv, Lossy, FromText, Sealed;
  }

  /**
   Streaming commutes with typing: however two sessions interleave the same keys with idle passes,
   failed reads included, they leave the same writer and the same disk, and once both have streamed
   all their history, the same text and the same layout; whatever becomes of their writes.
   */
  lemma InterleavingIrrelevant(n: nat, before: seq<Event>, a: seq<Event>, b: seq<Event>)
    requires n <= MAX_SECTORS && Run(Zeroed(n), before).On?
    requires PowerFree(a) && PowerFree(b) && Keys(a) == Keys(b)
    ensures var x, y := Run(Zeroed(n), before + a), Run(Zeroed(n), before + b);
            && x.On? && y.On? && x.page.pen == y.page.pen
            && (x.page.pending.None? && y.page.pending.None? ==> x.page == y.page)
  {
    RunConcat(Zeroed(n), before, a);
    RunConcat(Zeroed(n), before, b);
    SolidRun(n, before);
    hide Run, RunOk, Solid, PowerFree, Keys;
    SameKeys(Run(Zeroed(n), before), a, b);
  }

  /** Sectors of history still to stream. */
  function Rest(w: World): nat
    requires w.On? && Started(w)
  {
    match w.page.pending
    case None => 0
    case Some(l) => l.end - l.cursor
  }

  lemma IdleRest(w: World, readOk: bool)
    requires w.On? && PageReady(w.page) && CAP * w.cut <= |w.base|
    requires w.page.pending.Some? ==> w.page.pending.value.end == w.cut
    ensures var pending := Streamed(w, readOk).pending;
            && (pending.Some? ==> pending.value.cursor < pending.value.end)
            && (if pending.None? then 0 else pending.value.end - pending.value.cursor)
               == if readOk then Paging.Minus(Rest(w), CHUNK) else Rest(w)
  {
    hide Lossy, FromText;
  }

  lemma PressRest(w: World, key: Key)
    requires w.On? && Started(w)
    ensures var r := Step(w, Press(key)); r.On? && Rest(r) == Rest(w)
  {
    hide Append, AdvanceAll, AsBytes, Inkable, Paging.PageUp, Paging.PageDown;
  }

  lemma RestStep(w: World, e: Event)
    requires w.On? && Started(w) && Solid(w) && (e.Press? || e.Idle?)
    ensures var r := Step(w, e);
            r.On? && Rest(r) == if e == Idle(true) then Paging.Minus(Rest(w), CHUNK) else Rest(w)
  {
    if e.Press? {
      hide Step, Solid, Rest;
      PressRest(w, e.key);
    } else {
      CutInRange(w);
      IdleRest(w, e.readOk);
      PumpExact(w, e.readOk);
      hide PumpPage, Streamed, Firm, HistoryInv, TextInv, ViewInv;
    }
  }

  /**
   Streaming ends: every idle pass that can read brings 256 sectors, failed reads only delay it, and
   typing does not delay it at all, whatever becomes of its writes.
   */
  lemma {:induction false} StreamingEnds(w: World, events: seq<Event>)
    requires w.On? && Started(w) && Solid(w) && PowerFree(events)
    ensures var r := Run(w, events);
            && r.On? && Solid(r)
            && Rest(r) == Paging.Minus(Rest(w), 256 * Passes(events))
            && (r.page.pending.None? <==> 256 * Passes(events) >= Rest(w))
    decreases |events|
  {
    hide Step, Solid, Grows;
    if events == [] {
      RestNone(w);
    } else {
      var init, e := events[..|events| - 1], events[|events| - 1];
      assert e in events && PowerFree(init);
      StreamingEnds(w, init);
      var before := Run(w, init);
      RestStep(before, e);
      SolidStep(before, e);
      RestNone(Step(before, e));
    }
  }

  lemma RestNone(w: World)
    requires w.On? && Started(w)
    ensures Rest(w) == 0 <==> w.page.pending.None?
  {}

  // ------------------------------------------------- a disk that fills up

  /**
   Memory runs ahead of the disk exactly when a string did not fit: as long as no write has failed,
   the disk holds everything found at boot and appended since if and only if that fits on it, and
   otherwise its first 494 n bytes.
   */
  lemma MemoryAhead(w: World)
    requires w.On? && Started(w) && Inv(w) && !w.page.pen.trouble
    ensures var n, all := |SectorsOf(w)|, w.base + AsBytes(w.typed);
            && (Stream(SectorsOf(w)) == all <==> |all| <= CAP * n)
            && Stream(SectorsOf(w)) == all[..Min(|all|, CAP * n)]
            && (w.page.pen.full <==> |all| >= CAP * n)
  {
    SettledStream(w);
    hide Stream, Sound, Sealed, MarkInv, TextInv, ViewInv, AsBytes;
    FullMeans(w);
  }

  lemma FullMeans(w: World)
    requires w.On? && PageReady(w.page) && DiskInv(w)
    ensures w.page.pen.full <==> |Ideal(w)| == CAP * |SectorsOf(w)|
  {
    hide Backed, Settled, AsBytes;
  }

  /** Once full, no key changes anything in memory or on disk again. */
  lemma {:induction false} FullRests(w: World, events: seq<Event>)
    requires w.On? && Started(w) && PowerFree(events) && w.page.pen.full
    ensures var r := Run(w, events);
            && r.On? && InkOf(r) == InkOf(w)
            && ((forall e <- events :: e.Press?) ==> r.page == w.page)
    decreases |events|
  {
    hide Step;
    if events != [] {
      var init, e := events[..|events| - 1], events[|events| - 1];
      assert e in events;
      FullRests(w, init);
      InkSteps(Run(w, init), e);
      if e.Press? {
        FullKey(Run(w, init), e.key);
      }
    }
  }

  lemma FullKey(w: World, key: Key)
    requires w.On? && Started(w) && w.page.pen.full
    ensures var r := Step(w, Press(key)); r.On? && r.page == w.page
  {}

  // ------------------------------------------------- memory and disk, character by character

  /** All of the history is in memory, no write has failed, and everything fits on the disk. */
  ghost predicate Complete(w: World)
    requires Started(w)
  {
    w.On? && w.page.pending.None? && !w.page.pen.trouble && |w.base + AsBytes(w.typed)| <= CAP * |SectorsOf(w)|
  }

  /** The window decoded at boot began inside a character. */
  ghost predicate WindowCut(w: World)
    requires w.On? && CAP * w.cut <= |w.base|
  {
    CutInside(w.base[..CAP * w.cut], w.base[CAP * w.cut..])
  }

  lemma CompletePage(w: World)
    requires Started(w) && Inv(w) && Complete(w)
    ensures CAP * w.cut <= |w.base|
    ensures Stream(SectorsOf(w)) == w.base + AsBytes(w.typed) && MarkedBytes(Stream(SectorsOf(w)))
    ensures Lossy(Stream(SectorsOf(w))) == Lossy(w.base) + w.typed
    ensures w.page.text == Lossy(w.base[..CAP * w.cut]) + Lossy(w.base[CAP * w.cut..]) + w.typed
    ensures w.base == w.base[..CAP * w.cut] + w.base[CAP * w.cut..]
  {
    CutInRange(w);
    StreamedText(w);
    hide Inv, Lossy, AsBytes, Stream, MarkedBytes;
    MemoryAhead(w);
    SpliceText(w.base, w.typed);
    DiskOf(w);
    SplitAt(w.base, CAP * w.cut);
  }

  lemma StreamedText(w: World)
    requires w.On? && Started(w) && TextInv(w) && w.page.pending.None?
    ensures CAP * w.cut <= |w.base|
    ensures w.page.text == Lossy(w.base[..CAP * w.cut]) + Lossy(w.base[CAP * w.cut..]) + w.typed
  {
    hide Lossy, FromText, Sealed;
  }

  /**
   What is on the page is what is on the disk, if and only if the window decoded at boot did not begin
   inside a character.
   */
  lemma PageOnDisk(w: World)
    requires Started(w) && Inv(w) && Complete(w)
    ensures CAP * w.cut <= |w.base|
    ensures w.page.text == Lossy(Stream(SectorsOf(w))) <==> !WindowCut(w)
  {
    CompletePage(w);
    hide Inv, Lossy, Stream, AsBytes, CutInside;
    var a, b := w.base[..CAP * w.cut], w.base[CAP * w.cut..];
    SpliceExact(a, b);
    SameHeads(Lossy(a) + Lossy(b), Lossy(w.base), w.typed);
  }

  /**
   What F12 prints is what the extraction script recovers from the same disk, if and only if the window
   decoded at boot did not begin inside a character.
   */
  lemma DumpExact(w: World)
    requires Started(w) && Inv(w) && Complete(w)
    ensures CAP * w.cut <= |w.base|
    ensures Extraction.StripText(w.page.text) == Lossy(Extraction.StripBytes(Stream(SectorsOf(w)))) <==> !WindowCut(w)
  {
    CompletePage(w);
    hide Inv, Lossy, Stream, AsBytes, CutInside, MarkedBytes, Extraction.StripText, Extraction.StripBytes;
    var a, b := w.base[..CAP * w.cut], w.base[CAP * w.cut..];
    Extraction.DumpIsExtraction(Stream(SectorsOf(w)));
    Extraction.StripTextConcat(Lossy(a) + Lossy(b), w.typed);
    Extraction.StripTextConcat(Lossy(w.base), w.typed);
    Extraction.StripSplice(a, b);
    SameHeads(Extraction.StripText(Lossy(a) + Lossy(b)), Extraction.StripText(Lossy(w.base)),
              Extraction.StripText(w.typed));
  }

  /**
   A page survives the power being switched off and on, with or without a separator and whatever is
   typed meanwhile, once history has streamed in again, if and only if the window decoded by the new boot
   does not begin inside a character.
   */
  lemma PageSurvives(w: World, boot: Event, events: seq<Event>)
    requires Started(w) && Inv(w) && Complete(w) && CAP * w.cut <= |w.base| && !WindowCut(w)
    requires boot.PowerOn? && boot.readsOk && PowerFree(events)
    ensures var r := Run(Step(Step(w, PowerOff), boot), events);
            && r.On? && CAP * r.cut <= |r.base|
            && (r.page.pending.None? ==> (r.page.text == w.page.text + r.typed <==> !WindowCut(r)))
  {
    PageOnDisk(w);
    InvSolid(w);
    Reboot(w, boot);
    var next := Step(Step(w, PowerOff), boot);
    InkRuns(next, events);
    SolidFrom(next, events);
    var r := Run(next, events);
    SameBase(InkOf(next), Keys(events));
    StreamingCommutes(r);
    hide Inv, Solid, Step, Run, Lossy, Stream, CutInside, Grows, InkRun, InkStep;
  }

  lemma {:induction false} SameBase(ink: Ink, keys: seq<Key>)
    requires Ready(ink.pen)
    ensures InkRun(ink, keys).base == ink.base
    decreases |keys|
  {
    hide InkStep;
    if keys != [] {
      SameBase(ink, keys[..|keys| - 1]);
      InkGrows(InkRun(ink, keys[..|keys| - 1]), keys[|keys| - 1]);
    }
  }

  // ------------------------------------------------- trouble

  lemma TroubleKey(ink: Ink, key: Key)
    requires Ready(ink.pen) && ink.pen.trouble
    ensures InkStep(ink, key).pen.dev == ink.pen.dev && InkStep(ink, key).pen.trouble
  {
    hide Append, AsBytes;
    if Inkable(key).Some? {
      TroubleFreezes(ink.pen, AsBytes([Inkable(key).value]));
    }
  }

  /** A writer in trouble writes nothing that could be torn. */
  lemma TroubleEventOk(w: World, e: Event)
    requires w.On? && Started(w) && w.page.pen.trouble
    ensures EventOk(w, e)
  {
    hide Flush;
    if e.Press? && Inkable(e.key).Some? {
      var bytes := AsBytes([Inkable(e.key).value]);
      Keystrokes.TroubleOk(w.page.pen, bytes);
      hide InkBytes, InkOk, AsBytes;
    }
  }

  /**
   Failed writes leave no gap: once a write has failed three times the disk is frozen until the next
   boot, holding a prefix of what was typed, however much more is typed into memory.
   */
  lemma {:induction false} TroubleLeavesNoGap(w: World, events: seq<Event>)
    requires w.On? && Started(w) && Inv(w)
    requires PowerFree(events) && w.page.pen.trouble
    ensures var r := Run(w, events);
            && r.On? && Inv(r) && r.page.pen.trouble && SectorsOf(r) == SectorsOf(w)
            && Stream(SectorsOf(w)) <= w.base + AsBytes(w.typed) <= r.base + AsBytes(r.typed)
    decreases |events|
  {
    if events == [] {
      StreamPrefix(w);
    } else {
      hide Step, Inv, InkStep, Stream, AsBytes, EventOk, Grows;
      var init, e := events[..|events| - 1], events[|events| - 1];
      assert e in events && PowerFree(init);
      TroubleLeavesNoGap(w, init);
      var before := Run(w, init);
      InkSteps(before, e);
      TroubleEventOk(before, e);
      StepKeeps(before, e);
      if e.Press? {
        WorldReady(before);
        TroubleKey(InkOf(before), e.key);
        InkGrows(InkOf(before), e.key);
      }
    }
  }

  lemma InkGrows(ink: Ink, key: Key)
    requires Ready(ink.pen)
    ensures InkStep(ink, key).base == ink.base
    ensures ink.base + AsBytes(ink.typed) <= ink.base + AsBytes(InkStep(ink, key).typed)
  {
    hide Append, AsBytes;
    if Inkable(key).Some? {
      EncodeConcat(ink.typed, [Inkable(key).value]);
    }
  }

  lemma StreamPrefix(w: World)
    requires w.On? && Started(w) && Inv(w)
    ensures Stream(SectorsOf(w)) <= w.base + AsBytes(w.typed)
  {
    hide MarkInv, TextInv, ViewInv, Stream, Sound, Sealed, AsBytes;
  }

  // ------------------------------------------------- what a key shows

  /**
   A key that makes ink returns the page to the live end, where the cursor stands: its line is drawn
   if there is a row left to draw it on.
   */
  lemma TypingShowsCursor(w: World, key: Key)
    requires w.On? && Started(w) && Inkable(key).Some?
    ensures var r := Step(w, Press(key));
            var lines := |r.page.layout.spans|;
            && r.On? && r.view == 0
            && (Paging.Shows(lines - 1, lines, r.view, w.grid.rows, r.page.pen.full)
                <==> w.grid.rows >= 2 || (w.grid.rows == 1 && !r.page.pen.full))
  {
    hide Append, AdvanceAll, AsBytes;
    InkableExact(key);
  }
}
