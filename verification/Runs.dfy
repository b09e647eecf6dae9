/**
 The whole machine as a state machine over boots, keys, idle passes and power cuts, and what every
 step of every run keeps.
 */
module Runs {
  import opened Bytes
  import opened Record
  import opened Device
  import opened DiskShape
  import opened Log
  import opened Utf8
  import opened Markers
  import opened LineLayout
  import opened Pages
  import opened Separator
  import Keystrokes
  import Paging
  import Recovery
  import Tiling

  /** The text grid of the framebuffer, at least one character wide. */
  datatype Cells = Cells(columns: nat, rows: nat)

  type Grid = g: Cells | g.columns >= 1 witness Cells(1, 0)

  /**
   Power on, with the fates of the session's write commands and the clock's answer; a key; one
   pass of the idle loop, whose batch may fail to read; or the power switched off.
   */
  datatype Event =
    | PowerOn(fates: seq<Fate>, readsOk: bool, date: Option<Date>, grid: Grid)
    | Press(key: Key)
    | Idle(readOk: bool)
    | PowerOff

  /**
   Off, with a disk; or on, with the scroll in memory, the reading offset and the text grid. `base`,
   `cut` and `typed` only remember: the stream found at boot, where the window decoded then started
   (in sectors), and the text appended since.
   */
  datatype World =
    | Off(sectors: Sectors)
    | On(page: Page, view: nat, base: seq<byte>, cut: nat, typed: string, grid: Grid)

  /** A machine that was never switched on, with a disk of `n` zeroed sectors. */
  function Zeroed(n: nat): (w: World)
    requires n <= MAX_SECTORS
    ensures w.Off? && |w.sectors| == n
  {
    Off(seq(n, i => Zeros(SECTOR_SIZE)))
  }

  predicate Started(w: World) {
    w.On? ==> PageReady(w.page)
  }

  function SectorsOf(w: World): Sectors
    requires Started(w)
  {
    match w
    case Off(sectors) => sectors
    case On(page, _, _, _, _, _) => page.pen.dev.sectors
  }

  /** Appending text to a running scroll. */
  function Write(w: World, s: string): (r: World)
    requires w.On? && PageReady(w.page)
    ensures r.On? && Started(r)
  {
    w.(page := AppendPage(w.page, s), typed := if w.page.pen.full then w.typed else w.typed + s)
  }

  function Booted(page: Page, sectors: Sectors, grid: Grid): World {
    On(page, 0, Stream(sectors), WindowStart(Search(sectors, 0, |sectors|)), "", grid)
  }

  /** One event. A boot that cannot read the disk, or decode its tail, stops there. */
  function Step(w: World, e: Event): (r: World)
    requires Started(w)
    ensures Started(r)
  {
    match e
    case PowerOn(fates, readsOk, date, grid) =>
      if w.On? || !readsOk then w
      else (
        match LoadPage(Device(w.sectors, fates, true), grid.columns)
        case None => w
        case Some(page) =>
          var booted := Booted(page, w.sectors, grid);
          if date.None? then booted else Write(booted, SeparatorFor(page.text, date.value)))
    case Press(key) =>
      if w.Off? then w
      else if key.PageUp? then w.(view := Paging.PageUp(w.view, |w.page.layout.spans|, w.grid.rows))
      else if key.PageDown? then w.(view := Paging.PageDown(w.view, w.grid.rows))
      else (
        match Inkable(key)
        case None => w
        case Some(c) => Write(w.(view := 0), [c]))
    case Idle(readOk) =>
      if w.Off? then w else w.(page := PumpPage(w.page, readOk, w.grid.columns).0)
    case PowerOff => Off(SectorsOf(w))
  }

  function Run(w: World, events: seq<Event>): (r: World)
    requires Started(w)
    ensures Started(r)
  {
    if events == [] then w else Step(Run(w, events[..|events| - 1]), events[|events| - 1])
  }

  // ------------------------------------------------- the failures considered

  /**
   No write of this event is torn into a forgery (`Torn.Forges`: a condition on what the sector holds,
   what is written and where the write stops). For a key that is certain while tears stay outside the
   six description bytes; see `WholeRunOk`.
   */
  ghost predicate EventOk(w: World, e: Event)
    requires Started(w)
  {
    match e
    case PowerOn(fates, readsOk, date, grid) =>
      w.Off? && readsOk && date.Some? ==>
        var loaded := LoadPage(Device(w.sectors, fates, true), grid.columns);
        loaded.Some? ==> AppendOk(loaded.value.pen, AsBytes(SeparatorFor(loaded.value.text, date.value)))
    case Press(key) =>
      w.On? && Inkable(key).Some? ==> AppendOk(w.page.pen, AsBytes([Inkable(key).value]))
    case _ => true
  }

  ghost predicate RunOk(w: World, events: seq<Event>)
    requires Started(w)
  {
    events == [] || (
      && RunOk(w, events[..|events| - 1])
      && EventOk(Run(w, events[..|events| - 1]), events[|events| - 1]))
  }

  // ------------------------------------------------- the invariant

  /** The bytes the session meant to have on disk: what it found and everything appended, up to the capacity. */
  ghost function Ideal(w: World): seq<byte>
    requires w.On? && PageReady(w.page) && |w.base| <= CAP * |w.page.pen.dev.sectors|
  {
    Extended(w.base, AsBytes(w.typed), |w.page.pen.dev.sectors|)
  }

  ghost predicate DiskInv(w: World)
    requires w.On? && PageReady(w.page)
  {
    && |w.base| <= CAP * |w.page.pen.dev.sectors|
    && Session(w.page.pen, Ideal(w)) && Settled(w.page.pen, Ideal(w))
  }

  ghost predicate MarkInv(w: World)
    requires w.On?
  {
    MarkedBytes(w.base + AsBytes(w.typed)) && MarkedText(w.page.text)
  }

  /** The history being streamed is exactly the payloads before the cursor. */
  ghost predicate TextInv(w: World)
    requires w.On? && PageReady(w.page)
  {
    && w.cut <= Sealed(w.page.pen.dev.sectors)
    && CAP * w.cut <= |w.base|
    && (w.cut > 0 ==> CAP * w.cut < |w.base|)
    && w.page.layout == FromText(w.page.text, w.grid.columns)
    && match w.page.pending
       case Some(l) =>
         && l.end == w.cut
         && l.prefix == w.base[..CAP * l.cursor]
         && w.page.text == Lossy(w.base[CAP * w.cut..]) + w.typed
       case None =>
         w.page.text == Lossy(w.base[..CAP * w.cut]) + Lossy(w.base[CAP * w.cut..]) + w.typed
  }

  ghost predicate ViewInv(w: World)
    requires w.On?
  {
    w.view <= Paging.MaxView(|w.page.layout.spans|, w.grid.rows)
  }

  /** The sectors before the cut still hold what the stream held there at boot. */
  ghost predicate HistoryInv(w: World)
    requires w.On? && PageReady(w.page)
  {
    var s := Stream(w.page.pen.dev.sectors);
    && w.cut <= Sealed(w.page.pen.dev.sectors)
    && CAP * w.cut <= |w.base| && CAP * w.cut <= |s| && s[..CAP * w.cut] == w.base[..CAP * w.cut]
  }

  /** What no failure can break: the shape of the disk, the history, the text and its layout, the offset. */
  ghost predicate Solid(w: World)
    requires Started(w)
  {
    match w
    case Off(sectors) => Sound(sectors)
    case On(_, _, _, _, _, _) => Firm(w.page.pen) && HistoryInv(w) && TextInv(w) && ViewInv(w)
  }

  /** What holds as long as nothing is forged. */
  ghost predicate Inv(w: World)
    requires Started(w)
  {
    match w
    case Off(sectors) => Sound(sectors) && MarkedBytes(Stream(sectors))
    case On(_, _, _, _, _, _) => DiskInv(w) && MarkInv(w) && TextInv(w) && ViewInv(w)
  }

  // ------------------------------------------------- appending

  lemma ExtendedMore(base: seq<byte>, a: seq<byte>, b: seq<byte>, n: nat)
    requires |base| <= CAP * n
    ensures |Extended(base, a, n)| <= CAP * n
    ensures Extended(Extended(base, a, n), b, n) == Extended(base, a + b, n)
  {}

  lemma WriteDisk(w: World, s: string)
    requires w.On? && PageReady(w.page) && DiskInv(w)
    requires AppendOk(w.page.pen, AsBytes(s))
    ensures DiskInv(Write(w, s))
    ensures Grows(w.page.pen.dev.sectors, Write(w, s).page.pen.dev.sectors)
  {
    hide Session, Settled, AppendOk, Append, AdvanceAll, AsBytes;
    if w.page.pen.full {
      GrowsRefl(w.page.pen.dev.sectors);
    } else {
      AppendKeeps(w.page.pen, AsBytes(s), Ideal(w));
      EncodeConcat(w.typed, s);
      ExtendedMore(w.base, AsBytes(w.typed), AsBytes(s), |w.page.pen.dev.sectors|);
    }
  }

  lemma WriteText(w: World, s: string)
    requires w.On? && PageReady(w.page) && TextInv(w)
    requires Sealed(w.page.pen.dev.sectors) <= Sealed(Write(w, s).page.pen.dev.sectors)
    ensures TextInv(Write(w, s))
  {
    hide Append, AdvanceAll, AsBytes, Lossy, FromText, Sealed;
    CacheAppend(w.page.text, s, w.grid.columns);
    if !w.page.pen.full {
      var a, b := Lossy(w.base[..CAP * w.cut]), Lossy(w.base[CAP * w.cut..]);
      assert (b + w.typed) + s == b + (w.typed + s);
      assert (a + b + w.typed) + s == a + b + (w.typed + s);
    }
  }

  lemma WriteMarks(w: World, s: string)
    requires w.On? && PageReady(w.page) && MarkInv(w) && MarkedText(s)
    requires Closes(w.base + AsBytes(w.typed), AsBytes(s), MARKER_BYTE, NEWLINE_BYTE)
    requires Closes(w.page.text, s, MARKER, NEWLINE)
    ensures MarkInv(Write(w, s))
  {
    hide Append, AdvanceAll, AsBytes;
    EncodeMarked(s);
    EncodeConcat(w.typed, s);
    LeadsConcat(w.base + AsBytes(w.typed), AsBytes(s), MARKER_BYTE, NEWLINE_BYTE);
    LeadsConcat(w.page.text, s, MARKER, NEWLINE);
    assert (w.base + AsBytes(w.typed)) + AsBytes(s) == w.base + (AsBytes(w.typed) + AsBytes(s));
  }

  /** Text that may follow what is there keeps the invariant. */
  lemma WriteKeeps(w: World, s: string)
    requires w.On? && PageReady(w.page) && DiskInv(w) && MarkInv(w) && TextInv(w) && w.view == 0
    requires AppendOk(w.page.pen, AsBytes(s)) && MarkedText(s)
    requires Closes(w.base + AsBytes(w.typed), AsBytes(s), MARKER_BYTE, NEWLINE_BYTE)
    requires Closes(w.page.text, s, MARKER, NEWLINE)
    ensures Inv(Write(w, s))
    ensures Grows(w.page.pen.dev.sectors, Write(w, s).page.pen.dev.sectors)
  {
    hide DiskInv, MarkInv, TextInv, AppendOk, MarkedText, Closes, AppendPage, AsBytes;
    WriteDisk(w, s);
    GrowsSealed(w.page.pen.dev.sectors, Write(w, s).page.pen.dev.sectors);
    WriteText(w, s);
    WriteMarks(w, s);
  }

  lemma GrowsSealed(a: Sectors, b: Sectors)
    requires Grows(a, b)
    ensures Sealed(a) <= Sealed(b)
  {}

  // ------------------------------------------------- keys

  lemma KeyKeeps(w: World, c: char)
    requires w.On? && PageReady(w.page) && Inv(w) && c != MARKER
    requires AppendOk(w.page.pen, AsBytes([c]))
    ensures var r := Write(w.(view := 0), [c]);
            Inv(r) && Grows(w.page.pen.dev.sectors, r.page.pen.dev.sectors)
  {
    var w0 := w.(view := 0);
    assert DiskInv(w0) && MarkInv(w0) && TextInv(w0);
    assert AsBytes([c])[0] != MARKER_BYTE by {
      CharAscii(c);
    }
    hide DiskInv, MarkInv, TextInv, Session, Settled, AppendOk, Write, AsBytes;
    WriteKeeps(w0, [c]);
  }

  // ------------------------------------------------- booting

  /** A freshly booted machine: everything it remembers was just read from the disk. */
  ghost predicate Fresh(w: World, dev: Device) {
    && w.On? && PageReady(w.page) && |dev.sectors| <= MAX_SECTORS
    && Recovery.Restored(w.page, dev, w.cut, w.grid.columns)
    && w.base == Stream(dev.sectors) && w.typed == "" && w.view == 0
  }

  lemma EmptyText()
    ensures AsBytes("") == [] && Lossy([]) == ""
  {}

  lemma BootText(w: World, dev: Device)
    requires Fresh(w, dev)
    ensures TextInv(w) && ViewInv(w)
  {
    hide Lossy, FromText, Stream, Sealed;
    EmptyText();
    var window := w.base[CAP * w.cut..];
    assert Lossy(window) + "" == Lossy(window) && "" + Lossy(window) == Lossy(window);
    assert w.base[..0] == [];
  }

  lemma BootMarks(w: World, dev: Device)
    requires Fresh(w, dev) && MarkedBytes(w.base)
    ensures MarkInv(w)
  {
    hide Lossy, FromText, Stream, Sealed, Leads;
    EmptyText();
    LeadsPrefix(w.base, CAP * w.cut, MARKER_BYTE, NEWLINE_BYTE);
    LossyMarked(w.base[CAP * w.cut..]);
    assert w.base + [] == w.base;
  }

  lemma BootEnds(w: World, dev: Device)
    requires Fresh(w, dev)
    ensures w.page.text == "" <==> w.base == []
    ensures w.base != [] ==>
              (w.base[|w.base| - 1] == NEWLINE_BYTE <==> w.page.text[|w.page.text| - 1] == NEWLINE)
  {
    hide Lossy, FromText, Stream, Sealed;
    LossyEnds(w.base[CAP * w.cut..]);
  }

  lemma BootDisk(w: World, dev: Device)
    requires Fresh(w, dev)
    requires Sound(dev.sectors) && dev.powered
    ensures DiskInv(w)
  {
    hide Lossy, FromText, Stream, Sealed, Sound, Holds;
    SoundHolds(dev.sectors);
    Recovery.SlotBound(dev.sectors, Sealed(dev.sectors), Stream(dev.sectors));
    EmptyText();
    assert Extended(w.base, [], |dev.sectors|) == w.base;
  }

  lemma BootFresh(sectors: Sectors, fates: seq<Fate>, grid: Grid)
    requires Sound(sectors)
    ensures var dev := Device(sectors, fates, true);
            && LoadPage(dev, grid.columns).Some?
            && Fresh(Booted(LoadPage(dev, grid.columns).value, sectors, grid), dev)
  {
    hide LoadPage, Stream, Sound, Search, ScanEnd, Contiguous, Sealed, Recovery.Restored;
    Recovery.LoadExact(Device(sectors, fates, true), grid.columns);
    SoundContiguous(sectors);
    SearchIsScan(sectors);
  }

  /** A boot from a sound disk succeeds and establishes the invariant. */
  lemma BootKeeps(sectors: Sectors, fates: seq<Fate>, grid: Grid)
    requires Sound(sectors) && MarkedBytes(Stream(sectors))
    ensures var dev := Device(sectors, fates, true);
            && LoadPage(dev, grid.columns).Some?
            && var w := Booted(LoadPage(dev, grid.columns).value, sectors, grid);
               && Started(w) && DiskInv(w) && MarkInv(w) && TextInv(w) && ViewInv(w)
               && SectorsOf(w) == sectors
               && (w.page.text == "" <==> w.base == [])
               && (w.base != [] ==>
                     (w.base[|w.base| - 1] == NEWLINE_BYTE <==> w.page.text[|w.page.text| - 1] == NEWLINE))
  {
    hide LoadPage, Stream, Sound, Search, DiskInv, MarkInv, TextInv, ViewInv, MarkedBytes, Fresh;
    var dev := Device(sectors, fates, true);
    BootFresh(sectors, fates, grid);
    var w := Booted(LoadPage(dev, grid.columns).value, sectors, grid);
    FreshBase(w, dev);
    hide Booted;
    BootText(w, dev);
    BootMarks(w, dev);
    BootEnds(w, dev);
    BootDisk(w, dev);
  }

  lemma FreshBase(w: World, dev: Device)
    requires Fresh(w, dev)
    ensures w.page.pen.dev == dev && w.base == Stream(dev.sectors)
  {
    hide Stream, Sealed;
  }

  /** The boot separator may follow whatever the disk holds. */
  lemma SeparatorKeeps(w: World, date: Date)
    requires w.On? && PageReady(w.page) && DiskInv(w) && MarkInv(w) && TextInv(w) && w.view == 0
    requires w.typed == "" && (w.page.text == "" <==> w.base == [])
    requires AppendOk(w.page.pen, AsBytes(SeparatorFor(w.page.text, date)))
    ensures var r := Write(w, SeparatorFor(w.page.text, date));
            Inv(r) && Grows(w.page.pen.dev.sectors, r.page.pen.dev.sectors)
  {
    var s := SeparatorFor(w.page.text, date);
    SeparatorMarked(w.page.text, date);
    EncodeEnds(s);
    assert AsBytes("") == [];
    hide DiskInv, MarkInv, TextInv, AppendOk, Write, AsBytes, SeparatorFor;
    WriteKeeps(w, s);
  }

  // ------------------------------------------------- streaming

  /** The sectors before the cut still hold what they held at boot. */
  lemma HistoryBlock(w: World, i: nat)
    requires w.On? && PageReady(w.page) && Firm(w.page.pen) && HistoryInv(w) && i < w.cut
    ensures CAP * (i + 1) <= |w.base|
    ensures i < |w.page.pen.dev.sectors|
    ensures Decode(w.page.pen.dev.sectors[i], i) == Some(w.base[CAP * i..CAP * (i + 1)])
  {
    var sectors := w.page.pen.dev.sectors;
    var s := Stream(sectors);
    SoundHolds(sectors);
    Recovery.SlotBound(sectors, Sealed(sectors), s);
    Recovery.BlockAt(sectors, Sealed(sectors), s, i);
    hide Holds, Sound, Stream, Sealed, Decode;
    PrefixSlice(s[..CAP * w.cut], s, CAP * i, CAP * (i + 1));
    PrefixSlice(w.base[..CAP * w.cut], w.base, CAP * i, CAP * (i + 1));
  }

  lemma PrefixSlice(s: seq<byte>, t: seq<byte>, a: nat, b: nat)
    requires a <= b <= |s| && s <= t
    ensures s[a..b] == t[a..b]
  {
    assert s[a..b] == t[..|s|][a..b];
  }

  lemma {:induction false} BatchTaken(w: World, cursor: nat, count: nat)
    requires w.On? && PageReady(w.page) && Firm(w.page.pen) && HistoryInv(w)
    requires cursor + count <= w.cut && CAP * (cursor + count) <= |w.base|
    requires w.cut <= |w.page.pen.dev.sectors|
    ensures TakeBatch(w.page.pen.dev.sectors, cursor, count, w.base[..CAP * cursor])
         == (w.base[..CAP * (cursor + count)], true)
    decreases count
  {
    hide Firm, HistoryInv, Decode;
    if count > 0 {
      HistoryBlock(w, cursor);
      var next := cursor + 1;
      assert w.base[..CAP * cursor] + w.base[CAP * cursor..CAP * next] == w.base[..CAP * next];
      BatchTaken(w, next, count - 1);
    }
  }

  /** The page after one pass of the idle loop, told from what was on the disk at boot. */
  ghost function Streamed(w: World, readOk: bool): Page
    requires w.On? && PageReady(w.page) && CAP * w.cut <= |w.base|
    requires w.page.pending.Some? ==> w.page.pending.value.end == w.cut
  {
    if w.page.pending.None? || !readOk then w.page
    else
      var l := w.page.pending.value;
      var next := l.cursor + Min(l.end - l.cursor, CHUNK);
      if next < l.end then w.page.(pending := Some(Loading(w.base[..CAP * next], next, l.end)))
      else
        var text := Lossy(w.base[..CAP * w.cut]) + w.page.text;
        w.page.(text := text, layout := FromText(text, w.grid.columns), pending := None)
  }

  /**
   One pass of the idle loop, when the sectors before the cut still hold what they held at boot. It reports
   an error only when its read fails, and the end of the stream exactly when 256 sectors or fewer were left.
   */
  lemma PumpExact(w: World, readOk: bool)
    requires w.On? && PageReady(w.page) && Firm(w.page.pen) && HistoryInv(w) && TextInv(w)
    ensures var (page, reported) := PumpPage(w.page, readOk, w.grid.columns);
            var loading := w.page.pending;
            && page == Streamed(w, readOk)
            && (reported == None <==> loading.Some? && !readOk)
            && (reported == Some(true) <==> loading.Some? && readOk && loading.value.end <= loading.value.cursor + 256)
  {
    hide Firm, HistoryInv, FromText, Lossy, AsBytes, TakeBatch, Sealed;
    if w.page.pending.Some? && readOk {
      hide PumpPage;
      var l := w.page.pending.value;
      var count := Min(l.end - l.cursor, CHUNK);
      CutInRange(w);
      BatchTaken(w, l.cursor, count);
      SpliceText(w.base[..CAP * w.cut], w.page.text);
      PumpAfterBatch(w.page, w.grid.columns, w.base[..CAP * (l.cursor + count)]);
    }
  }

  lemma PumpAfterBatch(page: Page, columns: nat, prefix: seq<byte>)
    requires PageReady(page) && page.pending.Some?
    requires var l := page.pending.value;
             var count := Min(l.end - l.cursor, CHUNK);
             TakeBatch(page.pen.dev.sectors, l.cursor, count, l.prefix) == (prefix, true)
    ensures var l := page.pending.value;
            var next := l.cursor + Min(l.end - l.cursor, CHUNK);
            var text := Lossy(prefix + AsBytes(page.text));
            var r := PumpPage(page, true, columns);
            && (next < l.end ==> r == (page.(pending := Some(Loading(prefix, next, l.end))), Some(false)))
            && (next == l.end ==>
                  r == (page.(text := text, layout := FromText(text, columns), pending := None), Some(true)))
  {
    hide FromText, Lossy, AsBytes, TakeBatch;
  }

  lemma CutInRange(w: World)
    requires w.On? && PageReady(w.page) && TextInv(w)
    ensures w.cut <= |w.page.pen.dev.sectors| && CAP * w.cut <= |w.base|
  {}

  lemma SplicedMarks(w: World)
    requires w.On? && PageReady(w.page) && MarkInv(w) && TextInv(w) && w.page.pending.Some?
    ensures MarkedText(Lossy(w.base[..CAP * w.cut]) + w.page.text)
  {
    hide Lossy, FromText, AsBytes, Leads, Sealed;
    var a, b := w.base[..CAP * w.cut], w.base[CAP * w.cut..];
    assert w.base == a + b;
    LeadsConcat(w.base, AsBytes(w.typed), MARKER_BYTE, NEWLINE_BYTE);
    LeadsConcat(a, b, MARKER_BYTE, NEWLINE_BYTE);
    LossyMarked(a);
    LossyEnds(a);
    LossyEnds(b);
    LeadsConcat(Lossy(a), w.page.text, MARKER, NEWLINE);
  }

  lemma IdleKeeps(w: World, readOk: bool)
    requires w.On? && PageReady(w.page) && Inv(w)
    ensures Inv(Step(w, Idle(readOk)))
    ensures SectorsOf(Step(w, Idle(readOk))) == SectorsOf(w)
  {
    InvSolid(w);
    SolidIdle(w, readOk);
    hide PumpPage, Lossy, FromText, AsBytes, DiskInv, MarkInv, Firm, HistoryInv;
    PumpExact(w, readOk);
    var r := Step(w, Idle(readOk));
    SamePen(w, r);
    if r.page.pending.None? && w.page.pending.Some? {
      SplicedMarks(w);
      NewText(w, r);
    } else {
      SameText(w, r);
    }
  }

  lemma SamePen(w: World, r: World)
    requires w.On? && r.On? && PageReady(w.page) && PageReady(r.page) && DiskInv(w)
    requires r == w.(page := r.page) && r.page.pen == w.page.pen
    ensures DiskInv(r)
  {
    hide Session, Settled, AsBytes;
  }

  lemma SameText(w: World, r: World)
    requires w.On? && r.On? && MarkInv(w) && r == w.(page := r.page) && r.page.text == w.page.text
    ensures MarkInv(r)
  {
    hide MarkedBytes, MarkedText, AsBytes;
  }

  lemma NewText(w: World, r: World)
    requires w.On? && r.On? && MarkInv(w) && r == w.(page := r.page) && MarkedText(r.page.text)
    ensures MarkInv(r)
  {
    hide MarkedBytes, MarkedText, AsBytes;
  }

  /** The end of the stream: history in front of the live text, layout rebuilt. */
  lemma Spliced(w: World, r: World)
    requires w.On? && r.On? && PageReady(w.page) && PageReady(r.page)
    requires TextInv(w) && ViewInv(w) && w.page.pending.Some?
    requires r == w.(page := r.page)
    requires var text := Lossy(w.base[..CAP * w.cut]) + w.page.text;
             r.page == w.page.(text := text, layout := FromText(text, w.grid.columns), pending := None)
    ensures TextInv(r) && ViewInv(r)
  {
    hide Lossy, FromText, AsBytes, Sealed;
    var a, b := Lossy(w.base[..CAP * w.cut]), Lossy(w.base[CAP * w.cut..]);
    Tiling.HistoryAddsLines(a, w.page.text, w.grid.columns);
    assert a + (b + w.typed) == a + b + w.typed;
  }

  // ------------------------------------------------- what no failure can break

  /** The invariant of runs that forge nothing contains the other one. */
  lemma InvSolid(w: World)
    requires Started(w) && Inv(w)
    ensures Solid(w)
  {
    if w.On? {
      hide MarkInv, ViewInv, Sound, Stream, Sealed, Lossy, FromText, AsBytes;
      var sectors := SectorsOf(w);
      SoundHolds(sectors);
      Recovery.SlotBound(sectors, Sealed(sectors), Stream(sectors));
      var ideal, n := Ideal(w), CAP * w.cut;
      PrefixSlice(Stream(sectors), ideal, 0, n);
      PrefixSlice(w.base, ideal, 0, n);
      hide Holds;
      assert Stream(sectors)[0..n] == Stream(sectors)[..n] && w.base[0..n] == w.base[..n];
    }
  }

  /** History is read from sealed sectors only. */
  lemma HistoryKept(w: World, r: World)
    requires w.On? && r.On? && PageReady(w.page) && PageReady(r.page) && Firm(w.page.pen) && Firm(r.page.pen)
    requires HistoryInv(w) && r.base == w.base && r.cut == w.cut && Grows(SectorsOf(w), SectorsOf(r))
    ensures HistoryInv(r)
  {
    var a, b := SectorsOf(w), SectorsOf(r);
    GrowsStream(a, b);
    GrowsSealed(a, b);
    hide Sound, Stream, Sealed, Grows;
    var n, k := CAP * w.cut, CAP * Sealed(a);
    PrefixOfPrefix(Stream(a), k, n);
    PrefixOfPrefix(Stream(b), k, n);
  }

  lemma SolidWrite(w: World, s: string)
    requires w.On? && Started(w) && Solid(w) && w.view == 0
    ensures Solid(Write(w, s)) && Grows(SectorsOf(w), SectorsOf(Write(w, s)))
  {
    hide Firm, HistoryInv, TextInv, Append, AdvanceAll, AsBytes, Grows;
    var r := Write(w, s);
    if w.page.pen.full {
      GrowsRefl(SectorsOf(w));
    } else {
      AppendFirm(w.page.pen, AsBytes(s));
    }
    GrowsSealed(SectorsOf(w), SectorsOf(r));
    HistoryKept(w, r);
    WriteText(w, s);
  }

  lemma SolidIdle(w: World, readOk: bool)
    requires w.On? && Started(w) && Solid(w)
    ensures Solid(Step(w, Idle(readOk))) && SectorsOf(Step(w, Idle(readOk))) == SectorsOf(w)
  {
    hide PumpPage, Lossy, FromText, AsBytes, Firm, Sealed, Stream;
    PumpExact(w, readOk);
    var r := Step(w, Idle(readOk));
    if r.page.pending.None? && w.page.pending.Some? {
      Spliced(w, r);
    }
  }

  lemma FirmFresh(w: World, dev: Device)
    requires Fresh(w, dev) && Sound(dev.sectors) && dev.powered
    ensures Firm(w.page.pen) && HistoryInv(w)
  {
    SoundHolds(dev.sectors);
    Recovery.SlotBound(dev.sectors, Sealed(dev.sectors), Stream(dev.sectors));
    hide Lossy, FromText, Stream, Sealed, Sound, Holds;
  }

  /** A boot that can read succeeds from every disk of the right shape. */
  lemma SolidBoot(w: World, e: Event)
    requires w.Off? && Solid(w) && e.PowerOn? && e.readsOk
    ensures Step(w, e).On? && Step(w, e).base == Stream(w.sectors) && Solid(Step(w, e))
    ensures Grows(w.sectors, SectorsOf(Step(w, e)))
  {
    var dev := Device(w.sectors, e.fates, true);
    GrowsRefl(w.sectors);
    hide LoadPage, Stream, Sound, Search, Firm, HistoryInv, TextInv, ViewInv, Fresh, Grows, SeparatorFor;
    BootFresh(w.sectors, e.fates, e.grid);
    BootStep(w.sectors, e.fates, e.date, e.grid);
    var page := LoadPage(dev, e.grid.columns).value;
    var booted := Booted(page, w.sectors, e.grid);
    FreshBase(booted, dev);
    BootText(booted, dev);
    FirmFresh(booted, dev);
    if e.date.Some? {
      SolidWrite(booted, SeparatorFor(page.text, e.date.value));
    }
  }

  /** Every event whatever, forged writes included, keeps it, and leaves every sealed sector alone. */
  lemma SolidStep(w: World, e: Event)
    requires Started(w) && Solid(w)
    ensures Solid(Step(w, e)) && Grows(SectorsOf(w), SectorsOf(Step(w, e)))
  {
    GrowsRefl(SectorsOf(w));
    match e {
      case PowerOn(fates, readsOk, date, grid) =>
        if w.Off? && readsOk {
          hide Solid, Step, Grows;
          SolidBoot(w, e);
        }
      case Press(key) =>
        if w.On? {
          SolidKey(w, key);
        }
      case Idle(readOk) =>
        if w.On? {
          hide Solid, Step, Grows;
          SolidIdle(w, readOk);
        }
      case PowerOff =>
    }
  }

  lemma SolidKey(w: World, key: Key)
    requires w.On? && Started(w) && Solid(w)
    ensures Solid(Step(w, Press(key))) && Grows(SectorsOf(w), SectorsOf(Step(w, Press(key))))
  {
    GrowsRefl(SectorsOf(w));
    hide Firm, TextInv, HistoryInv, Write, Grows;
    InkableExact(key);
    var w0 := w.(view := 0);
    ViewLess(w, w0);
    if key.PageUp? || key.PageDown? {
      Paging.PagingBounded(w.view, |w.page.layout.spans|, w.grid.rows);
      ViewLess(w, Step(w, Press(key)));
    } else if Inkable(key).Some? {
      SolidWrite(w0, [Inkable(key).value]);
    }
  }

  lemma ViewLess(w: World, r: World)
    requires w.On? && PageReady(w.page) && HistoryInv(w) && TextInv(w) && r.On? && r == w.(view := r.view)
    ensures HistoryInv(r) && TextInv(r)
  {
    hide Stream, Sealed, Lossy, FromText, AsBytes;
  }

  lemma {:induction false} SolidFrom(w: World, events: seq<Event>)
    requires Started(w) && Solid(w)
    ensures Solid(Run(w, events)) && Grows(SectorsOf(w), SectorsOf(Run(w, events)))
    decreases |events|
  {
    hide Solid, Step, Grows;
    if events == [] {
      GrowsRefl(SectorsOf(w));
    } else {
      var init := events[..|events| - 1];
      SolidFrom(w, init);
      SolidStep(Run(w, init), events[|events| - 1]);
      GrowsChain(SectorsOf(w), SectorsOf(Run(w, init)), SectorsOf(Run(w, events)));
    }
  }

  /** Every run from a zeroed disk keeps it, whatever its writes are torn into. */
  lemma SolidRun(n: nat, events: seq<Event>)
    requires n <= MAX_SECTORS
    ensures Solid(Run(Zeroed(n), events))
  {
    ZeroedHolds(n);
    HoldsSound(Zeroed(n).sectors, 0, []);
    hide Sound, Run, Grows;
    SolidFrom(Zeroed(n), events);
  }

  // ------------------------------------------------- every step of every run

  /** A boot whose reads succeed and whose tail decodes. */
  lemma BootStep(sectors: Sectors, fates: seq<Fate>, date: Option<Date>, grid: Grid)
    requires LoadPage(Device(sectors, fates, true), grid.columns).Some?
    ensures var page := LoadPage(Device(sectors, fates, true), grid.columns).value;
            var r := Step(Off(sectors), PowerOn(fates, true, date, grid));
            && (date.None? ==> r == Booted(page, sectors, grid))
            && (date.Some? ==> r == Write(Booted(page, sectors, grid), SeparatorFor(page.text, date.value)))
  {
    hide LoadPage, Booted, Write, SeparatorFor;
  }

  lemma PowerOnKeeps(w: World, e: Event)
    requires w.Off? && e.PowerOn? && Inv(w) && EventOk(w, e)
    ensures Inv(Step(w, e))
    ensures Grows(SectorsOf(w), SectorsOf(Step(w, e)))
    ensures Step(w, e).On? ==> Step(w, e).base == Stream(w.sectors)
    ensures Step(w, e).On? <==> e.readsOk
  {
    GrowsRefl(w.sectors);
    if e.readsOk {
      hide LoadPage, DiskInv, MarkInv, TextInv, ViewInv, Sound, Stream, AppendOk, SeparatorFor, Grows, Search,
        MarkedBytes;
      BootKeeps(w.sectors, e.fates, e.grid);
      BootStep(w.sectors, e.fates, e.date, e.grid);
      hide Step;
      if e.date.Some? {
        var page := LoadPage(Device(w.sectors, e.fates, true), e.grid.columns).value;
        SeparatorKeeps(Booted(page, w.sectors, e.grid), e.date.value);
      }
    }
  }

  /** Every event keeps the invariant, and leaves every sealed sector alone. */
  lemma StepKeeps(w: World, e: Event)
    requires Started(w) && Inv(w) && EventOk(w, e)
    ensures Inv(Step(w, e))
    ensures Grows(SectorsOf(w), SectorsOf(Step(w, e)))
  {
    GrowsRefl(SectorsOf(w));
    match e {
      case PowerOn(fates, readsOk, date, grid) =>
        if w.Off? {
          hide Inv, EventOk, Step, Grows;
          PowerOnKeeps(w, e);
        }
      case Press(key) =>
        if w.On? {
          hide DiskInv, MarkInv, TextInv, Write, Grows;
          InkableExact(key);
          if key.PageUp? || key.PageDown? {
            Paging.PagingBounded(w.view, |w.page.layout.spans|, w.grid.rows);
            ViewFree(w, Step(w, e));
          } else if Inkable(key).Some? {
            KeyKeeps(w, Inkable(key).value);
          }
        }
      case Idle(readOk) =>
        if w.On? {
          hide Inv, Step, Grows;
          IdleKeeps(w, readOk);
        }
      case PowerOff =>
        if w.On? {
          OffKeeps(w);
        }
    }
  }

  /** Nothing but the paging bound looks at the reading offset. */
  lemma ViewFree(w: World, r: World)
    requires w.On? && PageReady(w.page) && DiskInv(w) && MarkInv(w) && TextInv(w)
    requires r.On? && r == w.(view := r.view)
    ensures DiskInv(r) && MarkInv(r) && TextInv(r)
  {
    hide Session, Settled, MarkedBytes, MarkedText, Lossy, FromText, AsBytes, Sealed;
  }

  lemma OffKeeps(w: World)
    requires w.On? && PageReady(w.page) && DiskInv(w) && MarkInv(w)
    ensures Sound(w.page.pen.dev.sectors) && MarkedBytes(Stream(w.page.pen.dev.sectors))
  {
    hide Sound, Stream, Leads, Sealed, AsBytes;
    var s, all := Stream(w.page.pen.dev.sectors), w.base + AsBytes(w.typed);
    var ideal := Ideal(w);
    assert ideal == all[..|ideal|];
    assert s == all[..|ideal|][..|s|] == all[..|s|];
    LeadsPrefix(all, |s|, MARKER_BYTE, NEWLINE_BYTE);
  }

  /** Every run from a zeroed disk keeps the invariant. */
  lemma {:induction false} RunKeeps(n: nat, events: seq<Event>)
    requires n <= MAX_SECTORS
    requires RunOk(Zeroed(n), events)
    ensures Inv(Run(Zeroed(n), events))
    decreases |events|
  {
    var start := Zeroed(n);
    if events == [] {
      ZeroedHolds(n);
      ShapeUnique(start.sectors, 0, []);
    } else {
      RunKeeps(n, events[..|events| - 1]);
      hide Inv, EventOk, Step;
      StepKeeps(Run(start, events[..|events| - 1]), events[|events| - 1]);
    }
  }

  lemma {:induction false} RunConcat(w: World, a: seq<Event>, b: seq<Event>)
    requires Started(w)
    ensures Run(w, a + b) == Run(Run(w, a), b)
    ensures RunOk(w, a + b) <==> RunOk(w, a) && RunOk(Run(w, a), b)
    decreases |b|
  {
    hide Step, EventOk;
    if b == [] {
      assert a + b == a;
    } else {
      assert (a + b)[..|a + b| - 1] == a + b[..|b| - 1];
      RunConcat(w, a, b[..|b| - 1]);
    }
  }

  lemma {:induction false} RunGrows(w: World, events: seq<Event>)
    requires Started(w) && Inv(w) && RunOk(w, events)
    ensures Inv(Run(w, events))
    ensures Grows(SectorsOf(w), SectorsOf(Run(w, events)))
    decreases |events|
  {
    hide Inv, EventOk, Step, Grows;
    if events == [] {
      GrowsRefl(SectorsOf(w));
    } else {
      var init := events[..|events| - 1];
      RunGrows(w, init);
      StepKeeps(Run(w, init), events[|events| - 1]);
      GrowsChain(SectorsOf(w), SectorsOf(Run(w, init)), SectorsOf(Run(w, events)));
    }
  }

  /**
   Sealed sectors are eternal: over any run from a zeroed disk, whatever was sealed at some point is
   there, byte for byte, at every later point, and so is what it holds. Nothing is assumed about torn
   writes.
   */
  lemma SealedForever(n: nat, before: seq<Event>, after: seq<Event>)
    requires n <= MAX_SECTORS
    ensures var a, b := SectorsOf(Run(Zeroed(n), before)), SectorsOf(Run(Zeroed(n), before + after));
            && Grows(a, b)
            && CAP * Sealed(a) <= |Stream(a)| && CAP * Sealed(a) <= |Stream(b)|
            && Stream(b)[..CAP * Sealed(a)] == Stream(a)[..CAP * Sealed(a)]
  {
    RunConcat(Zeroed(n), before, after);
    SolidRun(n, before);
    var w, r := Run(Zeroed(n), before), Run(Zeroed(n), before + after);
    hide Solid, Run, Grows, Stream, Sealed, Sound;
    SolidFrom(w, after);
    SolidSound(w);
    SolidSound(r);
    GrowsStream(SectorsOf(w), SectorsOf(r));
  }

  lemma SolidSound(w: World)
    requires Started(w) && Solid(w)
    ensures Sound(SectorsOf(w))
  {
    hide HistoryInv, TextInv, ViewInv, Sound, Sealed;
  }

  /** So every boot of every run succeeds if the disk can be read. */
  lemma BootSucceeds(n: nat, events: seq<Event>, boot: Event)
    requires n <= MAX_SECTORS && Run(Zeroed(n), events).Off? && boot.PowerOn? && boot.readsOk
    ensures var w := Run(Zeroed(n), events); Step(w, boot).On? && Step(w, boot).base == Stream(w.sectors)
  {
    SolidRun(n, events);
    hide Solid, Run, Step, Stream, Grows;
    SolidBoot(Run(Zeroed(n), events), boot);
  }

  /** Power off at any reachable state, then boot: what the new session starts from. */
  lemma CrashFrom(w: World, boot: Event)
    requires w.On? && Started(w) && Inv(w)
    requires boot.PowerOn? && boot.readsOk && EventOk(Off(SectorsOf(w)), boot)
    ensures var next := Step(Step(w, PowerOff), boot);
            && next.On? && Inv(next) && next.base == Stream(SectorsOf(w))
            && next.base <= Ideal(w)
            && CAP * Sealed(SectorsOf(w)) <= |next.base|
            && (!w.page.pen.trouble ==> next.base == Ideal(w))
  {
    hide Inv, Stream, Sealed, Ideal, EventOk, Grows, Step;
    CrashRemains(w);
    PowerOffKeeps(w);
    PowerOnKeeps(Off(SectorsOf(w)), boot);
  }

  lemma PowerOffKeeps(w: World)
    requires w.On? && Started(w) && Inv(w)
    ensures Step(w, PowerOff) == Off(SectorsOf(w)) && Inv(Off(SectorsOf(w)))
  {
    hide DiskInv, MarkInv, TextInv, ViewInv, Sound, Stream, MarkedBytes;
    OffKeeps(w);
  }

  lemma CrashRemains(w: World)
    requires w.On? && Started(w) && Inv(w)
    ensures |w.base| <= CAP * |SectorsOf(w)|
    ensures Stream(SectorsOf(w)) <= Ideal(w) && CAP * Sealed(SectorsOf(w)) <= |Stream(SectorsOf(w))|
    ensures !w.page.pen.trouble ==> Stream(SectorsOf(w)) == Ideal(w)
  {
    hide MarkInv, TextInv, ViewInv, Sound, Stream, Sealed;
    Recovery.CrashPrefix(w.page.pen, Ideal(w));
  }

  lemma SettledStream(w: World)
    requires w.On? && PageReady(w.page) && DiskInv(w)
    ensures !w.page.pen.trouble ==> Stream(w.page.pen.dev.sectors) == Ideal(w)
  {}

  /**
   Crash safety: cut the power at any point of any run and boot again. The new session starts from
   a prefix of what the old one meant to write; every sealed sector is in it; and if no write had
   failed, all of it is.
   */
  lemma CrashSafe(n: nat, events: seq<Event>, boot: Event)
    requires n <= MAX_SECTORS
    requires RunOk(Zeroed(n), events)
    requires Run(Zeroed(n), events).On?
    requires boot.PowerOn? && boot.readsOk
    requires EventOk(Off(SectorsOf(Run(Zeroed(n), events))), boot)
    ensures var w := Run(Zeroed(n), events);
            var next := Step(Step(w, PowerOff), boot);
            && |w.base| <= CAP * |SectorsOf(w)|
            && next.On? && Inv(next)
            && next.base <= Ideal(w)
            && CAP * Sealed(SectorsOf(w)) <= |next.base|
            && (!w.page.pen.trouble ==> next.base == Ideal(w))
  {
    RunKeeps(n, events);
    var w := Run(Zeroed(n), events);
    assert DiskInv(w);
    hide Run, RunOk, Inv, Ideal, EventOk, Step;
    CrashFrom(w, boot);
  }

  /** Power off and on again: the new session starts from what is on the disk. */
  lemma Reboot(w: World, boot: Event)
    requires w.On? && Started(w) && Solid(w) && boot.PowerOn? && boot.readsOk
    ensures var next := Step(Step(w, PowerOff), boot);
            next.On? && Solid(next) && next.base == Stream(SectorsOf(w)) && Grows(SectorsOf(w), SectorsOf(next))
  {
    SolidSound(w);
    assert Step(w, PowerOff) == Off(SectorsOf(w)) && Solid(Off(SectorsOf(w)));
    hide Solid, Step, Stream, Sound, Grows;
    SolidBoot(Off(SectorsOf(w)), boot);
  }

  lemma SealedCount(w: World)
    requires w.On? && Started(w) && Solid(w) && !w.page.pen.trouble
    ensures Sealed(SectorsOf(w)) == w.page.pen.sealed
  {
    hide HistoryInv, TextInv, ViewInv, Sound, Sealed;
  }

  /**
   A crash during one event of a session that had no trouble before it costs at most the unsealed tail
   and what that event was adding, even if the event forged a record: the sealed text, as it was on the
   disk and, in a run without forgeries up to then, as it was meant, is what the next session starts with.
   */
  lemma CrashCostsTail(n: nat, events: seq<Event>, e: Event, boot: Event)
    requires n <= MAX_SECTORS && boot.PowerOn? && boot.readsOk
    requires Run(Zeroed(n), events).On? && !Run(Zeroed(n), events).page.pen.trouble
    requires Run(Zeroed(n), events + [e]).On?
    ensures var w, after := Run(Zeroed(n), events), Run(Zeroed(n), events + [e]);
            var next, kept := Step(Step(after, PowerOff), boot), CAP * w.page.pen.sealed;
            && next.On? && Solid(next)
            && kept <= |next.base| && kept <= |Stream(SectorsOf(w))|
            && next.base[..kept] == Stream(SectorsOf(w))[..kept]
            && (RunOk(Zeroed(n), events) ==>
                  |w.base| <= CAP * |SectorsOf(w)| && kept <= |Ideal(w)| && next.base[..kept] == Ideal(w)[..kept])
            && (RunOk(Zeroed(n), events + [e]) && EventOk(Off(SectorsOf(after)), boot) ==> Inv(next))
  {
    hide Run, RunOk, Ideal, EventOk, Step, Stream, Sealed, Sound, Grows, Inv, Solid;
    SolidRun(n, events);
    SolidRun(n, events + [e]);
    var w, after := Run(Zeroed(n), events), Run(Zeroed(n), events + [e]);
    RunConcat(Zeroed(n), events, [e]);
    SolidFrom(w, [e]);
    SolidSound(w);
    SolidSound(after);
    Reboot(after, boot);
    SealedCount(w);
    GrowsStream(SectorsOf(w), SectorsOf(after));
    if RunOk(Zeroed(n), events) {
      RunKeeps(n, events);
      IdealFits(w);
      SettledWorld(w);
    }
    if RunOk(Zeroed(n), events + [e]) && EventOk(Off(SectorsOf(after)), boot) {
      RunKeeps(n, events + [e]);
      CrashFrom(after, boot);
    }
  }

  lemma SettledWorld(w: World)
    requires w.On? && Started(w) && Inv(w) && !w.page.pen.trouble
    ensures |w.base| <= CAP * |SectorsOf(w)| && Stream(SectorsOf(w)) == Ideal(w)
  {
    hide MarkInv, TextInv, ViewInv, Stream, Sealed, Sound, AsBytes;
  }

  lemma IdealFits(w: World)
    requires w.On? && Started(w) && Inv(w)
    ensures |w.base| <= CAP * |SectorsOf(w)| && CAP * w.page.pen.sealed <= |Ideal(w)|
  {
    hide MarkInv, TextInv, ViewInv, Backed, Settled, AsBytes, Extended;
  }

  /** What the sealed sectors hold is a fixed part of the stream. */
  lemma GrowsStream(a: Sectors, b: Sectors)
    requires Grows(a, b) && Sound(a) && Sound(b)
    ensures CAP * Sealed(a) <= |Stream(a)| && CAP * Sealed(a) <= |Stream(b)|
    ensures Stream(b)[..CAP * Sealed(a)] == Stream(a)[..CAP * Sealed(a)]
  {
    var w := Sealed(a);
    SoundHolds(a);
    SoundHolds(b);
    Recovery.SlotBound(a, w, Stream(a));
    Recovery.SlotBound(b, Sealed(b), Stream(b));
    Recovery.GatherSealed(a, w, Stream(a), 0, w);
    Recovery.GatherSealed(b, Sealed(b), Stream(b), 0, w);
    SameGather(a, b, w);
    hide Holds, Sound, Stream, Sealed, Gather;
  }

  lemma {:induction false} SameGather(a: Sectors, b: Sectors, w: nat)
    requires w <= |a| == |b| && a[..w] == b[..w]
    ensures Gather(a, 0, w) == Gather(b, 0, w)
  {
    hide Decode;
    if w > 0 {
      assert a[..w - 1] == a[..w][..w - 1] && b[..w - 1] == b[..w][..w - 1];
      assert a[w - 1] == a[..w][w - 1] && b[w - 1] == b[..w][w - 1];
      SameGather(a, b, w - 1);
    }
  }

  // ------------------------------------------------- keystrokes need no hypothesis

  /**
   All that has to be assumed when tears stay outside the six description bytes: that no torn separator,
   which changes more than four bytes, happens to leave a mixed payload with the new CRC.
   */
  ghost predicate EventWhole(w: World, e: Event)
    requires Started(w)
  {
    e.PowerOn? ==> Whole(e.fates) && EventOk(w, e)
  }

  ghost predicate RunWhole(w: World, events: seq<Event>)
    requires Started(w)
  {
    events == [] || (
      && RunWhole(w, events[..|events| - 1])
      && EventWhole(Run(w, events[..|events| - 1]), events[|events| - 1]))
  }

  ghost predicate FatesWhole(w: World)
  {
    w.On? ==> Whole(w.page.pen.dev.fates)
  }

  lemma WriteFates(w: World, s: string)
    requires w.On? && PageReady(w.page) && FatesWhole(w)
    ensures FatesWhole(Write(w, s))
  {
    hide Append, AdvanceAll, AsBytes, Whole;
    Keystrokes.AppendFates(w.page.pen, AsBytes(s));
  }

  lemma BootFates(sectors: Sectors, fates: seq<Fate>, readsOk: bool, date: Option<Date>, grid: Grid)
    requires Whole(fates)
    ensures FatesWhole(Step(Off(sectors), PowerOn(fates, readsOk, date, grid)))
  {
    hide Gather, Search, Recovered, Lossy, FromText, Whole, Write, SeparatorFor, Stream;
    var dev := Device(sectors, fates, true);
    if readsOk && LoadPage(dev, grid.columns).Some? {
      var w := Booted(LoadPage(dev, grid.columns).value, sectors, grid);
      RecoveredDevice(dev, grid.columns);
      if date.Some? {
        WriteFates(w, SeparatorFor(w.page.text, date.value));
      }
    }
  }

  lemma RecoveredDevice(dev: Device, columns: nat)
    requires |dev.sectors| <= MAX_SECTORS && LoadPage(dev, columns).Some?
    ensures LoadPage(dev, columns).value.pen.dev == dev
  {
    hide Gather, Search, Lossy, FromText;
  }

  lemma KeyWhole(w: World, key: Key)
    requires w.On? && Started(w) && Inv(w) && FatesWhole(w)
    ensures EventOk(w, Press(key))
  {
    hide MarkInv, TextInv, ViewInv, Session, Settled, AppendOk, Whole;
    if Inkable(key).Some? {
      var c := Inkable(key).value;
      assert |AsBytes([c])| <= 4 by {
        assert [c][1..] == "";
      }
      Keystrokes.KeystrokeSafe(w.page.pen, AsBytes([c]), Ideal(w));
    }
  }

  lemma StepWhole(w: World, e: Event)
    requires Started(w) && Inv(w) && FatesWhole(w) && EventWhole(w, e)
    ensures EventOk(w, e) && FatesWhole(Step(w, e))
  {
    hide Inv, Write, LoadPage, PumpPage, Whole, SeparatorFor;
    match e {
      case PowerOn(fates, readsOk, date, grid) =>
        if w.Off? {
          BootFates(w.sectors, fates, readsOk, date, grid);
        }
      case Press(key) =>
        if w.On? {
          KeyWhole(w, key);
          if Inkable(key).Some? {
            WriteFates(w.(view := 0), [Inkable(key).value]);
          }
        }
      case Idle(readOk) =>
        if w.On? {
          PumpPen(w.page, readOk, w.grid.columns);
        }
      case PowerOff =>
    }
  }

  lemma PumpPen(page: Page, readOk: bool, columns: nat)
    requires PageReady(page)
    ensures PumpPage(page, readOk, columns).0.pen == page.pen
  {
    hide TakeBatch, Lossy, FromText, AsBytes;
  }

  /** Such a run needs no further hypothesis: none of its keystrokes can be read back wrong. */
  lemma {:induction false} WholeFrom(w: World, events: seq<Event>)
    requires Started(w) && Inv(w)
    requires FatesWhole(w) && RunWhole(w, events)
    ensures RunOk(w, events) && FatesWhole(Run(w, events)) && Inv(Run(w, events))
    decreases |events|
  {
    hide Inv, EventOk, EventWhole, Step, FatesWhole;
    if events != [] {
      var init, e := events[..|events| - 1], events[|events| - 1];
      WholeFrom(w, init);
      StepWhole(Run(w, init), e);
      StepKeeps(Run(w, init), e);
    }
  }

  lemma WholeRunOk(n: nat, events: seq<Event>)
    requires n <= MAX_SECTORS
    requires RunWhole(Zeroed(n), events)
    ensures RunOk(Zeroed(n), events)
  {
    RunKeeps(n, []);
    hide Inv;
    WholeFrom(Zeroed(n), events);
  }

  // ------------------------------------------------- what the reader sees

  /**
   When the stream of history has ended, the text is what loading the whole disk at once and then
   typing the same characters would give, exactly when the window was not cut inside a character. This
   holds at every point of every run, and so does it that the layout is the one rebuilt from the text.
   */
  lemma StreamingCommutes(w: World)
    requires w.On? && Started(w) && Solid(w)
    ensures CAP * w.cut <= |w.base|
    ensures w.page.pending.None? ==>
              (w.page.text == Lossy(w.base) + w.typed <==>
                 !CutInside(w.base[..CAP * w.cut], w.base[CAP * w.cut..]))
    ensures w.page.layout == FromText(w.page.text, w.grid.columns)
    ensures w.view <= Paging.MaxView(|w.page.layout.spans|, w.grid.rows)
  {
    hide Firm, HistoryInv, Lossy, FromText, AsBytes, CutInside, Sealed;
    var a, b := w.base[..CAP * w.cut], w.base[CAP * w.cut..];
    assert w.base == a + b;
    SpliceExact(a, b);
    SameHeads(Lossy(a) + Lossy(b), Lossy(w.base), w.typed);
  }

  lemma SameHeads(x: string, y: string, z: string)
    ensures x + z == y + z <==> x == y
  {
    if x + z == y + z {
      assert x == (x + z)[..|x|] && y == (y + z)[..|y|];
    }
  }

  /** In every reachable state the page is the declared layout of its text, and shows all of it. */
  lemma PageMeaning(w: World)
    requires w.On? && Started(w) && Inv(w)
    ensures w.page.layout == FromText(w.page.text, w.grid.columns) && Meant(w.page.text, w.grid.columns)
    ensures Tiling.SpansTile(w.page.text, w.page.layout)
    ensures Tiling.RowText(w.page.text, RowsFrom(w.page.text, 0, w.grid.columns)) == Tiling.Printed(w.page.text)
  {
    hide DiskInv, Lossy, AsBytes, ViewInv, Sealed;
    LayoutMeaning(w.page.text, w.grid.columns);
    Tiling.LayoutTiles(w.page.text, w.grid.columns);
    Tiling.RowsShowAll(w.page.text, 0, w.grid.columns);
    assert w.page.text[0..] == w.page.text;
  }
}
