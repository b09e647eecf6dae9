/**
 Two runs of the machine that lose a character although no write and no read ever fails: one whose
 boot window cuts an em dash in two, and one whose disk fills up in the middle of one.
 */
module Witnesses {
  import opened Bytes
  import opened Record
  import opened Device
  import opened DiskShape
  import opened Log
  import opened Utf8
  import opened LineLayout
  import opened Pages
  import opened Separator
  import opened Runs
  import opened Outcomes
  import Extraction
  import Keystrokes
  import Recovery

  /** Characters the keyboard puts on the scroll as they are. */
  ghost predicate Prints(s: string) {
    forall c <- s :: Inkable(Unicode(c)) == Some(c)
  }

  function Typing(s: string): seq<Event> {
    seq(|s|, i requires 0 <= i < |s| => Press(Unicode(s[i])))
  }

  /** A first boot, and typing a text. */
  function FirstSession(text: string, grid: Grid): seq<Event> {
    [PlainBoot(grid)] + Typing(text)
  }

  /** The power off and on again. */
  function Cycle(grid: Grid): seq<Event> {
    [PowerOff, PlainBoot(grid)]
  }

  /** A boot with no clock and no write ever failing. */
  function PlainBoot(grid: Grid): Event {
    PowerOn([], true, None, grid)
  }

  // ------------------------------------------------- typing on a healthy machine

  lemma TypedOne(w: World, c: char)
    requires w.On? && Started(w) && Inv(w) && Keystrokes.Healthy(w.page.pen)
    requires Inkable(Unicode(c)) == Some(c)
    requires |w.base| + |AsBytes(w.typed)| < CAP * |SectorsOf(w)|
    ensures var r := Step(w, Press(Unicode(c)));
            && EventOk(w, Press(Unicode(c))) && r.On? && Inv(r) && Keystrokes.Healthy(r.page.pen)
            && r.base == w.base && r.cut == w.cut && r.typed == w.typed + [c] && r.grid == w.grid
            && |SectorsOf(r)| == |SectorsOf(w)|
  {
    MemoryAhead(w);
    Keystrokes.HealthyAppend(w.page.pen, AsBytes([c]));
    StepKeeps(w, Press(Unicode(c)));
    hide Inv, Append, AppendOk, AdvanceAll, AsBytes, Keystrokes.Healthy, Stream, Grows;
  }

  /** Typing printable text on a machine with room for all but the last character of it. */
  lemma {:induction false} Typed(w: World, s: string)
    requires w.On? && Started(w) && Inv(w) && Keystrokes.Healthy(w.page.pen) && Prints(s)
    requires s != "" ==> |w.base| + |AsBytes(w.typed + s[..|s| - 1])| < CAP * |SectorsOf(w)|
    ensures var r := Run(w, Typing(s));
            && RunOk(w, Typing(s)) && r.On? && Inv(r) && Keystrokes.Healthy(r.page.pen)
            && r.base == w.base && r.cut == w.cut && r.typed == w.typed + s && r.grid == w.grid
            && |SectorsOf(r)| == |SectorsOf(w)|
    decreases |s|
  {
    hide Step, Inv, EventOk, AsBytes, Keystrokes.Healthy, Inkable;
    if s == "" {
      assert w.typed + s == w.typed;
    } else {
      var init, c := s[..|s| - 1], s[|s| - 1];
      assert c in s && Prints(init);
      assert Typing(s)[..|s| - 1] == Typing(init);
      if init != "" {
        ShorterBytes(w.typed + init);
        assert (w.typed + init)[..|w.typed + init| - 1] == w.typed + init[..|init| - 1];
      }
      Typed(w, init);
      TypedOne(Run(w, Typing(init)), c);
      assert (w.typed + init) + [c] == w.typed + s;
    }
  }

  lemma ShorterBytes(s: string)
    requires s != ""
    ensures |AsBytes(s[..|s| - 1])| < |AsBytes(s)|
  {
    var init, last := s[..|s| - 1], s[|s| - 1..];
    assert s == init + last;
    EncodeConcat(init, last);
  }

  /** The first boot of a machine. */
  lemma FirstBoot(n: nat, grid: Grid)
    requires n <= MAX_SECTORS
    ensures var w := Step(Zeroed(n), PlainBoot(grid));
            && EventOk(Zeroed(n), PlainBoot(grid)) && w.On? && Inv(w) && Keystrokes.Healthy(w.page.pen)
            && w.base == [] && w.cut == 0 && w.typed == "" && w.page.pending == None
            && |SectorsOf(w)| == n && w.grid == grid
  {
    ZeroedHolds(n);
    ShapeUnique(Zeroed(n).sectors, 0, []);
    HoldsSound(Zeroed(n).sectors, 0, []);
    hide Holds, Sound, Stream;
    Rebooted(Zeroed(n).sectors, grid);
  }

  /** Any boot of a machine whose writes will all succeed. */
  lemma Rebooted(sectors: Sectors, grid: Grid)
    requires Inv(Off(sectors))
    ensures EventOk(Off(sectors), PlainBoot(grid))
    ensures var w := Step(Off(sectors), PlainBoot(grid));
            && w.On? && Inv(w) && Keystrokes.Healthy(w.page.pen) && SectorsOf(w) == sectors
            && w.base == Stream(sectors) && w.typed == "" && w.grid == grid
            && w.cut == WindowStart(ScanEnd(sectors, 0)) && CAP * w.cut <= |w.base|
            && w.page.text == Lossy(w.base[CAP * w.cut..])
            && w.page.pending == if w.cut > 0 then Some(Loading([], 0, w.cut)) else None
  {
    hide Sound, Stream, Search, ScanEnd, LoadPage, Lossy, FromText, Sealed, WindowStart, DiskInv, MarkInv, TextInv,
      ViewInv, Fresh, Gather, Contiguous;
    BootFresh(sectors, [], grid);
    BootKeeps(sectors, [], grid);
    BootStep(sectors, [], None, grid);
    SoundContiguous(sectors);
    SearchIsScan(sectors);
    FreshPage(Step(Off(sectors), PlainBoot(grid)), Device(sectors, [], true));
  }

  lemma FreshPage(w: World, dev: Device)
    requires Fresh(w, dev) && dev.powered && dev.fates == []
    ensures Keystrokes.Healthy(w.page.pen)
    ensures CAP * w.cut <= |w.base| && w.page.text == Lossy(w.base[CAP * w.cut..])
    ensures w.page.pending == if w.cut > 0 then Some(Loading([], 0, w.cut)) else None
  {
    hide Stream, Sealed, Lossy, FromText;
  }

  /** Text typed on a new machine: memory holds all of it, the disk as much as fits. */
  lemma TypedFresh(n: nat, s: string, grid: Grid)
    requires n <= MAX_SECTORS && Prints(s) && s != "" && |AsBytes(s[..|s| - 1])| < CAP * n
    ensures var w := Run(Zeroed(n), FirstSession(s, grid));
            && RunOk(Zeroed(n), FirstSession(s, grid)) && w.On? && Inv(w)
            && w.page.text == s && w.page.pending == None
            && Stream(SectorsOf(w)) == AsBytes(s)[..Min(|AsBytes(s)|, CAP * n)]
            && (w.page.pen.full <==> |AsBytes(s)| >= CAP * n) && |SectorsOf(w)| == n
  {
    FirstBoot(n, grid);
    var start, boot := Zeroed(n), PlainBoot(grid);
    var w0 := Step(start, boot);
    assert w0.typed + s[..|s| - 1] == s[..|s| - 1] && "" + s == s;
    Typed(w0, s);
    OneEvent(start, boot);
    RunConcat(start, [boot], Typing(s));
    var w := Run(start, FirstSession(s, grid));
    hide Run, RunOk, Step, EventOk, Inv, AsBytes, Stream, Typing;
    TypedPage(w);
    MemoryAhead(w);
    assert [] + AsBytes(s) == AsBytes(s);
  }

  /** That machine switched off and on. */
  lemma Cycled(n: nat, s: string, grid: Grid)
    requires n <= MAX_SECTORS && Run(Zeroed(n), FirstSession(s, grid)).On? && Inv(Run(Zeroed(n), FirstSession(s, grid)))
    requires RunOk(Zeroed(n), FirstSession(s, grid))
    ensures var sectors := SectorsOf(Run(Zeroed(n), FirstSession(s, grid)));
            && Inv(Off(sectors)) && RunOk(Zeroed(n), FirstSession(s, grid) + Cycle(grid))
            && Run(Zeroed(n), FirstSession(s, grid) + Cycle(grid)) == Step(Off(sectors), PlainBoot(grid))
  {
    var w := Run(Zeroed(n), FirstSession(s, grid));
    RunConcat(Zeroed(n), FirstSession(s, grid), Cycle(grid));
    TwoEvents(w, PowerOff, PlainBoot(grid));
    PowerOffKeeps(w);
    PowerOffOk(w);
    Rebooted(SectorsOf(w), grid);
    hide Run, RunOk, Inv, EventOk, Step, FirstSession;
  }

  lemma PowerOffOk(w: World)
    requires Started(w)
    ensures EventOk(w, PowerOff)
  {}

  lemma OneEvent(w: World, e: Event)
    requires Started(w)
    ensures Run(w, [e]) == Step(w, e) && (RunOk(w, [e]) <==> EventOk(w, e))
  {
    hide Step, EventOk;
    assert [e][..0] == [];
  }

  lemma TwoEvents(w: World, e: Event, f: Event)
    requires Started(w)
    ensures Run(w, [e, f]) == Step(Step(w, e), f)
    ensures RunOk(w, [e, f]) <==> EventOk(w, e) && EventOk(Step(w, e), f)
  {
    hide Step, EventOk;
    assert [e, f][..1] == [e];
    OneEvent(w, e);
  }

  lemma TypedPage(w: World)
    requires w.On? && Started(w) && Inv(w) && w.base == [] && w.cut == 0 && Keystrokes.Healthy(w.page.pen)
    ensures w.page.pending == None && w.page.text == w.typed && !w.page.pen.trouble
  {
    hide DiskInv, MarkInv, ViewInv, FromText, Sealed;
    assert Lossy([]) == "" && "" + "" + w.typed == w.typed;
  }

  // ------------------------------------------------- the texts

  function Xs(k: nat): string {
    seq(k, i => 'x')
  }

  lemma {:induction false} XBytes(k: nat)
    ensures AsBytes(Xs(k)) == seq(k, i => 0x78)
  {
    if k > 0 {
      assert Xs(k)[1..] == Xs(k - 1);
      XBytes(k - 1);
      assert AsBytes(Xs(k)) == [0x78] + AsBytes(Xs(k - 1));
    }
  }

  const DASH: string := "\U{2014}"

  lemma DashBytes()
    ensures AsBytes(DASH) == [0xE2, 0x80, 0x94]
  {
    assert DASH[1..] == "";
  }

  lemma PrintsDash(u: nat, v: nat)
    ensures Prints(Xs(u) + DASH + Xs(v))
  {
    forall c | c in Xs(u) + DASH + Xs(v)
      ensures Inkable(Unicode(c)) == Some(c)
    {
      assert c == 'x' || c == '\U{2014}';
    }
  }

  /** The bytes of such a text, and what a piece of it ending inside the dash decodes to. */
  lemma AroundDash(u: nat, v: nat)
    ensures var bytes := AsBytes(Xs(u) + DASH + Xs(v));
            && |bytes| == u + 3 + v
            && Lossy(bytes[..u + 1]) == Xs(u) + [REPLACEMENT]
            && Lossy(bytes[..u + 2]) == Xs(u) + [REPLACEMENT]
  {
    var a, bytes := AsBytes(Xs(u)), AsBytes(Xs(u) + DASH + Xs(v));
    XBytes(u);
    XBytes(v);
    DashBytes();
    EncodeConcat(Xs(u) + DASH, Xs(v));
    EncodeConcat(Xs(u), DASH);
    assert bytes[..u + 1] == a + [0xE2];
    assert bytes[..u + 2] == a + [0xE2, 0x80];
    HalfDash(u, [0xE2]);
    HalfDash(u, [0xE2, 0x80]);
  }

  lemma HalfDash(u: nat, half: seq<byte>)
    requires half == [0xE2] || half == [0xE2, 0x80]
    ensures Lossy(AsBytes(Xs(u)) + half) == Xs(u) + [REPLACEMENT]
  {
    XBytes(u);
    Extraction.ClosedCut(AsBytes(Xs(u)), half);
    SpliceExact(AsBytes(Xs(u)), half);
    LossyEncode(Xs(u));
    PieceUnique(half, |half|);
    assert half[..|half|] == half && half[|half|..] == [];
  }

  // ------------------------------------------------- the disk fills up inside a character

  /** Everything is in memory, and the page shows this text. */
  predicate PageReads(w: World, text: string) {
    w.On? && w.page.pending == None && w.page.text == text
  }

  /** The disk is full and holds only the beginning of this text. */
  predicate DiskCutsOff(w: World, text: string)
    requires Started(w)
  {
    && w.On? && w.page.pen.full
    && Stream(SectorsOf(w)) < AsBytes(text)
  }

  /**
   Type plain characters until one or two bytes are left on the disk (492 or 493 of them, on a disk of
   one sector), then an em dash, and boot again. The dash was on the page, only its first bytes are on
   the disk, and after the boot it is a U+FFFD.
   */
  lemma FullDiskLosesDash(n: nat, u: nat, grid: Grid)
    requires 1 <= n <= TAIL_SECTORS && (u + 1 == CAP * n || u + 2 == CAP * n)
    ensures RunOk(Zeroed(n), FirstSession(Xs(u) + DASH, grid) + Cycle(grid))
    ensures PageReads(Run(Zeroed(n), FirstSession(Xs(u) + DASH, grid)), Xs(u) + DASH)
    ensures DiskCutsOff(Run(Zeroed(n), FirstSession(Xs(u) + DASH, grid)), Xs(u) + DASH)
    ensures PageReads(Run(Zeroed(n), FirstSession(Xs(u) + DASH, grid) + Cycle(grid)), Xs(u) + [REPLACEMENT])
  {
    hide Run, RunOk, Step, Inv, Lossy, Stream, Zeroed, ScanEnd, EventOk, FirstSession, Cycle;
    var text := Xs(u) + DASH;
    assert text == Xs(u) + DASH + Xs(0);
    PrintsDash(u, 0);
    AroundDash(u, 0);
    XBytes(u);
    assert text[..|text| - 1] == Xs(u);
    TypedFresh(n, text, grid);
    Cycled(n, text, grid);
    hide AsBytes, Xs, DASH;
    var w := Run(Zeroed(n), FirstSession(text, grid));
    Rebooted(SectorsOf(w), grid);
    var b := Stream(SectorsOf(w));
    assert WindowStart(ScanEnd(SectorsOf(w), 0)) == 0;
    assert b[CAP * 0..] == b;
  }

  // ------------------------------------------------- the window cuts a character

  lemma Records(sectors: Sectors, k: nat)
    requires Sound(sectors) && CAP * k < |Stream(sectors)| < CAP * (k + 1)
    ensures ScanEnd(sectors, 0) == k + 1
  {
    SoundHolds(sectors);
    Recovery.SlotBound(sectors, Sealed(sectors), Stream(sectors));
    Recovery.SlotCases(sectors, Sealed(sectors), Stream(sectors));
    hide Holds, Sound, Stream, ScanEnd, Sealed;
  }

  /** One pass after a boot whose window starts at the third record. */
  lemma StreamedBoot(w: World)
    requires w.On? && Started(w) && Inv(w) && w.cut == 2
    requires w.page.pending == Some(Loading([], 0, 2)) && w.typed == ""
    ensures var r := Step(w, Idle(true));
            && r.On? && r.page.pending == None && r.base == w.base && r.typed == "" && CAP * 2 <= |w.base|
            && r.page.text == Lossy(w.base[..CAP * 2]) + w.page.text
  {
    InvSolid(w);
    CutInRange(w);
    PumpExact(w, true);
    hide PumpPage, DiskInv, MarkInv, TextInv, ViewInv, Firm, HistoryInv, Lossy, FromText;
  }

  /** The page has U+FFFD at `u`, though what was found at boot decodes to `text`. */
  ghost predicate PageLoses(w: World, text: string, u: nat)
    requires Started(w)
  {
    && w.On? && Inv(w) && w.page.pending == None && w.typed == "" && Lossy(w.base) == text
    && w.page.text != text && u < |w.page.text| && w.page.text[u] == REPLACEMENT
  }

  function Dashed(u: nat, v: nat): string {
    Xs(u) + DASH + Xs(v)
  }

  /**
   On any disk of 66 sectors or more, type 987 plain characters, an em dash, and more plain characters
   up to the 66th record; boot again and let the history stream in. With nothing ever failing, the dash
   has become U+FFFD on the page, though the disk still holds it.
   */
  lemma WindowLosesDash(n: nat, u: nat, v: nat, grid: Grid)
    requires 66 <= n <= MAX_SECTORS && u == 987 && CAP * 65 < u + 3 + v < CAP * 66
    ensures RunOk(Zeroed(n), FirstSession(Dashed(u, v), grid) + Cycle(grid) + [Idle(true)])
    ensures PageReads(Run(Zeroed(n), FirstSession(Dashed(u, v), grid)), Dashed(u, v))
    ensures PageLoses(Run(Zeroed(n), FirstSession(Dashed(u, v), grid) + Cycle(grid) + [Idle(true)]), Dashed(u, v), u)
  {
    hide Run, RunOk, Step, Inv, Lossy, Stream, Zeroed, ScanEnd, EventOk, FirstSession, Cycle, AsBytes, Sound,
      WindowStart;
    var text := Dashed(u, v);
    PrintsDash(u, v);
    AroundDash(u, v);
    ShorterBytes(text);
    LossyEncode(text);
    TypedFresh(n, text, grid);
    Cycled(n, text, grid);
    var w, bytes := Run(Zeroed(n), FirstSession(text, grid)), AsBytes(text);
    var sectors := SectorsOf(w);
    assert bytes[..|bytes|] == bytes;
    InvSolid(Off(sectors));
    Records(sectors, 65);
    Rebooted(sectors, grid);
    Window66();
    Streaming(n, FirstSession(text, grid) + Cycle(grid));
    DashGone(u, v, Lossy(bytes[..u + 1]), Lossy(bytes[CAP * 2..]));
  }

  lemma Streaming(n: nat, events: seq<Event>)
    requires n <= MAX_SECTORS && RunOk(Zeroed(n), events)
    ensures var w, r := Run(Zeroed(n), events), Run(Zeroed(n), events + [Idle(true)]);
            && RunOk(Zeroed(n), events + [Idle(true)])
            && (w.On? && Inv(w) && w.cut == 2 && w.page.pending == Some(Loading([], 0, 2)) && w.typed == "" ==>
                  && r.On? && Inv(r) && r.page.pending == None && r.base == w.base && r.typed == ""
                  && CAP * 2 <= |w.base| && r.page.text == Lossy(w.base[..CAP * 2]) + w.page.text)
  {
    var w := Run(Zeroed(n), events);
    RunConcat(Zeroed(n), events, [Idle(true)]);
    OneEvent(w, Idle(true));
    hide Run, RunOk, Step, Inv;
    if w.On? && Inv(w) && w.cut == 2 && w.page.pending == Some(Loading([], 0, 2)) && w.typed == "" {
      StreamedBoot(w);
      IdleKeeps(w, true);
    }
  }

  lemma Window66()
    ensures WindowStart(66) == 2
  {}

  lemma DashGone(u: nat, v: nat, a: string, b: string)
    requires a == Xs(u) + [REPLACEMENT]
    ensures (a + b)[u] == REPLACEMENT && a + b != Dashed(u, v)
  {
    assert (a + b)[u] == REPLACEMENT && Dashed(u, v)[u] == DASH[0];
  }
}
