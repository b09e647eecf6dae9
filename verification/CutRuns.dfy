/**
 Two families of runs in which the power goes while a key is written, built alike: in one the next boot
 finds text nobody typed, in the other it finds nothing of what was typed.
 */
module CutRuns {
  import opened Bytes
  import opened Record
  import opened Torn
  import opened TornHeader
  import opened Device
  import opened DiskShape
  import opened Log
  import opened Utf8
  import opened Markers
  import opened LineLayout
  import opened Pages
  import opened Separator
  import opened Runs
  import opened Outcomes
  import opened Witnesses
  import Cuts
  import Exactness

  /** The key puts this character on the scroll, as one byte. */
  predicate PlainKey(c: char) {
    Inkable(Unicode(c)) == Some(c) && c as int < 0x80
  }

  ghost predicate PlainText(s: string) {
    forall c <- s :: PlainKey(c)
  }

  // ------------------------------------------------- typing while writes succeed

  /** The writer can write `k` more bytes, one by one, into its sector, and all these writes will succeed. */
  ghost predicate Lucky(pen: Pen, k: nat) {
    && Ready(pen) && !pen.full && !pen.trouble && pen.dev.powered && |pen.tail| + k < CAP
    && k <= |pen.dev.fates| && forall i :: 0 <= i < k ==> pen.dev.fates[i].Done?
  }

  /** One such byte. */
  function AfterDone(pen: Pen, b: byte): (r: Pen)
    requires Ready(pen) && !pen.full && |pen.tail| + 1 < CAP && pen.dev.fates != []
    ensures Ready(r)
  {
    var tail := pen.tail + [b];
    var sectors := pen.dev.sectors[pen.sealed := Encode(pen.sealed, tail)];
    pen.(tail := tail, dev := Device(sectors, pen.dev.fates[1..], true))
  }

  lemma DonePen(pen: Pen, b: byte)
    requires Lucky(pen, 1)
    ensures AppendOk(pen, [b]) && Append(pen, [b]) == AfterDone(pen, b)
  {
    Cuts.OneWrite(pen, [b]);
    assert [b][..1] == [b];
    hide Append, AppendOk, Encode;
  }

  lemma StaysLucky(pen: Pen, b: byte, k: nat)
    requires Lucky(pen, k + 1)
    ensures Lucky(AfterDone(pen, b), k)
  {
    hide Encode;
  }

  /** Several such bytes. */
  ghost function AfterAll(pen: Pen, bytes: seq<byte>): (r: Pen)
    requires Lucky(pen, |bytes|)
    ensures Ready(r)
    decreases |bytes|
  {
    if bytes == [] then pen
    else
      StaysLucky(pen, bytes[0], |bytes| - 1);
      AfterAll(AfterDone(pen, bytes[0]), bytes[1..])
  }

  lemma {:induction false} AfterAllIs(pen: Pen, bytes: seq<byte>, k: nat)
    requires Lucky(pen, |bytes| + k)
    ensures var r := AfterAll(pen, bytes);
            && Lucky(r, k) && r.sealed == pen.sealed && r.tail == pen.tail + bytes
            && r.dev.fates == pen.dev.fates[|bytes|..] && |r.dev.sectors| == |pen.dev.sectors|
            && (bytes != [] ==> r.dev.sectors[pen.sealed] == Encode(pen.sealed, pen.tail + bytes))
    decreases |bytes|
  {
    hide Encode;
    if bytes == [] {
      assert pen.tail + bytes == pen.tail;
    } else {
      StaysLucky(pen, bytes[0], |bytes| - 1 + k);
      AfterAllIs(AfterDone(pen, bytes[0]), bytes[1..], k);
      assert (pen.tail + [bytes[0]]) + bytes[1..] == pen.tail + bytes;
      if |bytes| == 1 {
        assert pen.tail + bytes == pen.tail + [bytes[0]];
      }
    }
  }

  /** A key typed while its write succeeds. */
  lemma DoneKey(w: World, c: char)
    requires w.On? && Started(w) && Inv(w) && Lucky(w.page.pen, 1)
    requires PlainKey(c)
    ensures var r := Step(w, Press(Unicode(c)));
            && EventOk(w, Press(Unicode(c))) && r.On? && Inv(r)
            && r.base == w.base && r.typed == w.typed + [c] && r.page.pen == AfterDone(w.page.pen, c as int)
  {
    hide AfterDone, AsBytes, Inv, Append, AppendOk, Step;
    OneByte(c);
    DonePen(w.page.pen, c as int);
    InkSteps(w, Press(Unicode(c)));
    assert EventOk(w, Press(Unicode(c)));
    hide EventOk, Lucky;
    StepKeeps(w, Press(Unicode(c)));
  }

  /** Plain text typed while writes succeed, in a sector it does not fill. */
  lemma {:induction false} DoneKeys(w: World, s: string)
    requires w.On? && Started(w) && Inv(w) && Lucky(w.page.pen, |s|)
    requires PlainText(s)
    ensures var r := Run(w, Typing(s));
            && RunOk(w, Typing(s)) && r.On? && Inv(r) && r.base == w.base && r.typed == w.typed + s
            && |AsBytes(s)| == |s| && r.page.pen == AfterAll(w.page.pen, AsBytes(s))
    decreases |s|
  {
    hide Step, Inv, EventOk, AfterDone, Inkable, Lucky, RunOk, Run;
    if s == "" {
      assert w.typed + s == w.typed;
      NoEvents(w);
    } else {
      var c, rest := s[0], s[1..];
      assert c in s && forall x <- rest :: x in s;
      LuckyOne(w.page.pen, |s|);
      DoneKey(w, c);
      StaysLucky(w.page.pen, c as int, |s| - 1);
      var next := Step(w, Press(Unicode(c)));
      DoneKeys(next, rest);
      assert Typing(s) == [Press(Unicode(c))] + Typing(rest);
      RunConcat(w, [Press(Unicode(c))], Typing(rest));
      OneEvent(w, Press(Unicode(c)));
      assert (w.typed + [c]) + rest == w.typed + s;
      assert AsBytes(s) == [c as int] + AsBytes(rest) && AsBytes(s)[1..] == AsBytes(rest);
    }
  }

  lemma LuckyOne(pen: Pen, k: nat)
    requires Lucky(pen, k) && k > 0
    ensures Lucky(pen, 1)
  {}

  lemma NoEvents(w: World)
    requires Started(w)
    ensures Run(w, Typing("")) == w && RunOk(w, Typing(""))
  {}

  lemma OneByte(c: char)
    requires c as int < 0x80
    ensures AsBytes([c]) == [c as int]
  {
    assert [c][1..] == "";
  }

  const PROSE_TEXT: string := "ejffhau"

  lemma ProseBytes()
    ensures AsBytes(PROSE_TEXT) == PROSE
  {
    hide AsBytes;
    AsciiHead('e', "jffhau");
    AsciiHead('j', "ffhau");
    AsciiHead('f', "fhau");
    AsciiHead('f', "hau");
    AsciiHead('h', "au");
    AsciiHead('a', "u");
    OneByte('u');
    assert PROSE_TEXT == ['e'] + "jffhau" && "jffhau" == ['j'] + "ffhau" && "ffhau" == ['f'] + "fhau";
    assert "fhau" == ['f'] + "hau" && "hau" == ['h'] + "au" && "au" == ['a'] + "u" && "u" == ['u'];
  }

  lemma AsciiHead(c: char, rest: string)
    requires c as int < 0x80
    ensures AsBytes([c] + rest) == [c as int] + AsBytes(rest)
  {
    assert ([c] + rest)[1..] == rest;
  }

  lemma ProsePrints()
    ensures PlainText(PROSE_TEXT)
  {
    forall c | c in PROSE_TEXT
      ensures PlainKey(c)
    {
      assert 'a' <= c <= 'u';
    }
  }

  lemma NewBoot(n: nat, fates: seq<Fate>, grid: Grid)
    requires 1 <= n <= MAX_SECTORS
    ensures EventOk(Zeroed(n), PowerOn(fates, true, None, grid))
    ensures var w := Step(Zeroed(n), PowerOn(fates, true, None, grid));
            && w.On? && Inv(w) && w.base == [] && w.typed == ""
            && w.page.pen == Pen(Device(Zeroed(n).sectors, fates, true), 0, [], false, false)
  {
    var sectors := Zeroed(n).sectors;
    ZeroedHolds(n);
    ShapeUnique(sectors, 0, []);
    HoldsSound(sectors, 0, []);
    hide Holds, Sound, Stream, Sealed, Search, LoadPage, Lossy, FromText, DiskInv, MarkInv, TextInv, ViewInv, Fresh,
      Step, Booted, MarkedBytes, Zeroed;
    BootFresh(sectors, fates, grid);
    BootKeeps(sectors, fates, grid);
    BootStep(sectors, fates, None, grid);
    BootedPen(Step(Zeroed(n), PowerOn(fates, true, None, grid)), Device(sectors, fates, true));
  }

  lemma BootedPen(w: World, dev: Device)
    requires Fresh(w, dev)
    ensures Sealed(dev.sectors) <= |dev.sectors| && CAP * Sealed(dev.sectors) <= |Stream(dev.sectors)|
    ensures w.page.pen == Pen(dev, Sealed(dev.sectors), Stream(dev.sectors)[CAP * Sealed(dev.sectors)..],
                              Sealed(dev.sectors) == |dev.sectors|, false)
    ensures w.base == Stream(dev.sectors) && w.typed == ""
  {
    hide Stream, Sealed, Lossy, FromText;
  }

  /** The writer of a new machine. */
  function NewPen(sectors: Sectors, fates: seq<Fate>): Pen {
    Pen(Device(sectors, fates, true), 0, [], false, false)
  }

  /** Plain text typed on a new machine while writes succeed. */
  lemma TypedLucky(n: nat, fates: seq<Fate>, s: string, grid: Grid)
    requires 1 <= n <= MAX_SECTORS && |s| < CAP && PlainText(s)
    requires |s| <= |fates| && forall i :: 0 <= i < |s| ==> fates[i].Done?
    ensures |AsBytes(s)| == |s| && Lucky(NewPen(Zeroed(n).sectors, fates), |s|)
    ensures var w := Run(Zeroed(n), [PowerOn(fates, true, None, grid)] + Typing(s));
            && RunOk(Zeroed(n), [PowerOn(fates, true, None, grid)] + Typing(s))
            && w.On? && Inv(w) && w.base == [] && w.typed == s
            && w.page.pen == AfterAll(NewPen(Zeroed(n).sectors, fates), AsBytes(s))
  {
    var start, boot := Zeroed(n), PowerOn(fates, true, None, grid);
    NewBoot(n, fates, grid);
    StartLucky(start.sectors, fates, |s|);
    hide Run, RunOk, Step, Inv, EventOk, Encode, AfterAll, AsBytes, Typing, Prints, Zeroed, Lucky;
    DoneKeys(Step(start, boot), s);
    OneEvent(start, boot);
    RunConcat(start, [boot], Typing(s));
    assert "" + s == s;
  }

  lemma StartLucky(sectors: Sectors, fates: seq<Fate>, k: nat)
    requires 1 <= |sectors| && k < CAP && k <= |fates| && forall i :: 0 <= i < k ==> fates[i].Done?
    ensures Lucky(NewPen(sectors, fates), k)
  {}

  // ------------------------------------------------- the key that is cut

  /** A boot after which `k` writes succeed and the next is cut by the power after `t` bytes. */
  function CutAfter(k: nat, t: Extent, grid: Grid): Event {
    PowerOn(seq(k, i => Done) + [Cut(t)], true, None, grid)
  }

  /** The next write is the one that is cut. */
  ghost predicate CutComing(pen: Pen, p: seq<byte>, t: Extent) {
    && Ready(pen) && !pen.full && !pen.trouble && pen.dev.powered && pen.dev.fates == [Cut(t)]
    && pen.sealed == 0 && pen.tail == p && |p| + 1 < CAP && pen.dev.sectors[0] == Encode(0, p)
  }

  /** What the torn record will be read as. */
  ghost predicate ReadsTorn(p: seq<byte>, d: byte, t: Extent, q: seq<byte>)
    requires |p| < CAP
  {
    Reading(Tear(Encode(0, p), Encode(0, p + [d]), t), 0) == q
  }

  lemma CutPen(pen: Pen, p: seq<byte>, d: byte, t: Extent, q: seq<byte>)
    requires CutComing(pen, p, t) && ReadsTorn(p, d, t, q)
    ensures var out := Append(pen, [d]).dev.sectors[0];
            && Append(pen, [d]).dev.sectors == pen.dev.sectors[0 := out]
            && Remnant(out, 0) && Reading(out, 0) == q
  {
    Cuts.OneWrite(pen, [d]);
    assert [d][..1] == [d];
    EncodeParts(0, p);
    hide Append, AppendOk, Encode, Tear, Retry, Reading, Reached, Header;
    RetryTears(pen.dev, 0, Encode(0, p + [d]), 3);
    OneCut(t);
    TearRemnant(0, Encode(0, p), p + [d], t);
  }

  lemma OneCut(t: Extent)
    ensures Reached([Cut(t)], true, 3) == t
  {
    assert [Cut(t)][1..] == [];
  }

  lemma CutKey(w: World, c: char, p: seq<byte>, t: Extent, q: seq<byte>)
    requires w.On? && Started(w) && Inv(w) && CutComing(w.page.pen, p, t)
    requires PlainKey(c) && |p| < CAP && ReadsTorn(p, c as int, t, q)
    ensures var r := Step(w, Press(Unicode(c)));
            && r.On? && r.base == w.base && r.typed == w.typed + [c]
            && Sound(SectorsOf(r)) && Stream(SectorsOf(r)) == q
  {
    SlotZero(w, p, t);
    OneByte(c);
    InkSteps(w, Press(Unicode(c)));
    hide Inv, Session, Settled, Append, Encode, Stream, Sound, Step, AsBytes, Remnant, Reading, ReadsTorn;
    var pen, ideal := w.page.pen, Ideal(w);
    CutPen(pen, p, c as int, t, q);
    Cuts.SlotStream(pen, ideal, Append(pen, [c as int]).dev.sectors[0]);
    hide Ideal;
    assert ideal[..CAP * 0] == [] && [] + q == q;
  }

  lemma SlotZero(w: World, p: seq<byte>, t: Extent)
    requires w.On? && Started(w) && Inv(w) && CutComing(w.page.pen, p, t)
    ensures |w.base| <= CAP * |SectorsOf(w)| && Session(w.page.pen, Ideal(w)) && Settled(w.page.pen, Ideal(w))
  {
    hide Session, Settled, MarkInv, TextInv, ViewInv, Encode;
  }

  lemma TypedPen(sectors: Sectors, fates: seq<Fate>, bytes: seq<byte>, t: Extent)
    requires Lucky(NewPen(sectors, fates), |bytes|) && bytes != []
    requires |fates| == |bytes| + 1 && fates[|bytes|] == Cut(t) && |bytes| + 1 < CAP
    ensures CutComing(AfterAll(NewPen(sectors, fates), bytes), bytes, t)
  {
    hide AfterAll, Encode;
    AfterAllIs(NewPen(sectors, fates), bytes, 0);
    LastFate(fates);
    assert [] + bytes == bytes;
  }

  lemma LastFate(fates: seq<Fate>)
    requires fates != []
    ensures fates[|fates| - 1..] == [fates[|fates| - 1]]
  {}

  /** The machine after the text, about to be cut. */
  lemma TypedThenCut(n: nat, s: string, t: Extent, grid: Grid)
    requires 1 <= n <= MAX_SECTORS && PlainText(s) && 1 <= |s| && |s| + 1 < CAP
    ensures var events := [CutAfter(|s|, t, grid)] + Typing(s);
            var w := Run(Zeroed(n), events);
            && RunOk(Zeroed(n), events) && w.On? && Inv(w) && w.base == [] && w.typed == s
            && CutComing(w.page.pen, AsBytes(s), t)
  {
    hide Run, RunOk, Step, Inv, Encode, AsBytes, Typing, Prints, Zeroed, AfterAll, Lucky, NewPen, CutComing;
    var fates := seq(|s|, i => Done) + [Cut(t)];
    TypedLucky(n, fates, s, grid);
    TypedPen(Zeroed(n).sectors, fates, AsBytes(s), t);
  }

  /** The events up to the cut. */
  function CutSession(s: string, c: char, t: Extent, grid: Grid): seq<Event> {
    [CutAfter(|s|, t, grid)] + Typing(s) + [Press(Unicode(c))]
  }

  /** The session typed this text, and after it the disk holds, and the next session starts from, that. */
  ghost predicate LeavesBehind(w: World, next: World, typed: string, found: seq<byte>)
    requires Started(w) && Started(next)
  {
    && w.On? && w.base == [] && w.typed == typed && Stream(SectorsOf(w)) == found
    && next.On? && next.base == found
  }

  /** Plain text, one more key whose write is cut, and the power on again. */
  lemma CutRun(n: nat, s: string, c: char, t: Extent, q: seq<byte>, grid: Grid)
    requires 1 <= n <= MAX_SECTORS && PlainText(s) && PlainKey(c) && 1 <= |s| && |s| + 1 < CAP
    requires |AsBytes(s)| < CAP && ReadsTorn(AsBytes(s), c as int, t, q)
    ensures RunOk(Zeroed(n), CutSession(s, c, t, grid)) <==> q <= AsBytes(s + [c])
    ensures LeavesBehind(Run(Zeroed(n), CutSession(s, c, t, grid)),
                         Run(Zeroed(n), CutSession(s, c, t, grid) + Cycle(grid)), s + [c], q)
  {
    var start, before, last := Zeroed(n), [CutAfter(|s|, t, grid)] + Typing(s), Press(Unicode(c));
    hide Run, RunOk, Step, Inv, EventOk, AsBytes, Stream, Sound, Zeroed, Inkable, CutComing, ReadsTorn, Typing,
      PlainText, CutAfter;
    TypedThenCut(n, s, t, grid);
    var w0 := Run(start, before);
    CutKey(w0, c, AsBytes(s), t, q);
    RunConcat(start, before, [last]);
    OneEvent(w0, last);
    var w := Run(start, before + [last]);
    Exactness.StepExact(w0, last);
    assert [] + AsBytes(s + [c]) == AsBytes(s + [c]);
    CutBoot(start, before + [last], grid);
  }

  lemma CutBoot(start: World, events: seq<Event>, grid: Grid)
    requires Started(start) && Run(start, events).On? && Sound(SectorsOf(Run(start, events)))
    ensures var next := Run(start, events + Cycle(grid));
            next.On? && next.base == Stream(SectorsOf(Run(start, events)))
  {
    var w := Run(start, events);
    RunConcat(start, events, Cycle(grid));
    TwoEvents(w, PowerOff, PlainBoot(grid));
    assert Step(w, PowerOff) == Off(SectorsOf(w)) && Solid(Off(SectorsOf(w)));
    hide Run, Step, Solid, Stream, Sound, Grows;
    SolidBoot(Off(SectorsOf(w)), PlainBoot(grid));
  }

  // ------------------------------------------------- text nobody typed

  lemma ProseTorn(d: byte)
    requires d != 0
    ensures ReadsTorn(PROSE, d, 14, PROSE + [0])
  {
    TornDescriptionForges(0, d);
  }

  lemma NotTyped(c: char)
    requires 0 < c as int < 0x80
    ensures !(PROSE + [0] <= AsBytes(PROSE_TEXT + [c]))
  {
    ProseBytes();
    EncodeConcat(PROSE_TEXT, [c]);
    OneByte(c);
    hide AsBytes;
    assert (PROSE + [0])[7] != (PROSE + [c as int])[7];
  }

  /**
   Without the hypothesis of the theorems about runs they fail: on any disk, type "ejffhau" and one more
   key whose write the power cuts after 14 bytes, and boot again. The new session starts from the prose
   and a zero byte, which is no beginning of what was typed.
   */
  lemma ForgedRun(n: nat, c: char, grid: Grid)
    requires 1 <= n <= MAX_SECTORS && PlainKey(c) && c as int != 0
    ensures !RunOk(Zeroed(n), CutSession(PROSE_TEXT, c, 14, grid))
    ensures LeavesBehind(Run(Zeroed(n), CutSession(PROSE_TEXT, c, 14, grid)),
                         Run(Zeroed(n), CutSession(PROSE_TEXT, c, 14, grid) + Cycle(grid)),
                         PROSE_TEXT + [c], PROSE + [0])
    ensures !(PROSE + [0] <= AsBytes(PROSE_TEXT + [c]))
  {
    ProsePrints();
    ProseBytes();
    ProseTorn(c as int);
    NotTyped(c);
    hide Run, RunOk, AsBytes, Stream, Zeroed, ReadsTorn, LeavesBehind, CutSession, Prints, Inkable;
    CutRun(n, PROSE_TEXT, c, 14, PROSE + [0], grid);
  }

  // ------------------------------------------------- nothing of what was typed

  lemma LostTorn(p: seq<byte>, d: byte, t: Extent)
    requires |p| + 1 < CAP && d != 0 && 18 <= t < 19 + |p|
    ensures ReadsTorn(p, d, t, [])
  {
    var old_ := Encode(0, p);
    EncodeParts(0, p);
    hide Encode, Decode, Tear, Header, Description, Arrived, Forges;
    TornKeystroke(0, p, [d], t);
    assert old_[18 + |p|] == old_[18 + |p|..][0] == 0;
    KeystrokeSurvives(0, old_, p, [d], t);
    ArrivedBlank(0, old_, p + [d], t);
  }

  lemma {:induction false} PlainBytes(s: string)
    requires PlainText(s)
    ensures |AsBytes(s)| == |s|
    decreases |s|
  {
    if s != "" {
      assert s[0] in s && forall c <- s[1..] :: c in s;
      PlainBytes(s[1..]);
    }
  }

  /**
   A power loss can cost far more than the key in flight, with nothing forged: on any disk, type plain
   text of up to 492 characters and one more key whose write the power cuts anywhere behind the record's
   description and before its last new byte. The next session starts from nothing.
   */
  lemma LostTail(n: nat, s: string, c: char, t: Extent, grid: Grid)
    requires 1 <= n <= MAX_SECTORS && PlainText(s) && PlainKey(c) && c as int != 0 && 1 <= |s| <= 492
    requires 18 <= t < 19 + |s|
    ensures RunOk(Zeroed(n), CutSession(s, c, t, grid))
    ensures LeavesBehind(Run(Zeroed(n), CutSession(s, c, t, grid)),
                         Run(Zeroed(n), CutSession(s, c, t, grid) + Cycle(grid)), s + [c], [])
  {
    PlainBytes(s);
    LostTorn(AsBytes(s), c as int, t);
    hide Run, RunOk, AsBytes, Stream, Zeroed, ReadsTorn, LeavesBehind, CutSession, PlainText, Inkable;
    CutRun(n, s, c, t, [], grid);
  }
}
