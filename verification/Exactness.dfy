/**
 The one hypothesis of the theorems about runs is exact: a run tears no write into a forgery if and only
 if at each of its points the disk holds nothing that was not meant to be there.
 */
module Exactness {
  import opened Bytes
  import opened Record
  import opened Device
  import opened DiskShape
  import opened Log
  import opened Utf8
  import opened Markers
  import opened LineLayout
  import opened Pages
  import opened Separator
  import opened Runs
  import Outcomes
  import Paging

  /** The disk holds a beginning of what was found at boot and appended since. */
  ghost predicate Honest(w: World)
    requires Started(w)
  {
    w.On? ==> Stream(SectorsOf(w)) <= w.base + AsBytes(w.typed)
  }

  lemma {:induction false} ScanFits(sectors: Sectors, lba: nat)
    requires lba <= |sectors|
    ensures |Scan(sectors, lba)| <= CAP * (|sectors| - lba)
    decreases |sectors| - lba
  {
    hide Decode;
    if lba < |sectors| {
      ScanFits(sectors, lba + 1);
      ReadingFits(sectors[lba], lba);
    }
  }

  lemma ExtendedPrefix(base: seq<byte>, bytes: seq<byte>, n: nat, s: seq<byte>)
    requires |base| <= CAP * n && |s| <= CAP * n
    ensures s <= Extended(base, bytes, n) <==> s <= base + bytes
  {
    var all, cut := base + bytes, Extended(base, bytes, n);
    assert cut == all[..|cut|];
    if s <= all {
      assert s == all[..|s|] == cut[..|s|];
    }
  }

  /** Appending text: what is on the disk afterwards was meant if and only if nothing was forged. */
  lemma WriteExact(w: World, s: string)
    requires w.On? && PageReady(w.page) && DiskInv(w)
    ensures AppendOk(w.page.pen, AsBytes(s)) <==> Honest(Write(w, s))
  {
    hide Session, Settled, InkOk, InkBytes, FlushOk, Append, AdvanceAll, AsBytes, Stream;
    var n := |SectorsOf(w)|;
    if w.page.pen.full {
      IdealHolds(w);
      ExtendedPrefix(w.base, AsBytes(w.typed), n, Stream(SectorsOf(w)));
    } else {
      var after := Append(w.page.pen, AsBytes(s)).dev.sectors;
      AppendExact(w.page.pen, AsBytes(s), Ideal(w));
      EncodeConcat(w.typed, s);
      ExtendedMore(w.base, AsBytes(w.typed), AsBytes(s), n);
      ScanFits(after, 0);
      StreamIs(after);
      ExtendedPrefix(w.base, AsBytes(w.typed + s), n, Stream(after));
    }
  }

  lemma StreamIs(sectors: Sectors)
    ensures Stream(sectors) == Scan(sectors, 0)
  {}

  lemma IdealHolds(w: World)
    requires w.On? && PageReady(w.page) && DiskInv(w)
    ensures Stream(SectorsOf(w)) <= Ideal(w) && |Stream(SectorsOf(w))| <= CAP * |SectorsOf(w)|
  {
    hide Stream, Sealed, Sound, AsBytes;
    ScanFits(SectorsOf(w), 0);
    StreamIs(SectorsOf(w));
  }

  lemma InvHonest(w: World)
    requires Started(w) && Inv(w)
    ensures Honest(w)
  {
    if w.On? {
      hide Inv, Stream, AsBytes;
      Outcomes.StreamPrefix(w);
    }
  }

  lemma KeyExact(w: World, key: Key)
    requires w.On? && Started(w) && Inv(w)
    ensures EventOk(w, Press(key)) <==> Honest(Step(w, Press(key)))
  {
    InvHonest(w);
    InkableExact(key);
    if Inkable(key).Some? {
      assert DiskInv(w.(view := 0));
      hide Inv, DiskInv, Write, Inkable, AppendOk;
      WriteExact(w.(view := 0), [Inkable(key).value]);
    } else {
      hide Inv, Inkable, AsBytes, Stream, Paging.PageUp, Paging.PageDown;
    }
  }

  lemma BootExact(w: World, e: Event)
    requires w.Off? && Started(w) && Inv(w) && e.PowerOn?
    ensures EventOk(w, e) <==> Honest(Step(w, e))
  {
    if e.readsOk {
      BootKeeps(w.sectors, e.fates, e.grid);
      BootStep(w.sectors, e.fates, e.date, e.grid);
      hide Inv, LoadPage, Step, DiskInv, MarkInv, TextInv, ViewInv, Write, SeparatorFor, AppendOk, Stream, Sound,
        MarkedBytes, AsBytes, Search;
      var page := LoadPage(Device(w.sectors, e.fates, true), e.grid.columns).value;
      var booted := Booted(page, w.sectors, e.grid);
      if e.date.Some? {
        WriteExact(booted, SeparatorFor(page.text, e.date.value));
      } else {
        assert Stream(w.sectors) <= Stream(w.sectors) + AsBytes("");
      }
    }
  }

  /** One event of a machine whose disk was as meant before it. */
  lemma StepExact(w: World, e: Event)
    requires Started(w) && Inv(w)
    ensures EventOk(w, e) <==> Honest(Step(w, e))
  {
    if e.Press? && w.On? {
      KeyExact(w, e.key);
    } else if e.PowerOn? && w.Off? {
      BootExact(w, e);
    } else {
      OtherOk(w, e);
      StepKeeps(w, e);
      hide Inv, Step, EventOk, Grows;
      InvHonest(Step(w, e));
    }
  }

  lemma OtherOk(w: World, e: Event)
    requires Started(w) && !(e.Press? && w.On?) && !(e.PowerOn? && w.Off?)
    ensures EventOk(w, e)
  {}

  lemma {:induction false} RunExactFrom(w: World, events: seq<Event>)
    requires Started(w) && Inv(w)
    ensures RunOk(w, events) <==> forall k :: 0 <= k <= |events| ==> Honest(Run(w, events[..k]))
    decreases |events|
  {
    hide Step, Inv, EventOk, Honest, Grows;
    if events == [] {
      InvHonest(w);
    } else {
      var init := events[..|events| - 1];
      RunExactFrom(w, init);
      assert forall k :: 0 <= k <= |init| ==> init[..k] == events[..k];
      assert events[..|events|] == events;
      if RunOk(w, init) {
        RunGrows(w, init);
        StepExact(Run(w, init), events[|events| - 1]);
      }
    }
  }

  /**
   A run from a zeroed disk tears no write into a forgery if and only if at each of its points the disk
   holds a beginning of what was found at boot and appended since.
   */
  lemma RunExact(n: nat, events: seq<Event>)
    requires n <= MAX_SECTORS
    ensures RunOk(Zeroed(n), events) <==> forall k :: 0 <= k <= |events| ==> Honest(Run(Zeroed(n), events[..k]))
  {
    RunKeeps(n, []);
    hide Inv, Honest, RunOk;
    assert Run(Zeroed(n), []) == Zeroed(n);
    RunExactFrom(Zeroed(n), events);
  }
}
