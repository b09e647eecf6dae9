/**
 What booting recovers: on every sound disk, exactly the sealed sectors and the tail that are
 there, and the text of the last sectors.
 */
module Recovery {
  import opened Bytes
  import opened Record
  import opened Device
  import opened DiskShape
  import opened Log
  import opened Utf8
  import opened LineLayout
  import opened Pages

  lemma SliceJoin(s: seq<byte>, a: nat, b: nat, c: nat)
    requires a <= b <= c <= |s|
    ensures s[a..c] == s[a..b] + s[b..c]
    ensures s[a..] == s[a..b] + s[b..]
    ensures s[a..][b - a..] == s[b..]
  {}

  lemma BlockAt(sectors: Sectors, w: nat, stream: seq<byte>, i: nat)
    requires Holds(sectors, w, stream) && i < w
    ensures w <= |sectors| && CAP * (i + 1) <= |stream|
    ensures Decode(sectors[i], i) == Some(stream[CAP * i..CAP * (i + 1)])
  {
    hide Decode, Remnant;
  }

  lemma {:induction false} GatherSealed(sectors: Sectors, w: nat, stream: seq<byte>, from: nat, end: nat)
    requires Holds(sectors, w, stream) && from <= end <= w
    ensures end <= |sectors| && CAP * end <= |stream|
    ensures Gather(sectors, from, end) == Some(stream[CAP * from..CAP * end])
    decreases end
  {
    hide Decode, Holds, Reading, Gather, Block;
    SlotBound(sectors, w, stream);
    if from == end {
      GatherNone(sectors, from);
      assert stream[CAP * from..CAP * end] == [];
    } else {
      BlockAt(sectors, w, stream, end - 1);
      GatherSealed(sectors, w, stream, from, end - 1);
      GatherStep(sectors, from, end - 1);
      SliceJoin(stream, CAP * from, CAP * (end - 1), CAP * end);
    }
  }

  lemma SlotBound(sectors: Sectors, w: nat, stream: seq<byte>)
    requires Holds(sectors, w, stream)
    ensures w <= |sectors| && CAP * w <= |stream| < CAP * (w + 1) && (w == |sectors| ==> |stream| == CAP * w)
  {
    hide Decode, Remnant;
  }

  /** The rewritable sector is either the last valid record, or nothing. */
  lemma SlotCases(sectors: Sectors, w: nat, stream: seq<byte>)
    requires Holds(sectors, w, stream)
    ensures |stream| >= CAP * w && w <= |sectors|
    ensures ScanEnd(sectors, 0) == w || (w < |sectors| && ScanEnd(sectors, 0) == w + 1)
    ensures ScanEnd(sectors, 0) == w ==> |stream| == CAP * w
    ensures w < |sectors| && ScanEnd(sectors, 0) == w + 1 ==>
              Decode(sectors[w], w) == Some(stream[CAP * w..]) && Reading(sectors[w], w) == stream[CAP * w..]
  {
    ScanIs(sectors, w, stream, 0);
    hide Decode, Remnant;
  }

  /** The window of the last records holds the end of the stream. */
  lemma GatherWindow(sectors: Sectors, w: nat, stream: seq<byte>, from: nat)
    requires Holds(sectors, w, stream) && from <= w
    ensures Gather(sectors, from, ScanEnd(sectors, 0)) == Some(stream[CAP * from..])
  {
    hide Decode, Holds, ScanEnd, Gather, Reading;
    SlotCases(sectors, w, stream);
    GatherSealed(sectors, w, stream, from, w);
    if ScanEnd(sectors, 0) == w {
      assert stream[CAP * from..CAP * w] == stream[CAP * from..];
    } else {
      GatherStep(sectors, from, w);
      SliceJoin(stream, CAP * from, CAP * w, |stream|);
    }
  }

  lemma LastRecord(sectors: Sectors, w: nat, stream: seq<byte>)
    requires Holds(sectors, w, stream) && w > 0
    ensures |Reading(sectors[w - 1], w - 1)| == CAP
  {
    hide Decode, Remnant;
    assert Decode(sectors[w - 1], w - 1) == Some(Block(stream, w - 1));
  }

  /** How the recovered numbers follow from the shape. */
  lemma RecoveredFrom(dev: Device, w: nat, stream: seq<byte>, valid: nat, first: nat, lastLen: nat)
    requires w <= |dev.sectors| <= MAX_SECTORS && CAP * w <= |stream| < CAP * (w + 1)
    requires w == |dev.sectors| ==> |stream| == CAP * w
    requires || (valid == w && |stream| == CAP * w && lastLen == if w > 0 then CAP else 0)
             || (valid == w + 1 <= |dev.sectors| && lastLen == |stream| - CAP * w)
    requires first == WindowStart(valid)
    ensures first <= w && CAP * first <= |stream| && (first > 0 ==> CAP * first < |stream|)
    ensures lastLen <= CAP && lastLen <= |stream[CAP * first..]|
    ensures Recovered(dev, valid, stream[CAP * first..], lastLen)
         == Pen(dev, w, stream[CAP * w..], w == |dev.sectors|, false)
  {
    var bytes := stream[CAP * first..];
    if valid == w + 1 {
      SliceJoin(stream, CAP * first, CAP * w, |stream|);
    } else {
      assert stream[CAP * w..] == [];
    }
  }

  lemma LastLenIs(sectors: Sectors, w: nat, stream: seq<byte>) returns (valid: nat, lastLen: nat)
    requires Holds(sectors, w, stream)
    ensures valid == ScanEnd(sectors, 0) <= |sectors|
    ensures lastLen == if WindowStart(valid) == valid then 0 else |Reading(sectors[valid - 1], valid - 1)|
    ensures || (valid == w && |stream| == CAP * w && lastLen == if w > 0 then CAP else 0)
            || (valid == w + 1 <= |sectors| && lastLen == |stream| - CAP * w)
  {
    hide Decode, Holds, ScanEnd, Reading;
    valid := ScanEnd(sectors, 0);
    SlotBound(sectors, w, stream);
    SlotCases(sectors, w, stream);
    if w > 0 {
      LastRecord(sectors, w, stream);
    }
    lastLen := if WindowStart(valid) == valid then 0 else |Reading(sectors[valid - 1], valid - 1)|;
  }

  /** A page that shows exactly what the disk holds, the history before `first` still to come. */
  ghost predicate Restored(page: Page, dev: Device, first: nat, columns: nat)
    requires |dev.sectors| <= MAX_SECTORS
  {
    var stream, w := Stream(dev.sectors), Sealed(dev.sectors);
    && first <= w && CAP * w <= |stream| && (first > 0 ==> CAP * first < |stream|)
    && page.pen == Pen(dev, w, stream[CAP * w..], w == |dev.sectors|, false)
    && page.text == Lossy(stream[CAP * first..])
    && page.layout == FromText(page.text, columns)
    && page.pending == (if first > 0 then Some(Loading([], 0, first)) else None)
  }

  /** What a boot builds from `w` sealed sectors and `stream`. */
  lemma LoadShape(dev: Device, columns: nat, w: nat, stream: seq<byte>) returns (first: nat)
    requires |dev.sectors| <= MAX_SECTORS && Holds(dev.sectors, w, stream) && Contiguous(dev.sectors)
    ensures first == WindowStart(ScanEnd(dev.sectors, 0)) <= w && CAP * w <= |stream|
    ensures first > 0 ==> CAP * first < |stream|
    ensures LoadPage(dev, columns)
         == Some(Page(Pen(dev, w, stream[CAP * w..], w == |dev.sectors|, false), Lossy(stream[CAP * first..]),
                      FromText(Lossy(stream[CAP * first..]), columns),
                      if first > 0 then Some(Loading([], 0, first)) else None))
  {
    hide Holds, Search, ScanEnd, Gather, Reading, LoadPage, Lossy, FromText, Contiguous, Recovered, WindowStart;
    SearchIsScan(dev.sectors);
    SlotBound(dev.sectors, w, stream);
    var valid, lastLen := LastLenIs(dev.sectors, w, stream);
    first := WindowStart(valid);
    RecoveredFrom(dev, w, stream, valid, first, lastLen);
    GatherWindow(dev.sectors, w, stream, first);
    LoadPageIs(dev, columns, stream[CAP * first..], lastLen);
  }

  lemma RestoredParts(dev: Device, first: nat, columns: nat)
    requires |dev.sectors| <= MAX_SECTORS
    requires var stream, w := Stream(dev.sectors), Sealed(dev.sectors);
             first <= w && CAP * w <= |stream| && (first > 0 ==> CAP * first < |stream|)
    ensures var stream, w := Stream(dev.sectors), Sealed(dev.sectors);
            Restored(Page(Pen(dev, w, stream[CAP * w..], w == |dev.sectors|, false), Lossy(stream[CAP * first..]),
                          FromText(Lossy(stream[CAP * first..]), columns),
                          if first > 0 then Some(Loading([], 0, first)) else None), dev, first, columns)
  {
    hide Lossy, FromText, Stream, Sealed;
  }

  lemma {:induction false} GatherFront(sectors: Sectors, from: nat, end: nat)
    requires from < end <= |sectors|
    ensures Decode(sectors[from], from).None? ==> Gather(sectors, from, end).None?
    ensures Decode(sectors[from], from).Some? ==>
              && (Gather(sectors, from + 1, end).None? ==> Gather(sectors, from, end).None?)
              && (Gather(sectors, from + 1, end).Some? ==>
                    Gather(sectors, from, end)
                    == Some(Decode(sectors[from], from).value + Gather(sectors, from + 1, end).value))
    decreases end
  {
    hide Decode, Gather, Reading;
    GatherNone(sectors, from);
    GatherNone(sectors, from + 1);
    GatherStep(sectors, from, end - 1);
    if from + 1 == end {
      EmptyEnds(Reading(sectors[from], from));
    } else {
      GatherFront(sectors, from, end - 1);
      GatherStep(sectors, from + 1, end - 1);
      if Gather(sectors, from, end - 1).None? {
        GatherStops(sectors, from, end - 1, end);
      }
      if Gather(sectors, from + 1, end - 1).None? {
        GatherStops(sectors, from + 1, end - 1, end);
      } else if Decode(sectors[from], from).Some? && Decode(sectors[end - 1], end - 1).Some? {
        Associative(Decode(sectors[from], from).value, Gather(sectors, from + 1, end - 1).value,
                    Decode(sectors[end - 1], end - 1).value);
      }
    }
  }

  lemma EmptyEnds(a: seq<byte>)
    ensures [] + a == a + [] == a
  {}

  lemma Associative(a: seq<byte>, b: seq<byte>, c: seq<byte>)
    ensures (a + b) + c == a + (b + c)
  {}

  /**
   A batch is appended sector by sector and all of it is kept if all of it decodes; otherwise the sectors
   before the first invalid one are, though the batch has failed.
   */
  lemma {:induction false} TakeExact(sectors: Sectors, cursor: nat, count: nat, prefix: seq<byte>)
    returns (k: nat)
    requires cursor + count <= |sectors|
    ensures k <= count && (k < count ==> !Valid(sectors[cursor + k], cursor + k))
    ensures Gather(sectors, cursor, cursor + k).Some?
    ensures TakeBatch(sectors, cursor, count, prefix)
         == (prefix + Gather(sectors, cursor, cursor + k).value, k == count)
    decreases count
  {
    hide Decode, Reading, Gather;
    GatherNone(sectors, cursor);
    if count == 0 || Decode(sectors[cursor], cursor).None? {
      k := 0;
      assert prefix + [] == prefix;
    } else {
      var payload := Decode(sectors[cursor], cursor).value;
      k := TakeExact(sectors, cursor + 1, count - 1, prefix + payload);
      Associative(prefix, payload, Gather(sectors, cursor + 1, cursor + 1 + k).value);
      k := k + 1;
      GatherFront(sectors, cursor, cursor + k);
    }
  }

  lemma {:induction false} GatherFails(sectors: Sectors, from: nat, end: nat)
    requires from <= end <= |sectors|
    ensures Gather(sectors, from, end).None? <==> exists i :: from <= i < end && !Valid(sectors[i], i)
    decreases end
  {
    hide Decode, Reading;
    if from < end {
      GatherFails(sectors, from, end - 1);
    }
  }

  /** Where a boot from any disk at all fails: at an invalid record among the last 64 before the end it found. */
  lemma LoadFails(dev: Device, columns: nat)
    requires |dev.sectors| <= MAX_SECTORS
    ensures var valid := Search(dev.sectors, 0, |dev.sectors|);
            LoadPage(dev, columns).None?
            <==> exists i :: 0 <= i < valid && valid <= i + 64 && !Valid(dev.sectors[i], i)
  {
    var valid := Search(dev.sectors, 0, |dev.sectors|);
    GatherFails(dev.sectors, if valid > 64 then valid - 64 else 0, valid);
    hide Valid, Gather, Search, Lossy, FromText, Reading, Recovered;
  }

  /** Everything a boot recovers from a sound disk: of its text, what the last 64 records hold. */
  lemma LoadExact(dev: Device, columns: nat)
    requires |dev.sectors| <= MAX_SECTORS && Sound(dev.sectors)
    ensures LoadPage(dev, columns).Some?
    ensures var valid := ScanEnd(dev.sectors, 0);
            Restored(LoadPage(dev, columns).value, dev, if valid > 64 then valid - 64 else 0, columns)
  {
    hide Holds, Sound, ScanEnd, Sealed, Stream, LoadPage, Lossy, FromText, Contiguous, Restored;
    SoundHolds(dev.sectors);
    SoundContiguous(dev.sectors);
    var first := LoadShape(dev, columns, Sealed(dev.sectors), Stream(dev.sectors));
    RestoredParts(dev, first, columns);
  }

  /**
   Reboot is the identity: after any appends without trouble, loading the disk gives back exactly
   the same sealed count, tail and full flag, and the whole stream.
   */
  lemma RebootIdentity(pen: Pen, ideal: seq<byte>, columns: nat)
    requires Session(pen, ideal) && Settled(pen, ideal) && !pen.trouble
    ensures LoadPage(pen.dev, columns).Some?
    ensures LoadPage(pen.dev, columns).value.pen == pen
    ensures Stream(pen.dev.sectors) == ideal
  {
    LoadExact(pen.dev, columns);
    hide Sound, LoadPage, Stream, Sealed;
  }

  /** After a crash, a boot finds a prefix of the ideal output that keeps every sealed sector. */
  lemma CrashPrefix(pen: Pen, ideal: seq<byte>)
    requires Session(pen, ideal)
    ensures Stream(pen.dev.sectors) <= ideal
    ensures CAP * Sealed(pen.dev.sectors) <= |Stream(pen.dev.sectors)|
  {
    SoundHolds(pen.dev.sectors);
  }
}
