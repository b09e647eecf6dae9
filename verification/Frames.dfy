/**
 The physical frame allocator: a cursor that hands out, one call at a time, the flat enumeration
 of the aligned frames inside usable regions.
 */
module Frames {
  const FRAME: nat := 4096
  const U64: nat := 0x1_0000_0000_0000_0000

  type Address = n: nat | n < U64

  datatype Kind = Usable | Reserved

  datatype Region = Region(start: Address, end: Address, kind: Kind)

  // ------------------------------------------------- alignment

  /** `a & b` on the low `bits` bits. */
  function And(a: nat, b: nat, bits: nat): nat {
    if bits == 0 then 0 else (if a % 2 == 1 && b % 2 == 1 then 1 else 0) + 2 * And(a / 2, b / 2, bits - 1)
  }

  /** `!a` on 64 bits. */
  function Not(a: Address): Address {
    U64 - 1 - a
  }

  /** `a & !4095` */
  function Masked(a: Address): nat {
    And(a, Not(4095), 64)
  }

  /** The least multiple of the frame size that is not below `a`. */
  function AlignUp(a: nat): (r: nat)
    ensures r % FRAME == 0 && a <= r < a + FRAME
  {
    (a + 4095) / 4096 * 4096
  }

  lemma AlignUpLeast(a: nat, b: nat)
    requires b % FRAME == 0 && a <= b
    ensures AlignUp(a) <= b
  {}

  function Doubled(a: nat, k: nat): nat {
    if k == 0 then a else 2 * Doubled(a, k - 1)
  }

  function Halved(a: nat, k: nat): nat {
    if k == 0 then a else Halved(a / 2, k - 1)
  }

  /** A mask with `k` zeros at its end. */
  lemma {:induction false} AndDoubled(a: nat, m: nat, bits: nat, k: nat)
    ensures And(a, Doubled(m, k), bits + k) == Doubled(And(Halved(a, k), m, bits), k)
  {
    if k > 0 {
      AndDoubled(a / 2, m, bits, k - 1);
      assert Doubled(m, k) / 2 == Doubled(m, k - 1) && Doubled(m, k) % 2 == 0;
    }
  }

  /** A mask of ones only. */
  lemma {:induction false} AndOnes(a: nat, k: nat)
    requires a < Doubled(1, k)
    ensures And(a, Doubled(1, k) - 1, k) == a
  {
    if k > 0 {
      AndOnes(a / 2, k - 1);
    }
  }

  lemma Twelve(a: nat)
    ensures Doubled(a, 12) == 4096 * a && Halved(a, 12) == a / 4096
  {
    var d4, d8 := Doubled(a, 4), Doubled(a, 8);
    FourMore(a, 0);
    FourMore(a, 4);
    FourMore(a, 8);
    FourLess(a, 8);
    FourLess(a / 16, 4);
    FourLess(a / 16 / 16, 0);
    assert a / 16 / 16 / 16 == a / 4096;
  }

  lemma FourMore(a: nat, k: nat)
    ensures Doubled(a, k + 4) == 16 * Doubled(a, k)
  {
    assert Doubled(a, k + 2) == 4 * Doubled(a, k);
  }

  lemma FourLess(a: nat, k: nat)
    ensures Halved(a, k + 4) == Halved(a / 16, k)
  {
    assert Halved(a, k + 4) == Halved(a / 2 / 2, k + 2);
    assert a / 2 / 2 / 2 / 2 == a / 16;
  }

  lemma {:induction false} DoubledAdd(a: nat, j: nat, k: nat)
    ensures Doubled(Doubled(a, j), k) == Doubled(a, j + k)
  {
    if k > 0 {
      DoubledAdd(a, j, k - 1);
    }
  }

  lemma FiftyTwo()
    ensures Doubled(1, 52) == 0x10_0000_0000_0000
  {
    FourMore(1, 0);
    DoubledAdd(1, 4, 12);
    DoubledAdd(1, 16, 12);
    DoubledAdd(1, 28, 12);
    DoubledAdd(1, 40, 12);
    Twelve(16);
    Twelve(0x1_0000);
    Twelve(0x1000_0000);
    Twelve(0x100_0000_0000);
  }

  /** The bit mask of `allocate_frame` finds that multiple, wherever the addition fits. */
  lemma MaskIsAlignUp(a: nat)
    requires a + 4095 < U64
    ensures Masked(a + 4095) == AlignUp(a)
  {
    var x := a + 4095;
    Twelve(0xF_FFFF_FFFF_FFFF);
    Twelve(x);
    AndDoubled(x, 0xF_FFFF_FFFF_FFFF, 52, 12);
    FiftyTwo();
    AndOnes(x / 4096, 52);
    Twelve(x / 4096);
  }

  // ------------------------------------------------- the flat enumeration

  /** The frames of one region from address `from` on, in order. */
  function FramesOf(region: Region, from: nat): seq<nat>
    decreases if AlignUp(from) + FRAME <= region.end then region.end - AlignUp(from) else 0
  {
    var frame := AlignUp(from);
    if region.kind != Usable || frame + FRAME > region.end then []
    else [frame] + FramesOf(region, frame + FRAME)
  }

  /** The frames of the regions from index `idx` on, the first of them from address `next` on. */
  function Remaining(regions: seq<Region>, idx: nat, next: nat): seq<nat>
    requires idx <= |regions|
    decreases |regions| - idx
  {
    if idx == |regions| then []
    else FramesOf(regions[idx], if next > regions[idx].start then next else regions[idx].start)
         + Remaining(regions, idx + 1, 0)
  }

  /** All of them: what the naive allocator enumerated from scratch on every call. */
  function AllFrames(regions: seq<Region>): seq<nat> {
    Remaining(regions, 0, 0)
  }

  /** An aligned frame wholly inside a usable region, at or after `from`. */
  ghost predicate FrameIn(frame: nat, region: Region, from: nat) {
    region.kind == Usable && frame % FRAME == 0 && from <= frame && frame + FRAME <= region.end
  }

  ghost predicate Ascending(frames: seq<nat>) {
    forall i, j :: 0 <= i < j < |frames| ==> frames[i] < frames[j]
  }

  /** The enumeration of a region has exactly its frames, in ascending order. */
  lemma {:induction false} FramesOfExact(region: Region, from: nat)
    ensures forall f: nat :: f in FramesOf(region, from) <==> FrameIn(f, region, from)
    ensures Ascending(FramesOf(region, from))
    decreases if AlignUp(from) + FRAME <= region.end then region.end - AlignUp(from) else 0
  {
    var frame, frames := AlignUp(from), FramesOf(region, from);
    if region.kind == Usable && frame + FRAME <= region.end {
      var rest := FramesOf(region, frame + FRAME);
      FramesOfExact(region, frame + FRAME);
      assert frames == [frame] + rest;
      forall f: nat
        ensures f in frames <==> FrameIn(f, region, from)
      {
        NextAligned(f, from);
      }
      forall i, j | 0 <= i < j < |frames|
        ensures frames[i] < frames[j]
      {
        assert rest[j - 1] in rest;
        assert FrameIn(rest[j - 1], region, frame + FRAME);
      }
    } else {
      forall f: nat
        ensures !FrameIn(f, region, from)
      {
        NextAligned(f, from);
      }
    }
  }

  lemma NextAligned(f: nat, from: nat)
    ensures f % FRAME == 0 && from <= f ==> f == AlignUp(from) || AlignUp(from) + FRAME <= f
  {}

  /** A frame of some usable region, from index `idx` on. */
  ghost predicate FrameFrom(frame: nat, regions: seq<Region>, idx: nat) {
    exists k :: idx <= k < |regions| && FrameIn(frame, regions[k], regions[k].start)
  }

  lemma {:induction false} RemainingExact(regions: seq<Region>, idx: nat, frame: nat)
    requires idx <= |regions|
    ensures frame in Remaining(regions, idx, 0) <==> FrameFrom(frame, regions, idx)
    decreases |regions| - idx
  {
    if idx < |regions| {
      FramesOfExact(regions[idx], regions[idx].start);
      RemainingExact(regions, idx + 1, frame);
      if FrameFrom(frame, regions, idx) {
        var k :| idx <= k < |regions| && FrameIn(frame, regions[k], regions[k].start);
        assert k == idx || FrameFrom(frame, regions, idx + 1);
      }
    }
  }

  /** Usable regions do not overlap. */
  ghost predicate Disjoint(regions: seq<Region>) {
    forall i, j :: 0 <= i < j < |regions| && regions[i].kind == Usable && regions[j].kind == Usable ==>
                     regions[i].end <= regions[j].start || regions[j].end <= regions[i].start
  }

  ghost predicate Distinct(frames: seq<nat>) {
    forall i, j :: 0 <= i < j < |frames| ==> frames[i] != frames[j]
  }

  lemma DistinctConcat(a: seq<nat>, b: seq<nat>)
    requires Distinct(a) && Distinct(b) && forall x :: x in a ==> x !in b
    ensures Distinct(a + b)
  {
    forall i, j | 0 <= i < j < |a + b|
      ensures (a + b)[i] != (a + b)[j]
    {
      if i < |a| <= j {
        assert a[i] in a && b[j - |a|] in b;
      }
    }
  }

  lemma {:induction false} RemainingDistinct(regions: seq<Region>, idx: nat)
    requires idx <= |regions| && Disjoint(regions)
    ensures Distinct(Remaining(regions, idx, 0))
    decreases |regions| - idx
  {
    if idx < |regions| {
      var here, later := FramesOf(regions[idx], regions[idx].start), Remaining(regions, idx + 1, 0);
      FramesOfExact(regions[idx], regions[idx].start);
      RemainingDistinct(regions, idx + 1);
      forall f | f in here
        ensures f !in later
      {
        RemainingExact(regions, idx + 1, f);
      }
      DistinctConcat(here, later);
    }
  }

  /**
   The enumeration is exactly the aligned frames wholly inside usable regions; when those do not
   overlap, no frame comes twice.
   */
  lemma AllFramesExact(regions: seq<Region>)
    ensures forall f: nat :: f in AllFrames(regions) <==> FrameFrom(f, regions, 0)
    ensures Disjoint(regions) ==> Distinct(AllFrames(regions))
  {
    forall f: nat
      ensures f in AllFrames(regions) <==> FrameFrom(f, regions, 0)
    {
      RemainingExact(regions, 0, f);
    }
    if Disjoint(regions) {
      RemainingDistinct(regions, 0);
    }
  }

  // ------------------------------------------------- one call, and many

  /** The allocator's position: a region, and the next address to consider in it. */
  datatype Cursor = Cursor(idx: nat, next: Address)

  /** A frame, the end of memory, or an address computation that leaves 64 bits. */
  datatype Outcome = Frame(addr: nat) | Exhausted | Overflow

  function First(regions: seq<Region>, c: Cursor): Address
    requires c.idx < |regions|
  {
    if c.next > regions[c.idx].start then c.next else regions[c.idx].start
  }

  /** `allocate_frame` */
  function Allocate(regions: seq<Region>, c: Cursor): (r: (Outcome, Cursor))
    requires c.idx <= |regions|
    ensures c.idx <= r.1.idx <= |regions|
    decreases |regions| - c.idx
  {
    if c.idx == |regions| then (Exhausted, c)
    else
      var region, start := regions[c.idx], First(regions, c);
      if region.kind != Usable then Allocate(regions, Cursor(c.idx + 1, 0))
      else if start + 4095 >= U64 || AlignUp(start) + FRAME >= U64 then (Overflow, c)
      else if AlignUp(start) + FRAME <= region.end then
        (Frame(AlignUp(start)), Cursor(c.idx, AlignUp(start) + FRAME))
      else Allocate(regions, Cursor(c.idx + 1, 0))
  }

  /** No usable region ahead starts in the last two frames of the address space or reaches into the last. */
  ghost predicate Fits(regions: seq<Region>, c: Cursor) {
    forall j :: c.idx <= j < |regions| && regions[j].kind == Usable ==>
                  && (if j == c.idx then First(regions, c) else regions[j].start) + 2 * FRAME <= U64
                  && regions[j].end + FRAME < U64
  }

  ghost function Ahead(regions: seq<Region>, c: Cursor): seq<nat>
    requires c.idx <= |regions|
  {
    Remaining(regions, c.idx, c.next)
  }

  /** What one call returns is the next frame of the enumeration, and what it leaves are the others. */
  lemma {:induction false} AllocateExact(regions: seq<Region>, c: Cursor)
    requires c.idx <= |regions|
    ensures var (r, c') := Allocate(regions, c);
            && (r.Frame? ==>
                  && Ahead(regions, c) == [r.addr] + Ahead(regions, c')
                  && (Fits(regions, c) <==> Fits(regions, c')))
            && (r.Exhausted? ==> Ahead(regions, c) == Ahead(regions, c') == [] && Fits(regions, c) && Fits(regions, c'))
            && (r.Overflow? ==> !Fits(regions, c) && !Fits(regions, c'))
    decreases |regions| - c.idx
  {
    if c.idx < |regions| {
      var region, start := regions[c.idx], First(regions, c);
      if region.kind != Usable || AlignUp(start) + FRAME > region.end {
        AllocateExact(regions, Cursor(c.idx + 1, 0));
        NextRegion(regions, c);
      } else {
        NextAligned(U64 - 2 * FRAME, start);
        assert FramesOf(region, start) == [AlignUp(start)] + FramesOf(region, AlignUp(start) + FRAME);
        SameFits(regions, c, Cursor(c.idx, if AlignUp(start) + FRAME < U64 then AlignUp(start) + FRAME else 0));
      }
    }
  }

  lemma NextRegion(regions: seq<Region>, c: Cursor)
    requires c.idx < |regions|
    requires regions[c.idx].kind == Usable ==> AlignUp(First(regions, c)) + FRAME > regions[c.idx].end
    ensures Ahead(regions, c) == Ahead(regions, Cursor(c.idx + 1, 0))
    ensures Fits(regions, c) ==> Fits(regions, Cursor(c.idx + 1, 0))
    ensures Fits(regions, Cursor(c.idx + 1, 0)) ==>
              Fits(regions, c) || (regions[c.idx].kind == Usable && First(regions, c) + 2 * FRAME > U64)
  {
    NextAligned(U64 - 2 * FRAME, First(regions, c));
    assert Fits(regions, c) ==> Fits(regions, Cursor(c.idx + 1, 0));
  }

  lemma SameFits(regions: seq<Region>, c: Cursor, c': Cursor)
    requires c.idx == c'.idx < |regions| && regions[c.idx].kind == Usable
    requires First(regions, c) <= c'.next && c'.next == AlignUp(First(regions, c)) + FRAME <= regions[c.idx].end
    ensures Fits(regions, c) <==> Fits(regions, c')
  {}

  /** `k` calls from a position. */
  function Calls(regions: seq<Region>, c: Cursor, k: nat): (rs: seq<Outcome>)
    requires c.idx <= |regions|
    ensures |rs| == k
    decreases k
  {
    if k == 0 then []
    else
      var (r, c') := Allocate(regions, c);
      [r] + Calls(regions, c', k - 1)
  }

  /**
   Any number of successive calls return the enumerated frames in order, each once, and then nothing
   for ever, if no address ahead is too close to the end of the address space.
   */
  lemma {:induction false} CallsExact(regions: seq<Region>, c: Cursor, k: nat, i: nat)
    requires c.idx <= |regions| && Fits(regions, c) && i < k
    ensures var frames := Ahead(regions, c);
            Calls(regions, c, k)[i] == if i < |frames| then Frame(frames[i]) else Exhausted
    decreases k
  {
    hide Allocate, Fits, Ahead;
    AllocateExact(regions, c);
    var (r, c') := Allocate(regions, c);
    if i > 0 {
      CallsExact(regions, c', k - 1, i - 1);
    }
  }

  /** If one is, some later call computes an address that leaves 64 bits, after handing out what it found before. */
  lemma {:induction false} CallsOverflow(regions: seq<Region>, c: Cursor) returns (k: nat)
    requires c.idx <= |regions| && !Fits(regions, c)
    ensures k <= |Ahead(regions, c)|
    ensures Calls(regions, c, k + 1)[k] == Overflow
    ensures forall i :: 0 <= i < k ==> Calls(regions, c, k + 1)[i] == Frame(Ahead(regions, c)[i])
    decreases |Ahead(regions, c)|
  {
    hide Allocate, Fits, Ahead;
    AllocateExact(regions, c);
    var (r, c') := Allocate(regions, c);
    if r.Overflow? {
      k := 0;
    } else {
      var rest := CallsOverflow(regions, c');
      k := rest + 1;
      assert Calls(regions, c, k + 1) == [r] + Calls(regions, c', k);
    }
  }

  const START: Cursor := Cursor(0, 0)

  /** No computation ever overflows if and only if the memory map keeps clear of the end of the address space. */
  lemma OverflowExact(regions: seq<Region>)
    ensures (forall k: nat, i: nat :: i < k ==> Calls(regions, START, k)[i] != Overflow) <==> Fits(regions, START)
    ensures Fits(regions, START) <==>
              (forall region <- regions ::
                 region.kind == Usable ==> region.start + 2 * FRAME <= U64 && region.end + FRAME < U64)
  {
    hide Calls;
    if Fits(regions, START) {
      forall k: nat, i: nat | i < k
        ensures Calls(regions, START, k)[i] != Overflow
      {
        CallsExact(regions, START, k, i);
      }
    } else {
      var k := CallsOverflow(regions, START);
      assert Calls(regions, START, k + 1)[k] == Overflow;
    }
  }

  // ------------------------------------------------- the object

  class FrameAllocator {
    const regions: seq<Region>
    var regionIdx: nat
    var nextAddr: Address

    ghost predicate Valid()
      reads this
    {
      regionIdx <= |regions|
    }

    function Position(): Cursor
      reads this
    {
      Cursor(regionIdx, nextAddr)
    }

    /** The frames still to be handed out. */
    ghost function Left(): seq<nat>
      reads this
      requires Valid()
    {
      Ahead(regions, Position())
    }

    constructor (regions: seq<Region>)
      ensures Valid() && this.regions == regions && Position() == START && Left() == AllFrames(regions)
    {
      this.regions := regions;
      regionIdx, nextAddr := 0, 0;
    }

    /**
     The next frame of the enumeration; `Exhausted` only when none is left; `Overflow` only when an
     address too close to the end of the address space lies ahead.
     */
    method AllocateFrame() returns (r: Outcome)
      requires Valid()
      modifies this
      ensures Valid() && (r, Position()) == Allocate(regions, old(Position()))
      ensures r.Frame? ==> old(Left()) == [r.addr] + Left()
      ensures r.Exhausted? ==> old(Left()) == Left() == []
      ensures r.Overflow? ==> !old(Fits(regions, Position()))
    {
      AllocateExact(regions, Position());
      while regionIdx < |regions|
        invariant Valid() && Allocate(regions, Position()) == Allocate(regions, old(Position()))
        decreases |regions| - regionIdx
      {
        var region := regions[regionIdx];
        if region.kind != Usable {
          regionIdx, nextAddr := regionIdx + 1, 0;
          continue;
        }
        var start := if nextAddr > region.start then nextAddr else region.start;
        if start + 4095 >= U64 {
          return Overflow;
        }
        MaskIsAlignUp(start);
        var frameAddr := Masked(start + 4095);
        if frameAddr + FRAME >= U64 {
          return Overflow;
        }
        if frameAddr + FRAME <= region.end {
          nextAddr := frameAddr + FRAME;
          return Frame(frameAddr);
        }
        regionIdx, nextAddr := regionIdx + 1, 0;
      }
      return Exhausted;
    }
  }
}
