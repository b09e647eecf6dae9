/**
 The shape of every disk the writer can leave behind, and the two readers of it: the one-by-one
 scan and the binary search.
 */
module DiskShape {
  import opened Bytes
  import opened Record

  const CAP: nat := PAYLOAD_CAPACITY

  type Sectors = s: seq<Sector> | |s| <= MAX_SECTORS witness []

  /** `record::decode(..).is_some()` */
  predicate Valid(sector: Sector, lba: Lba) {
    Decode(sector, lba).Some?
  }

  // ------------------------------------------------- the linear scan

  /** The payloads of the valid records from `lba` on, up to the first invalid one. */
  function Scan(sectors: Sectors, lba: nat): seq<byte>
    requires lba <= |sectors|
    decreases |sectors| - lba
  {
    if lba == |sectors| then []
    else match Decode(sectors[lba], lba)
      case None => []
      case Some(payload) => payload + Scan(sectors, lba + 1)
  }

  /** How many sectors that scan accepts, counted from 0. */
  function ScanEnd(sectors: Sectors, lba: nat): (end: nat)
    requires lba <= |sectors|
    ensures lba <= end <= |sectors|
    ensures forall i :: lba <= i < end ==> Valid(sectors[i], i)
    ensures end < |sectors| ==> !Valid(sectors[end], end)
    decreases |sectors| - lba
  {
    if lba == |sectors| || !Valid(sectors[lba], lba) then lba else ScanEnd(sectors, lba + 1)
  }

  /** `payloads` of the extraction script: a loop reading sector after sector. */
  method LinearScan(sectors: Sectors) returns (data: seq<byte>, lba: nat)
    ensures data == Scan(sectors, 0) && lba == ScanEnd(sectors, 0)
  {
    hide Decode, Valid;
    data, lba := [], 0;
    while true
      invariant lba <= |sectors|
      invariant data + Scan(sectors, lba) == Scan(sectors, 0)
      invariant ScanEnd(sectors, lba) == ScanEnd(sectors, 0)
      decreases |sectors| - lba
    {
      if lba == |sectors| {
        return;
      }
      ScanStep(sectors, lba);
      var record := Decode(sectors[lba], lba);
      if record.None? {
        return;
      }
      assert (data + record.value) + Scan(sectors, lba + 1) == data + (record.value + Scan(sectors, lba + 1));
      data := data + record.value;
      lba := lba + 1;
    }
  }

  lemma ScanStep(sectors: Sectors, lba: nat)
    requires lba < |sectors|
    ensures Valid(sectors[lba], lba) <==> Decode(sectors[lba], lba).Some?
    ensures Valid(sectors[lba], lba) ==>
              && Scan(sectors, lba) == Decode(sectors[lba], lba).value + Scan(sectors, lba + 1)
              && ScanEnd(sectors, lba) == ScanEnd(sectors, lba + 1)
    ensures !Valid(sectors[lba], lba) ==> Scan(sectors, lba) == [] && ScanEnd(sectors, lba) == lba
  {
    hide Decode;
  }

  // ------------------------------------------------- full sectors

  predicate FullRecord(sector: Sector, lba: Lba) {
    match Decode(sector, lba)
    case Some(p) => |p| == CAP
    case None => false
  }

  /** The sealed sectors: full records from LBA 0 on. */
  function SealedFrom(sectors: Sectors, lba: nat): (w: nat)
    requires lba <= |sectors|
    ensures lba <= w <= |sectors|
    ensures forall i :: lba <= i < w ==> FullRecord(sectors[i], i)
    ensures w < |sectors| ==> !FullRecord(sectors[w], w)
    decreases |sectors| - lba
  {
    if lba == |sectors| || !FullRecord(sectors[lba], lba) then lba else SealedFrom(sectors, lba + 1)
  }

  function Sealed(sectors: Sectors): (w: nat)
    ensures w <= |sectors|
    ensures forall i :: 0 <= i < w ==> FullRecord(sectors[i], i)
  {
    SealedFrom(sectors, 0)
  }

  /** Everything the disk holds. */
  function Stream(sectors: Sectors): seq<byte> {
    Scan(sectors, 0)
  }

  // ------------------------------------------------- the shape

  function Block(stream: seq<byte>, i: nat): seq<byte>
    requires CAP * (i + 1) <= |stream|
  {
    stream[CAP * i..CAP * i + CAP]
  }

  /**
   `w` sealed sectors, one sector that may be rewritten, and zeros; together they hold `stream`.
   */
  ghost predicate Holds(sectors: Sectors, w: nat, stream: seq<byte>) {
    && w <= |sectors|
    && CAP * w <= |stream| < CAP * (w + 1)
    && (forall i :: 0 <= i < w ==> Decode(sectors[i], i) == Some(Block(stream, i)))
    && (w == |sectors| ==> |stream| == CAP * w)
    && (w < |sectors| ==> Remnant(sectors[w], w) && Reading(sectors[w], w) == stream[CAP * w..])
    && (forall i :: w < i < |sectors| ==> sectors[i] == Zeros(SECTOR_SIZE))
  }

  /** The disk has that shape, whatever it holds. */
  ghost predicate Sound(sectors: Sectors) {
    exists w, stream :: Holds(sectors, w, stream)
  }

  lemma {:induction false} SealedIs(sectors: Sectors, w: nat, stream: seq<byte>, i: nat)
    requires Holds(sectors, w, stream) && i <= w
    ensures SealedFrom(sectors, i) == w
    decreases w - i
  {
    hide Decode, Remnant;
    if i < w {
      SealedIs(sectors, w, stream, i + 1);
    }
  }

  lemma {:induction false} ScanIs(sectors: Sectors, w: nat, stream: seq<byte>, i: nat)
    requires Holds(sectors, w, stream) && i <= w
    ensures Scan(sectors, i) == stream[CAP * i..]
    ensures ScanEnd(sectors, i) == if w < |sectors| && Valid(sectors[w], w) then w + 1 else w
    decreases w - i
  {
    hide Decode, Remnant;
    if i < w {
      ScanIs(sectors, w, stream, i + 1);
      assert stream[CAP * i..] == Block(stream, i) + stream[CAP * (i + 1)..];
    } else if w < |sectors| && Valid(sectors[w], w) {
      AfterSlot(sectors, w, stream);
    }
  }

  lemma AfterSlot(sectors: Sectors, w: nat, stream: seq<byte>)
    requires Holds(sectors, w, stream) && w < |sectors|
    ensures Scan(sectors, w + 1) == [] && ScanEnd(sectors, w + 1) == w + 1
  {
    if w + 1 < |sectors| {
      ZeroSectorInvalid(w + 1);
    }
  }

  /** The two numbers are read off the disk: sealed sectors by count, the stream by the scan. */
  lemma ShapeUnique(sectors: Sectors, w: nat, stream: seq<byte>)
    requires Holds(sectors, w, stream)
    ensures Sealed(sectors) == w && Stream(sectors) == stream
  {
    SealedIs(sectors, w, stream, 0);
    ScanIs(sectors, w, stream, 0);
    assert stream[CAP * 0..] == stream;
  }

  lemma SoundHolds(sectors: Sectors)
    requires Sound(sectors)
    ensures Holds(sectors, Sealed(sectors), Stream(sectors))
  {
    var w, stream :| Holds(sectors, w, stream);
    ShapeUnique(sectors, w, stream);
  }

  lemma HoldsSound(sectors: Sectors, w: nat, stream: seq<byte>)
    requires Holds(sectors, w, stream)
    ensures Sound(sectors)
  {}

  /** A zeroed disk is sound and empty. */
  lemma ZeroedHolds(n: nat)
    requires n <= MAX_SECTORS
    ensures Holds(seq(n, i => Zeros(SECTOR_SIZE)), 0, [])
  {
    if n > 0 {
      ZeroSectorInvalid(0);
      assert Zeros(SECTOR_SIZE)[12..18] == Zeros(6);
    }
  }

  // ------------------------------------------------- rewriting the tail sector

  lemma BlockPrefix(stream: seq<byte>, longer: seq<byte>, w: nat, i: nat)
    requires i < w && CAP * w <= |stream| && CAP * w <= |longer|
    requires stream[..CAP * w] == longer[..CAP * w]
    ensures Block(stream, i) == Block(longer, i)
  {
    SliceOfSlice(stream, CAP * w, CAP * i, CAP * i + CAP);
    SliceOfSlice(longer, CAP * w, CAP * i, CAP * i + CAP);
  }

  lemma BlocksKept(sectors: Sectors, w: nat, stream: seq<byte>, sectors': Sectors, stream': seq<byte>)
    requires Holds(sectors, w, stream) && |sectors'| == |sectors|
    requires sectors'[..w] == sectors[..w]
    requires |stream'| >= CAP * w && stream'[..CAP * w] == stream[..CAP * w]
    ensures forall i :: 0 <= i < w ==> Decode(sectors'[i], i) == Some(Block(stream', i))
  {
    hide Decode, Remnant, Block;
    forall i | 0 <= i < w
      ensures Decode(sectors'[i], i) == Some(Block(stream', i))
    {
      assert sectors'[i] == sectors'[..w][i] == sectors[i];
      BlockPrefix(stream, stream', w, i);
    }
  }

  lemma BlanksKept(sectors: Sectors, w: nat, stream: seq<byte>, out: Sector)
    requires Holds(sectors, w, stream) && w < |sectors|
    ensures var sectors' := sectors[w := out];
            forall i :: w < i < |sectors'| ==> sectors'[i] == Zeros(SECTOR_SIZE)
  {
    hide Decode, Remnant;
  }

  lemma SlotEdge(sectors: Sectors, w: nat, stream: seq<byte>, r: seq<byte>)
    requires Holds(sectors, w, stream)
    ensures CAP * w <= |stream|
    ensures var stream' := stream[..CAP * w] + r;
            stream'[..CAP * w] == stream[..CAP * w] && stream'[CAP * w..] == r
  {
    hide Decode, Remnant;
  }

  lemma ReadingFits(sector: Sector, lba: Lba)
    ensures |Reading(sector, lba)| <= CAP
  {
    if Valid(sector, lba) {
      var q := DecodeSome(sector, lba);
    }
  }

  /** A record that leaves room keeps its slot; a full one seals it. */
  lemma KeepSlot(sectors': Sectors, w: nat, stream': seq<byte>)
    requires w < |sectors'| && CAP * w <= |stream'| < CAP * (w + 1)
    requires forall i :: 0 <= i < w ==> Decode(sectors'[i], i) == Some(Block(stream', i))
    requires Remnant(sectors'[w], w) && Reading(sectors'[w], w) == stream'[CAP * w..]
    requires forall i :: w < i < |sectors'| ==> sectors'[i] == Zeros(SECTOR_SIZE)
    ensures Holds(sectors', w, stream')
  {
    hide Remnant, Decode, Block, Reading;
  }

  lemma SealSlot(sectors: Sectors, w: nat, sectors': Sectors, stream': seq<byte>)
    requires w < |sectors| == |sectors'| && |stream'| == CAP * (w + 1)
    requires forall i :: 0 <= i < w ==> Decode(sectors'[i], i) == Some(Block(stream', i))
    requires Reading(sectors'[w], w) == stream'[CAP * w..]
    requires forall i :: w < i < |sectors'| ==> sectors'[i] == Zeros(SECTOR_SIZE)
    ensures Holds(sectors', w + 1, stream')
  {
    hide Remnant, Decode;
    assert stream'[CAP * w..] == Block(stream', w);
    if w + 1 < |sectors'| {
      BlankSlot(w + 1);
      assert stream'[CAP * (w + 1)..] == [];
    }
  }

  /** Rewriting the one rewritable sector keeps the shape, whatever record or remnant ends up in it. */
  lemma Rewrite(sectors: Sectors, w: nat, stream: seq<byte>, out: Sector)
    requires Holds(sectors, w, stream) && w < |sectors|
    requires Remnant(out, w)
    ensures |Reading(out, w)| <= CAP
    ensures Holds(sectors[w := out], if |Reading(out, w)| == CAP then w + 1 else w, stream[..CAP * w] + Reading(out, w))
  {
    ReadingFits(out, w);
    hide Remnant, Decode, Reading, Block;
    var r := Reading(out, w);
    var stream', sectors' := stream[..CAP * w] + r, sectors[w := out];
    assert sectors'[..w] == sectors[..w];
    BlanksKept(sectors, w, stream, out);
    SlotEdge(sectors, w, stream, r);
    BlocksKept(sectors, w, stream, sectors', stream');
    hide Holds;
    if |r| == CAP {
      SealSlot(sectors, w, sectors', stream');
    } else {
      KeepSlot(sectors', w, stream');
    }
  }

  lemma BlankSlot(lba: Lba)
    ensures Remnant(Zeros(SECTOR_SIZE), lba) && Reading(Zeros(SECTOR_SIZE), lba) == []
  {
    ZeroSectorInvalid(lba);
    assert Zeros(SECTOR_SIZE)[12..18] == Zeros(6);
  }

  // ------------------------------------------------- the binary search

  /** The loop of `load`: halve `[lo, hi)` on whether the middle record is valid. */
  function Search(sectors: Sectors, lo: nat, hi: nat): (end: nat)
    requires lo <= hi <= |sectors|
    ensures lo <= end <= hi
    decreases hi - lo
  {
    if lo == hi then lo
    else
      var mid := lo + (hi - lo) / 2;
      if Valid(sectors[mid], mid) then Search(sectors, mid + 1, hi) else Search(sectors, lo, mid)
  }

  /** Valid (or nothing) before it, invalid (or the end) at it. */
  predicate Boundary(sectors: Sectors, end: nat) {
    && end <= |sectors|
    && (end == 0 || Valid(sectors[end - 1], end - 1))
    && (end == |sectors| || !Valid(sectors[end], end))
  }

  /** On any disk the search ends at a boundary. */
  lemma {:induction false} SearchBoundary(sectors: Sectors, lo: nat, hi: nat)
    requires lo <= hi <= |sectors|
    requires lo == 0 || Valid(sectors[lo - 1], lo - 1)
    requires hi == |sectors| || !Valid(sectors[hi], hi)
    ensures Boundary(sectors, Search(sectors, lo, hi))
    decreases hi - lo
  {
    hide Valid;
    if lo != hi {
      var mid := lo + (hi - lo) / 2;
      if Valid(sectors[mid], mid) {
        SearchBoundary(sectors, mid + 1, hi);
      } else {
        SearchBoundary(sectors, lo, mid);
      }
    }
  }

  /** So does the scan. */
  lemma ScanBoundary(sectors: Sectors)
    ensures Boundary(sectors, ScanEnd(sectors, 0))
  {
    hide Valid;
  }

  /** Valid records form a prefix. */
  ghost predicate Contiguous(sectors: Sectors) {
    forall i, j :: 0 <= i < j < |sectors| && Valid(sectors[j], j) ==> Valid(sectors[i], i)
  }

  lemma Below(sectors: Sectors, i: nat, j: nat)
    requires Contiguous(sectors) && i <= j < |sectors| && Valid(sectors[j], j)
    ensures Valid(sectors[i], i)
  {
    hide Valid;
  }

  /** Where valid records form a prefix there is only one boundary. */
  lemma BoundaryUnique(sectors: Sectors, a: nat, b: nat)
    requires Contiguous(sectors) && Boundary(sectors, a) && Boundary(sectors, b) && a <= b
    ensures a == b
  {
    hide Valid, Contiguous;
    if a < b {
      Below(sectors, a, b - 1);
    }
  }

  /** Where valid records form a prefix, the search and the scan agree. */
  lemma SearchIsScan(sectors: Sectors)
    requires Contiguous(sectors)
    ensures Search(sectors, 0, |sectors|) == ScanEnd(sectors, 0)
  {
    SearchBoundary(sectors, 0, |sectors|);
    ScanBoundary(sectors);
    hide Boundary, Contiguous, Search, ScanEnd;
    var found, scanned := Search(sectors, 0, |sectors|), ScanEnd(sectors, 0);
    if found <= scanned {
      BoundaryUnique(sectors, found, scanned);
    } else {
      BoundaryUnique(sectors, scanned, found);
    }
  }

  lemma SoundContiguous(sectors: Sectors)
    requires Sound(sectors)
    ensures Contiguous(sectors)
  {
    SoundHolds(sectors);
    var w := Sealed(sectors);
    forall j | w < j < |sectors|
      ensures !Valid(sectors[j], j)
    {
      ZeroSectorInvalid(j);
    }
    hide Valid;
  }

  /** The smallest disk on which they differ: one valid record behind an invalid sector. */
  lemma SearchNeedsPrefix()
    ensures var sectors: Sectors := [Zeros(SECTOR_SIZE), Encode(1, [])];
            Search(sectors, 0, 2) == 2 && ScanEnd(sectors, 0) == 0
  {
    hide Encode, Decode;
    ZeroSectorInvalid(0);
    RoundTrip(1, [], 1);
  }
}
