/**
 The log writer as a state machine on values: sealed sectors, the tail being filled, the sticky
 trouble flag, and the disk underneath.
 */
module Log {
  import opened Bytes
  import opened Record
  import opened Torn
  import opened Device
  import opened DiskShape

  /** The writer's part of a `Scroll`, with the disk it writes to. */
  datatype Pen = Pen(dev: Device, sealed: nat, tail: seq<byte>, full: bool, trouble: bool)

  /** What `load` and every append leave behind. */
  predicate Ready(pen: Pen) {
    && |pen.dev.sectors| <= MAX_SECTORS
    && pen.sealed <= |pen.dev.sectors|
    && |pen.tail| < CAP
    && pen.full == (pen.sealed == |pen.dev.sectors|)
    && (pen.full ==> pen.tail == [])
  }

  /** Room for one more record: the state in which `write` is called. */
  predicate Room(pen: Pen) {
    |pen.dev.sectors| <= MAX_SECTORS && pen.sealed < |pen.dev.sectors| && |pen.tail| <= CAP
  }

  /** `write(sealed, encode(sealed, tail))`: nothing once in trouble, else at most three attempts. */
  function Flush(pen: Pen): (r: Pen)
    requires Room(pen)
    ensures |r.dev.sectors| == |pen.dev.sectors|
    ensures r.sealed == pen.sealed && r.tail == pen.tail && r.full == pen.full
  {
    if pen.trouble then pen
    else
      var (dev, ok) := Retry(pen.dev, pen.sealed, Encode(pen.sealed, pen.tail), 3);
      pen.(dev := dev, trouble := !ok)
  }

  /** One byte of ink; a full tail is written and sealed. */
  function InkByte(pen: Pen, b: byte): (r: Pen)
    requires Ready(pen) && !pen.full
    ensures Ready(r) && |r.dev.sectors| == |pen.dev.sectors|
  {
    var pushed := pen.(tail := pen.tail + [b]);
    if |pushed.tail| < CAP then pushed
    else
      var flushed := Flush(pushed);
      flushed.(sealed := pen.sealed + 1, tail := [], full := pen.sealed + 1 == |pen.dev.sectors|)
  }

  /** The byte loop of `append_raw`, which stops when the last sector seals. */
  function InkBytes(pen: Pen, bytes: seq<byte>): (r: Pen)
    requires Ready(pen)
    ensures Ready(r) && |r.dev.sectors| == |pen.dev.sectors|
    decreases |bytes|
  {
    if bytes == [] || pen.full then pen else InkBytes(InkByte(pen, bytes[0]), bytes[1..])
  }

  /** The ink half of `append_raw`. */
  function Append(pen: Pen, bytes: seq<byte>): (r: Pen)
    requires Ready(pen)
    ensures Ready(r) && |r.dev.sectors| == |pen.dev.sectors|
  {
    if pen.full then pen
    else
      var inked := InkBytes(pen, bytes);
      if inked.full || inked.tail == [] then inked else Flush(inked)
  }

  // ------------------------------------------------- which failures are considered

  /** The write of the tail, all its attempts together, is not torn into a forgery. */
  ghost predicate FlushOk(pen: Pen)
    requires Room(pen)
  {
    pen.trouble || !Forges(pen.dev.sectors[pen.sealed], pen.tail, Reached(pen.dev.fates, pen.dev.powered, 3))
  }

  ghost predicate InkByteOk(pen: Pen, b: byte)
    requires Ready(pen) && !pen.full
  {
    |pen.tail| + 1 == CAP ==> FlushOk(pen.(tail := pen.tail + [b]))
  }

  ghost predicate InkOk(pen: Pen, bytes: seq<byte>)
    requires Ready(pen)
    decreases |bytes|
  {
    bytes == [] || pen.full || (InkByteOk(pen, bytes[0]) && InkOk(InkByte(pen, bytes[0]), bytes[1..]))
  }

  /** Every torn write of this append is one the record format survives. */
  ghost predicate AppendOk(pen: Pen, bytes: seq<byte>)
    requires Ready(pen)
  {
    pen.full || (
      && InkOk(pen, bytes)
      && var inked := InkBytes(pen, bytes);
         inked.full || inked.tail == [] || FlushOk(inked))
  }

  // ------------------------------------------------- what every step keeps

  /** Sealed sectors are never touched again, and never become fewer. */
  ghost predicate Grows(before: Sectors, after: Sectors) {
    && |before| == |after|
    && Sealed(before) <= Sealed(after)
    && before[..Sealed(before)] == after[..Sealed(before)]
  }

  lemma GrowsChain(a: Sectors, b: Sectors, c: Sectors)
    requires Grows(a, b) && Grows(b, c)
    ensures Grows(a, c)
  {
    hide Sealed;
    PrefixOfPrefix(b, Sealed(b), Sealed(a));
    PrefixOfPrefix(c, Sealed(b), Sealed(a));
  }

  lemma PrefixOfPrefix<T>(s: seq<T>, n: nat, k: nat)
    requires k <= n <= |s|
    ensures s[..k] == s[..n][..k]
  {}

  /**
   The disk behind a writer whose ideal output so far is `ideal`: it has the right shape, holds
   a prefix of the ideal, and while there is no trouble its sealed sectors are the writer's.
   */
  ghost predicate Backed(pen: Pen, ideal: seq<byte>) {
    && |pen.dev.sectors| <= MAX_SECTORS
    && Sound(pen.dev.sectors)
    && Stream(pen.dev.sectors) <= ideal
    && (!pen.trouble ==> pen.dev.powered && Sealed(pen.dev.sectors) == pen.sealed)
  }

  /** The writer's own account of `ideal`: sealed sectors and a tail. */
  ghost predicate Splits(pen: Pen, ideal: seq<byte>) {
    && |ideal| == CAP * pen.sealed + |pen.tail|
    && pen.tail == ideal[CAP * pen.sealed..]
  }

  ghost predicate Session(pen: Pen, ideal: seq<byte>) {
    Ready(pen) && Splits(pen, ideal) && Backed(pen, ideal)
  }

  /** Between appends, with no trouble, everything is on the disk. */
  ghost predicate Settled(pen: Pen, ideal: seq<byte>) {
    |pen.dev.sectors| <= MAX_SECTORS && !pen.trouble ==> Stream(pen.dev.sectors) == ideal
  }

  /** The shape of a sound disk around its rewritable sector. */
  lemma SlotOf(pen: Pen, ideal: seq<byte>)
    requires Room(pen) && Splits(pen, ideal) && Backed(pen, ideal) && !pen.trouble
    ensures var sectors, w := pen.dev.sectors, pen.sealed;
            && Holds(sectors, w, Stream(sectors))
            && Stream(sectors)[..CAP * w] == ideal[..CAP * w]
            && Reading(sectors[w], w) <= pen.tail
  {
    SoundHolds(pen.dev.sectors);
    var s, w := Stream(pen.dev.sectors), pen.sealed;
    SlotReading(pen.dev.sectors, w, s);
    hide Holds, Sound, Stream, Sealed, Reading;
    PrefixOfPrefix(ideal, |s|, CAP * w);
    TailPrefix(ideal, |s|, CAP * w);
  }

  lemma SlotReading(sectors: Sectors, w: nat, s: seq<byte>)
    requires Holds(sectors, w, s) && w < |sectors|
    ensures CAP * w <= |s| && Reading(sectors[w], w) == s[CAP * w..]
  {
    hide Remnant, Decode;
  }

  lemma SplitAt(s: seq<byte>, k: nat)
    requires k <= |s|
    ensures s == s[..k] + s[k..]
  {}

  lemma TailPrefix(s: seq<byte>, n: nat, k: nat)
    requires k <= n <= |s|
    ensures s[..n][k..] <= s[k..]
  {}

  /** A sound disk that grew and holds a prefix of `ideal`. */
  ghost predicate Kept(before: Sectors, after: Sectors, ideal: seq<byte>) {
    Sound(after) && Stream(after) <= ideal && Grows(before, after)
  }

  /** The rewritable sector replaced by `out`: the stream ends with what `out` reads as. */
  lemma SlotWritten(sectors: Sectors, w: nat, s: seq<byte>, out: Sector, p: seq<byte>, ideal: seq<byte>)
    requires Holds(sectors, w, s) && w < |sectors| && Remnant(out, w)
    requires ideal == s[..CAP * w] + p && Reading(out, w) <= p
    ensures var sectors' := sectors[w := out];
            && Kept(sectors, sectors', ideal)
            && (Reading(out, w) == p ==>
                  Stream(sectors') == ideal && Sealed(sectors') == if |p| == CAP then w + 1 else w)
  {
    hide Remnant, Decode, Holds, Sealed, Stream, Reading, Sound;
    SlotReading(sectors, w, s);
    Rewrite(sectors, w, s, out);
    var sectors' := sectors[w := out];
    var r := Reading(out, w);
    var w' := if |r| == CAP then w + 1 else w;
    var s' := s[..CAP * w] + r;
    ShapeUnique(sectors', w', s');
    ShapeUnique(sectors, w, s);
    HoldsSound(sectors', w', s');
    PrefixConcat(s[..CAP * w], r, p);
    assert sectors'[..w] == sectors[..w];
  }

  lemma PrefixConcat(a: seq<byte>, r: seq<byte>, p: seq<byte>)
    requires r <= p
    ensures a + r <= a + p
  {}

  /**
   What one call of `write` does to the rewritable sector: afterwards it reads as a beginning of the tail
   if and only if the write was not torn into a forgery, and as the tail if there was no trouble.
   */
  lemma FlushOutcome(pen: Pen)
    requires Room(pen) && !pen.trouble
    requires Remnant(pen.dev.sectors[pen.sealed], pen.sealed)
    requires Reading(pen.dev.sectors[pen.sealed], pen.sealed) <= pen.tail
    ensures var pen', w := Flush(pen), pen.sealed;
            var out := pen'.dev.sectors[w];
            && pen'.dev.sectors == pen.dev.sectors[w := out]
            && Remnant(out, w)
            && (Reading(out, w) <= pen.tail <==> FlushOk(pen))
            && (!pen'.trouble ==> pen'.dev.powered && Reading(out, w) == pen.tail)
  {
    hide Remnant, Encode, Decode, Retry, Forges, Reading, Reached, Tear;
    var t := Reached(pen.dev.fates, pen.dev.powered, 3);
    RetryTears(pen.dev, pen.sealed, Encode(pen.sealed, pen.tail), 3);
    ForgesExact(pen.sealed, pen.dev.sectors[pen.sealed], pen.tail, t);
    EncodedReading(pen.sealed, pen.tail);
    TearNothing(pen.dev.sectors[pen.sealed], Encode(pen.sealed, pen.tail));
  }

  /** One call of `write`, whatever becomes of it. */
  lemma FlushKeeps(pen: Pen, ideal: seq<byte>)
    requires Room(pen) && Splits(pen, ideal) && Backed(pen, ideal) && FlushOk(pen)
    ensures var pen' := Flush(pen);
            && |pen'.dev.sectors| <= MAX_SECTORS
            && Kept(pen.dev.sectors, pen'.dev.sectors, ideal)
            && (!pen'.trouble ==>
                  && pen'.dev.powered && Stream(pen'.dev.sectors) == ideal
                  && Sealed(pen'.dev.sectors) == if |pen.tail| == CAP then pen.sealed + 1 else pen.sealed)
  {
    if pen.trouble {
      GrowsRefl(pen.dev.sectors);
    } else {
      SlotOf(pen, ideal);
      var sectors, w, s := pen.dev.sectors, pen.sealed, Stream(pen.dev.sectors);
      SlotRemnant(sectors, w, s);
      FlushOutcome(pen);
      hide Holds, Sound, Stream, Sealed, Remnant, Flush, FlushOk, Reading, Kept;
      var pen' := Flush(pen);
      var out := pen'.dev.sectors[w];
      SplitAt(ideal, CAP * w);
      SlotWritten(sectors, w, s, out, pen.tail, ideal);
    }
  }

  lemma SlotRemnant(sectors: Sectors, w: nat, s: seq<byte>)
    requires Holds(sectors, w, s) && w < |sectors|
    ensures Remnant(sectors[w], w)
  {}

  lemma EncodedReading(lba: Lba, p: seq<byte>)
    requires |p| <= CAP
    ensures Reading(Encode(lba, p), lba) == p
  {
    hide Encode, Decode;
    RoundTrip(lba, p, lba);
  }

  lemma GrowsRefl(s: Sectors)
    ensures Grows(s, s)
  {}

  lemma BackedLonger(pen: Pen, ideal: seq<byte>, longer: seq<byte>)
    requires Backed(pen, ideal) && ideal <= longer
    ensures Backed(pen, longer)
  {}

  lemma InkByteKeeps(pen: Pen, b: byte, ideal: seq<byte>)
    requires Session(pen, ideal) && !pen.full && InkByteOk(pen, b)
    ensures Session(InkByte(pen, b), ideal + [b])
    ensures Grows(pen.dev.sectors, InkByte(pen, b).dev.sectors)
    ensures InkByte(pen, b).tail == [] ==> Settled(InkByte(pen, b), ideal + [b])
  {
    hide Holds, Sound, Stream, Sealed, Flush, FlushOk;
    var longer := ideal + [b];
    BackedLonger(pen, ideal, longer);
    var pushed := pen.(tail := pen.tail + [b]);
    assert longer[CAP * pen.sealed..] == ideal[CAP * pen.sealed..] + [b];
    if |pushed.tail| < CAP {
      GrowsRefl(pen.dev.sectors);
    } else {
      FlushKeeps(pushed, longer);
      var after := InkByte(pen, b);
      assert longer[CAP * (pen.sealed + 1)..] == [];
    }
  }

  /** What an append makes of the ideal output: the capacity of the disk cuts it off. */
  function Extended(ideal: seq<byte>, bytes: seq<byte>, sectors: nat): (r: seq<byte>)
    requires |ideal| <= CAP * sectors
  {
    ideal + bytes[..Min(|bytes|, CAP * sectors - |ideal|)]
  }

  lemma ExtendedStep(ideal: seq<byte>, bytes: seq<byte>, n: nat)
    requires bytes != [] && |ideal| < CAP * n
    ensures Extended(ideal + [bytes[0]], bytes[1..], n) == Extended(ideal, bytes, n)
  {
    var k := Min(|bytes|, CAP * n - |ideal|);
    assert bytes[..k] == [bytes[0]] + bytes[1..][..k - 1];
    assert (ideal + [bytes[0]]) + bytes[1..][..k - 1] == ideal + bytes[..k];
  }

  lemma {:induction false} InkBytesKeeps(pen: Pen, bytes: seq<byte>, ideal: seq<byte>)
    requires Session(pen, ideal) && InkOk(pen, bytes)
    requires pen.tail == [] ==> Settled(pen, ideal)
    ensures var r := InkBytes(pen, bytes);
            && Session(r, Extended(ideal, bytes, |pen.dev.sectors|))
            && Grows(pen.dev.sectors, r.dev.sectors)
            && (r.tail == [] ==> Settled(r, Extended(ideal, bytes, |pen.dev.sectors|)))
    decreases |bytes|
  {
    hide InkByte, InkByteOk, Backed, Settled;
    var n := |pen.dev.sectors|;
    if bytes == [] {
      GrowsRefl(pen.dev.sectors);
      assert Extended(ideal, bytes, n) == ideal;
    } else if pen.full {
      GrowsRefl(pen.dev.sectors);
      assert Extended(ideal, bytes, n) == ideal;
    } else {
      InkByteKeeps(pen, bytes[0], ideal);
      InkBytesKeeps(InkByte(pen, bytes[0]), bytes[1..], ideal + [bytes[0]]);
      ExtendedStep(ideal, bytes, n);
      GrowsChain(pen.dev.sectors, InkByte(pen, bytes[0]).dev.sectors, InkBytes(pen, bytes).dev.sectors);
    }
  }

  /**
   An append, with any admissible failures: the disk keeps its shape and holds a prefix of the
   ideal output; with no trouble it holds all of it; sealed sectors stay as they are.
   */
  lemma AppendKeeps(pen: Pen, bytes: seq<byte>, ideal: seq<byte>)
    requires Session(pen, ideal) && Settled(pen, ideal) && AppendOk(pen, bytes)
    ensures var r, ideal' := Append(pen, bytes), Extended(ideal, bytes, |pen.dev.sectors|);
            && Session(r, ideal') && Settled(r, ideal')
            && Grows(pen.dev.sectors, r.dev.sectors)
  {
    hide Sound, Stream, Sealed, InkBytes, InkOk, Flush, FlushOk;
    var ideal' := Extended(ideal, bytes, |pen.dev.sectors|);
    if pen.full {
      GrowsRefl(pen.dev.sectors);
    } else {
      InkBytesKeeps(pen, bytes, ideal);
      var inked := InkBytes(pen, bytes);
      if !inked.full && inked.tail != [] {
        FlushKeeps(inked, ideal');
        GrowsChain(pen.dev.sectors, inked.dev.sectors, Flush(inked).dev.sectors);
      }
    }
  }

  /** Trouble freezes the disk, however far the writer's own account moves on. */
  lemma {:induction false} TroubleFreezes(pen: Pen, bytes: seq<byte>)
    requires Ready(pen) && pen.trouble
    ensures InkBytes(pen, bytes).dev == pen.dev && InkBytes(pen, bytes).trouble
    ensures Append(pen, bytes).dev == pen.dev && Append(pen, bytes).trouble
    decreases |bytes|
  {
    hide Retry;
    if bytes != [] && !pen.full {
      TroubleFreezes(InkByte(pen, bytes[0]), bytes[1..]);
    }
  }

  // ------------------------------------------------- what no failure can break

  /**
   The disk behind a writer, whatever it holds: it has the right shape, and while there is no trouble its
   sealed sectors are the writer's.
   */
  ghost predicate Firm(pen: Pen) {
    && |pen.dev.sectors| <= MAX_SECTORS && Sound(pen.dev.sectors)
    && (!pen.trouble ==> pen.dev.powered && Sealed(pen.dev.sectors) == pen.sealed)
  }

  /** The rewritable sector replaced by anything a torn write can leave. */
  lemma SlotReplaced(sectors: Sectors, w: nat, s: seq<byte>, out: Sector)
    requires Holds(sectors, w, s) && w < |sectors| && Remnant(out, w)
    ensures var sectors' := sectors[w := out];
            Sound(sectors') && Grows(sectors, sectors')
            && Sealed(sectors') == if |Reading(out, w)| == CAP then w + 1 else w
  {
    hide Remnant, Decode, Holds, Sealed, Stream, Reading, Sound;
    SlotReading(sectors, w, s);
    Rewrite(sectors, w, s, out);
    var sectors', r := sectors[w := out], Reading(out, w);
    var w', s' := if |r| == CAP then w + 1 else w, s[..CAP * w] + r;
    ShapeUnique(sectors', w', s');
    ShapeUnique(sectors, w, s);
    HoldsSound(sectors', w', s');
    assert sectors'[..w] == sectors[..w];
  }

  /** The rewritable sector after a write, however it ended. */
  lemma FlushSlot(pen: Pen)
    requires Room(pen) && !pen.trouble && Remnant(pen.dev.sectors[pen.sealed], pen.sealed)
    ensures var pen', w := Flush(pen), pen.sealed;
            var out := pen'.dev.sectors[w];
            && pen'.dev.sectors == pen.dev.sectors[w := out] && Remnant(out, w)
            && (!pen'.trouble ==> pen'.dev.powered && Reading(out, w) == pen.tail)
  {
    hide Remnant, Encode, Decode, Retry, Reading, Reached, Tear;
    RetryTears(pen.dev, pen.sealed, Encode(pen.sealed, pen.tail), 3);
    TearRemnant(pen.sealed, pen.dev.sectors[pen.sealed], pen.tail, Reached(pen.dev.fates, pen.dev.powered, 3));
    EncodedReading(pen.sealed, pen.tail);
    TearNothing(pen.dev.sectors[pen.sealed], Encode(pen.sealed, pen.tail));
  }

  /** A write, forged or not, keeps the shape of the disk and touches no sealed sector. */
  lemma FlushFirm(pen: Pen)
    requires Room(pen) && Firm(pen)
    ensures var pen' := Flush(pen);
            && |pen'.dev.sectors| <= MAX_SECTORS && Sound(pen'.dev.sectors)
            && Grows(pen.dev.sectors, pen'.dev.sectors)
            && (!pen'.trouble ==>
                  && pen'.dev.powered
                  && Sealed(pen'.dev.sectors) == if |pen.tail| == CAP then pen.sealed + 1 else pen.sealed)
  {
    if pen.trouble {
      GrowsRefl(pen.dev.sectors);
    } else {
      var sectors, w, s := pen.dev.sectors, pen.sealed, Stream(pen.dev.sectors);
      SoundHolds(sectors);
      SlotRemnant(sectors, w, s);
      FlushSlot(pen);
      hide Holds, Sound, Stream, Sealed, Remnant, Flush, Reading, Grows;
      SlotReplaced(sectors, w, s, Flush(pen).dev.sectors[w]);
    }
  }

  lemma InkByteFirm(pen: Pen, b: byte)
    requires Ready(pen) && !pen.full && Firm(pen)
    ensures Firm(InkByte(pen, b)) && Grows(pen.dev.sectors, InkByte(pen, b).dev.sectors)
  {
    hide Sound, Sealed, Flush;
    var pushed := pen.(tail := pen.tail + [b]);
    if |pushed.tail| < CAP {
      GrowsRefl(pen.dev.sectors);
    } else {
      FlushFirm(pushed);
    }
  }

  lemma {:induction false} InkBytesFirm(pen: Pen, bytes: seq<byte>)
    requires Ready(pen) && Firm(pen)
    ensures Firm(InkBytes(pen, bytes)) && Grows(pen.dev.sectors, InkBytes(pen, bytes).dev.sectors)
    decreases |bytes|
  {
    hide InkByte, Firm, Grows;
    if bytes == [] || pen.full {
      GrowsRefl(pen.dev.sectors);
    } else {
      InkByteFirm(pen, bytes[0]);
      InkBytesFirm(InkByte(pen, bytes[0]), bytes[1..]);
      GrowsChain(pen.dev.sectors, InkByte(pen, bytes[0]).dev.sectors, InkBytes(pen, bytes).dev.sectors);
    }
  }

  /** An append with any failures at all, forgeries included. */
  lemma AppendFirm(pen: Pen, bytes: seq<byte>)
    requires Ready(pen) && Firm(pen)
    ensures Firm(Append(pen, bytes)) && Grows(pen.dev.sectors, Append(pen, bytes).dev.sectors)
  {
    hide Sound, Sealed, InkBytes, Flush, Grows;
    if pen.full {
      GrowsRefl(pen.dev.sectors);
    } else {
      InkBytesFirm(pen, bytes);
      var inked := InkBytes(pen, bytes);
      if !inked.full && inked.tail != [] {
        FlushFirm(inked);
        GrowsChain(pen.dev.sectors, inked.dev.sectors, Flush(inked).dev.sectors);
      }
    }
  }

  // ------------------------------------------------- the hypothesis is exact

  lemma PrefixOfBlock(head: seq<byte>, q: seq<byte>, p: seq<byte>, longer: seq<byte>)
    requires head + p <= longer && |q| <= CAP && (|p| == CAP || longer == head + p)
    ensures head + q <= longer ==> q <= p
  {
    if head + q <= longer {
      assert |q| <= |p|;
      forall i | 0 <= i < |q|
        ensures q[i] == p[i]
      {
        assert (head + q)[|head| + i] == longer[|head| + i] == (head + p)[|head| + i];
      }
    }
  }

  /** A forged tail sector puts something on the disk that was not meant, now or later. */
  lemma SlotForged(sectors: Sectors, w: nat, s: seq<byte>, out: Sector, p: seq<byte>, longer: seq<byte>)
    requires Holds(sectors, w, s) && w < |sectors| && Remnant(out, w) && CAP * w <= |s|
    requires s[..CAP * w] + p <= longer && (|p| == CAP || longer == s[..CAP * w] + p)
    requires !(Reading(out, w) <= p)
    ensures !(Stream(sectors[w := out]) <= longer)
  {
    hide Remnant, Decode, Holds, Sealed, Stream, Reading, Sound;
    Rewrite(sectors, w, s, out);
    var r := Reading(out, w);
    ShapeUnique(sectors[w := out], if |r| == CAP then w + 1 else w, s[..CAP * w] + r);
    PrefixOfBlock(s[..CAP * w], r, p, longer);
  }

  lemma FlushForged(pen: Pen, ideal: seq<byte>, longer: seq<byte>)
    requires Room(pen) && Splits(pen, ideal) && Backed(pen, ideal) && !FlushOk(pen)
    requires ideal <= longer && (|pen.tail| == CAP || longer == ideal)
    ensures Flush(pen).trouble && !(Stream(Flush(pen).dev.sectors) <= longer)
  {
    SlotOf(pen, ideal);
    var sectors, w, s := pen.dev.sectors, pen.sealed, Stream(pen.dev.sectors);
    SlotReading(sectors, w, s);
    SlotRemnant(sectors, w, s);
    FlushOutcome(pen);
    hide Holds, Sound, Stream, Sealed, Remnant, Flush, FlushOk, Reading, Kept;
    SplitAt(ideal, CAP * w);
    SlotForged(sectors, w, s, Flush(pen).dev.sectors[w], pen.tail, longer);
  }

  lemma InkByteForged(pen: Pen, b: byte, ideal: seq<byte>, longer: seq<byte>)
    requires Session(pen, ideal) && !pen.full && !InkByteOk(pen, b) && ideal + [b] <= longer
    ensures InkByte(pen, b).trouble && !(Stream(InkByte(pen, b).dev.sectors) <= longer)
  {
    hide Sound, Stream, Sealed, Flush, FlushOk;
    BackedLonger(pen, ideal, ideal + [b]);
    var pushed := pen.(tail := pen.tail + [b]);
    assert (ideal + [b])[CAP * pen.sealed..] == ideal[CAP * pen.sealed..] + [b];
    FlushForged(pushed, ideal + [b], longer);
  }

  lemma {:induction false} InkBytesForged(pen: Pen, bytes: seq<byte>, ideal: seq<byte>)
    requires Session(pen, ideal) && !InkOk(pen, bytes)
    requires pen.tail == [] ==> Settled(pen, ideal)
    ensures var r := InkBytes(pen, bytes);
            r.trouble && !(Stream(r.dev.sectors) <= Extended(ideal, bytes, |pen.dev.sectors|))
    decreases |bytes|
  {
    hide InkByte, InkByteOk, Backed, Settled, Stream;
    var b, n := bytes[0], |pen.dev.sectors|;
    ExtendedStep(ideal, bytes, n);
    if InkByteOk(pen, b) {
      InkByteKeeps(pen, b, ideal);
      InkBytesForged(InkByte(pen, b), bytes[1..], ideal + [b]);
    } else {
      InkByteForged(pen, b, ideal, Extended(ideal, bytes, n));
      TroubleFreezes(InkByte(pen, b), bytes[1..]);
    }
  }

  /**
   The hypothesis of `AppendKeeps` is exact: the disk holds a prefix of what was meant if and only if no
   write of the append was torn into a forgery.
   */
  lemma AppendExact(pen: Pen, bytes: seq<byte>, ideal: seq<byte>)
    requires Session(pen, ideal) && Settled(pen, ideal)
    ensures AppendOk(pen, bytes)
       <==> Stream(Append(pen, bytes).dev.sectors) <= Extended(ideal, bytes, |pen.dev.sectors|)
  {
    hide Sound, Stream, Sealed, InkBytes, InkOk, Flush, FlushOk;
    if AppendOk(pen, bytes) {
      AppendKeeps(pen, bytes, ideal);
    } else if InkOk(pen, bytes) {
      InkBytesKeeps(pen, bytes, ideal);
      var ideal' := Extended(ideal, bytes, |pen.dev.sectors|);
      FlushForged(InkBytes(pen, bytes), ideal', ideal');
    } else {
      InkBytesForged(pen, bytes, ideal);
      TroubleFlush(InkBytes(pen, bytes));
    }
  }

  lemma TroubleFlush(pen: Pen)
    ensures Room(pen) && pen.trouble ==> Flush(pen) == pen
  {}
}
