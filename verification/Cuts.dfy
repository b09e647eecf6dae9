/**
 What a key costs when its writes do not succeed: exactly when the text typed before it survives, and
 when the key does, for every pattern of failures, retries and power cuts.
 */
module Cuts {
  import opened Bytes
  import opened Record
  import opened Torn
  import opened Device
  import opened DiskShape
  import opened Log
  import opened Utf8
  import opened Separator
  import opened Runs
  import opened Outcomes
  import Exactness

  // ------------------------------------------------- the first record a key writes

  lemma {:induction false} InkWithoutSeal(pen: Pen, bytes: seq<byte>)
    requires Ready(pen) && !pen.full && |pen.tail| + |bytes| < CAP
    ensures InkBytes(pen, bytes) == pen.(tail := pen.tail + bytes)
    decreases |bytes|
  {
    hide Flush;
    if bytes == [] {
      assert pen.tail + bytes == pen.tail;
    } else {
      InkWithoutSeal(InkByte(pen, bytes[0]), bytes[1..]);
      assert (pen.tail + [bytes[0]]) + bytes[1..] == pen.tail + bytes;
    }
  }

  lemma {:induction false} InkConcat(pen: Pen, a: seq<byte>, b: seq<byte>)
    requires Ready(pen)
    ensures InkBytes(pen, a + b) == InkBytes(InkBytes(pen, a), b)
    ensures InkOk(pen, a + b) <==> InkOk(pen, a) && InkOk(InkBytes(pen, a), b)
    decreases |a|
  {
    hide InkByte, InkByteOk;
    if a == [] {
      assert a + b == b;
    } else if !pen.full {
      assert (a + b)[0] == a[0] && (a + b)[1..] == a[1..] + b;
      InkConcat(InkByte(pen, a[0]), a[1..], b);
    }
  }

  /** How many bytes of `d` still go into the current record. */
  function InRecord(pen: Pen, d: seq<byte>): (k: nat)
    requires |pen.tail| < CAP
    ensures k <= |d|
  {
    Min(|d|, CAP - |pen.tail|)
  }

  /** The writer about to write that record. */
  function Pushed(pen: Pen, d: seq<byte>): Pen
    requires |pen.tail| < CAP
  {
    pen.(tail := pen.tail + d[..InRecord(pen, d)])
  }

  /** The writer after that record was sealed. */
  function SealedPen(pen: Pen, d: seq<byte>): (r: Pen)
    requires Ready(pen) && !pen.full
    ensures Ready(r)
  {
    Flush(Pushed(pen, d)).(sealed := pen.sealed + 1, tail := [], full := pen.sealed + 1 == |pen.dev.sectors|)
  }

  /** A key that leaves room in the record is one write. */
  lemma OneWrite(pen: Pen, d: seq<byte>)
    requires Ready(pen) && !pen.full && d != [] && |pen.tail| + |d| < CAP
    ensures Append(pen, d) == Flush(Pushed(pen, d))
    ensures AppendOk(pen, d) <==> FlushOk(Pushed(pen, d))
  {
    InkWithoutSeal(pen, d);
    InkWithoutSealOk(pen, d);
    assert d[..|d|] == d;
    hide Flush, FlushOk, InkBytes, InkOk;
  }

  lemma {:induction false} InkWithoutSealOk(pen: Pen, bytes: seq<byte>)
    requires Ready(pen) && !pen.full && |pen.tail| + |bytes| < CAP
    ensures InkOk(pen, bytes)
    decreases |bytes|
  {
    hide Flush, FlushOk;
    if bytes != [] {
      InkWithoutSealOk(InkByte(pen, bytes[0]), bytes[1..]);
    }
  }

  /** A key that fills the record seals it, and goes on behind it. */
  lemma SealingWrite(pen: Pen, d: seq<byte>)
    requires Ready(pen) && !pen.full && |pen.tail| + |d| >= CAP
    ensures Append(pen, d) == Append(SealedPen(pen, d), d[InRecord(pen, d)..])
    ensures AppendOk(pen, d) <==> FlushOk(Pushed(pen, d)) && AppendOk(SealedPen(pen, d), d[InRecord(pen, d)..])
  {
    hide Flush, FlushOk;
    var k := InRecord(pen, d);
    var init, b, rest := d[..k - 1], d[k - 1], d[k..];
    InkWithoutSeal(pen, init);
    InkWithoutSealOk(pen, init);
    assert d == (init + [b]) + rest && (pen.tail + init) + [b] == pen.tail + d[..k];
    InkConcat(pen, init + [b], rest);
    InkConcat(pen, init, [b]);
    var before := pen.(tail := pen.tail + init);
    assert [b][1..] == [];
    assert InkBytes(before, [b]) == InkBytes(InkByte(before, b), []) == SealedPen(pen, d);
    assert InkOk(before, [b]) <==> InkByteOk(before, b);
    AppendIs(SealedPen(pen, d), rest);
    AppendIs(pen, d);
    hide InkBytes, InkOk, Append, AppendOk;
  }

  /** The formula of `Append` holds for a full writer too. */
  lemma AppendIs(pen: Pen, bytes: seq<byte>)
    requires Ready(pen)
    ensures var inked := InkBytes(pen, bytes);
            && Append(pen, bytes) == (if inked.full || inked.tail == [] then inked else Flush(inked))
            && (AppendOk(pen, bytes) <==>
                  InkOk(pen, bytes) && (inked.full || inked.tail == [] || FlushOk(inked)))
  {
    hide Flush, FlushOk;
    if pen.full {
      assert InkBytes(pen, bytes) == pen;
    }
  }

  // ------------------------------------------------- what its sector reads as

  /** A torn rewrite that adds one to four bytes and forges nothing. */
  lemma TornReading(lba: Lba, old_: Sector, p: seq<byte>, d: seq<byte>, t: Extent)
    requires 1 <= |d| <= 4 && |p| + |d| <= CAP
    requires Remnant(old_, lba) && Reading(old_, lba) == p && !Forges(old_, p + d, t)
    ensures var out, q := Tear(old_, Encode(lba, p + d), t), p + d;
            var r, arrived := Reading(out, lba), Arrived(old_, lba, q, t);
            && Remnant(out, lba) && r <= q && (r == q <==> arrived)
            && (!arrived && t <= 12 ==> r == p)
            && (!arrived && t > 12 ==> (|r| < |p| || r == p == []) && (t >= 14 ==> r == []))
  {
    hide Encode, Tear, Remnant, Forges, Arrived, Decode;
    var q := p + d;
    var out := Tear(old_, Encode(lba, q), t);
    ForgesExact(lba, old_, q, t);
    ArrivedExact(lba, old_, q, t);
    if t <= 12 {
      TearInHeader(lba, old_, q, t);
    } else if Decode(out, lba).Some? {
      TornLength(lba, old_, q, t, Decode(out, lba).value);
      SameLengthPrefix(Reading(out, lba), if |Reading(out, lba)| == |q| then q else Reading(out, lba));
    }
  }

  /** The slot the writer is about to rewrite. */
  lemma TheSlot(pen: Pen, ideal: seq<byte>)
    requires Session(pen, ideal) && Settled(pen, ideal) && !pen.full && !pen.trouble
    ensures pen.sealed < |pen.dev.sectors| <= MAX_SECTORS && Ready(pen)
    ensures Remnant(pen.dev.sectors[pen.sealed], pen.sealed)
    ensures Reading(pen.dev.sectors[pen.sealed], pen.sealed) == pen.tail
    ensures CAP * pen.sealed <= |ideal| && ideal == ideal[..CAP * pen.sealed] + pen.tail
  {
    hide Sound, Stream, Sealed, Remnant, Decode, Reading, Block;
    SoundHolds(pen.dev.sectors);
    SlotReading(pen.dev.sectors, pen.sealed, ideal);
    SlotRemnant(pen.dev.sectors, pen.sealed, ideal);
    SplitAt(ideal, CAP * pen.sealed);
  }

  /** What the slot reads as afterwards decides what the disk holds. */
  lemma SlotStream(pen: Pen, ideal: seq<byte>, out: Sector)
    requires Session(pen, ideal) && Settled(pen, ideal) && !pen.full && !pen.trouble
    requires Remnant(out, pen.sealed)
    ensures pen.sealed < |pen.dev.sectors| && CAP * pen.sealed <= |ideal|
    ensures Sound(pen.dev.sectors[pen.sealed := out])
    ensures Stream(pen.dev.sectors[pen.sealed := out]) == ideal[..CAP * pen.sealed] + Reading(out, pen.sealed)
  {
    hide Sound, Stream, Sealed, Remnant, Decode, Reading, Block;
    var sectors, w := pen.dev.sectors, pen.sealed;
    SoundHolds(sectors);
    Rewrite(sectors, w, ideal, out);
    var r := Reading(out, w);
    ShapeUnique(sectors[w := out], if |r| == CAP then w + 1 else w, ideal[..CAP * w] + r);
    HoldsSound(sectors[w := out], if |r| == CAP then w + 1 else w, ideal[..CAP * w] + r);
  }

  /** How far the attempts at the next write reach. */
  function Reach(pen: Pen): Extent {
    Reached(pen.dev.fates, pen.dev.powered, 3)
  }

  /** All of the first record arrived, or was in the sector already. */
  ghost predicate KeyArrived(pen: Pen, d: seq<byte>)
    requires Room(pen) && |pen.tail| < CAP
  {
    Arrived(pen.dev.sectors[pen.sealed], pen.sealed, Pushed(pen, d).tail, Reach(pen))
  }

  /** The disk after the first write of a key, up to what comes behind that record. */
  lemma FirstWrite(pen: Pen, ideal: seq<byte>, d: seq<byte>) returns (r: seq<byte>)
    requires Session(pen, ideal) && Settled(pen, ideal) && !pen.full && !pen.trouble
    requires 1 <= |d| <= 4 && FlushOk(Pushed(pen, d))
    ensures var first, head := Pushed(pen, d), ideal[..CAP * pen.sealed];
            && |ideal| == CAP * pen.sealed + |pen.tail| && ideal == head + pen.tail
            && Stream(Flush(first).dev.sectors) == head + r && ReadsAs(r, pen, d)
            && (!Flush(first).trouble ==> KeyArrived(pen, d))
  {
    TheSlot(pen, ideal);
    hide Session, Settled, Encode, Tear, Forges, Stream, Remnant, Reading, Arrived, Decode, Retry, Reached;
    var first, old_ := Pushed(pen, d), pen.dev.sectors[pen.sealed];
    var k := InRecord(pen, d);
    RetryTears(pen.dev, pen.sealed, Encode(pen.sealed, first.tail), 3);
    TornReading(pen.sealed, old_, pen.tail, d[..k], Reach(pen));
    var out := Tear(old_, Encode(pen.sealed, first.tail), Reach(pen));
    SlotStream(pen, ideal, out);
    ArrivedAll(pen.sealed, old_, first.tail);
    r := Reading(out, pen.sealed);
  }

  lemma ArrivedAll(lba: Lba, old_: Sector, q: seq<byte>)
    requires |q| <= PAYLOAD_CAPACITY
    ensures Arrived(old_, lba, q, SECTOR_SIZE)
  {}

  /** What `TornReading` says of the first record of a key. */
  ghost predicate ReadsAs(r: seq<byte>, pen: Pen, d: seq<byte>)
    requires Room(pen) && |pen.tail| < CAP
  {
    && r <= Pushed(pen, d).tail && (r == Pushed(pen, d).tail <==> KeyArrived(pen, d))
    && (!KeyArrived(pen, d) && Reach(pen) <= 12 ==> r == pen.tail)
    && (!KeyArrived(pen, d) && Reach(pen) > 12 ==>
          (|r| < |pen.tail| || r == pen.tail == []) && (Reach(pen) >= 14 ==> r == []))
  }

  // ------------------------------------------------- what a key costs

  /** Does the text typed before the key survive it? */
  ghost predicate TextSurvives(pen: Pen, d: seq<byte>)
    requires Room(pen) && |pen.tail| < CAP
  {
    pen.tail == [] || Reach(pen) <= 12 || KeyArrived(pen, d)
  }

  /** The cases of `ReadsAs`, seen from the whole disk. */
  lemma Costs(pen: Pen, head: seq<byte>, d: seq<byte>, r: seq<byte>)
    requires Room(pen) && |pen.tail| < CAP && d != [] && ReadsAs(r, pen, d)
    ensures var ideal, d1, left := head + pen.tail, d[..InRecord(pen, d)], head + r;
            && (ideal <= left <==> TextSurvives(pen, d))
            && (ideal + d1 <= left <==> KeyArrived(pen, d))
            && (KeyArrived(pen, d) ==> left == ideal + d1)
            && (TextSurvives(pen, d) && !KeyArrived(pen, d) ==> left == ideal)
            && (!TextSurvives(pen, d) ==> head <= left && |left| < |ideal| && left <= ideal)
            && (!TextSurvives(pen, d) && Reach(pen) >= 14 ==> left == head)
  {
    hide KeyArrived, Reach;
    var d1 := d[..InRecord(pen, d)];
    assert head + (pen.tail + d1) == (head + pen.tail) + d1;
    if |r| <= |pen.tail| {
      assert r == (pen.tail + d1)[..|r|] == pen.tail[..|r|];
      assert head + r == (head + pen.tail)[..|head + r|];
    }
    if pen.tail == [] && r == [] {
      assert head + r == head == head + pen.tail;
    }
    assert head + [] == head;
  }

  /** Behind a sealed record, the rest of a key only adds to the disk. */
  lemma RestAdds(pen: Pen, ideal: seq<byte>, rest: seq<byte>)
    requires Session(pen, ideal) && Settled(pen, ideal) && pen.tail == [] && AppendOk(pen, rest)
    ensures Stream(pen.dev.sectors) <= Stream(Append(pen, rest).dev.sectors)
    ensures pen.trouble ==> Append(pen, rest).dev == pen.dev
  {
    hide Stream, Sealed, Sound, Append, AppendOk, InkBytes;
    if pen.trouble {
      TroubleFreezes(pen, rest);
    } else {
      AppendKeeps(pen, rest, ideal);
      var a, b := pen.dev.sectors, Append(pen, rest).dev.sectors;
      GrowsStream(a, b);
      hide Grows;
      assert |Stream(a)| == CAP * Sealed(a);
      assert Stream(a) == Stream(a)[..CAP * Sealed(a)] == Stream(b)[..CAP * Sealed(a)];
    }
  }

  /** The writer that sealed a record is in a settled session again. */
  lemma SealedSession(pen: Pen, ideal: seq<byte>, d: seq<byte>)
    requires Session(pen, ideal) && Settled(pen, ideal) && !pen.full && |pen.tail| + |d| >= CAP
    requires FlushOk(Pushed(pen, d))
    ensures var d1 := d[..InRecord(pen, d)];
            Session(SealedPen(pen, d), ideal + d1) && Settled(SealedPen(pen, d), ideal + d1)
  {
    hide Holds, Sound, Stream, Sealed, Flush, FlushOk;
    var d1 := d[..InRecord(pen, d)];
    BackedLonger(pen, ideal, ideal + d1);
    assert (ideal + d1)[CAP * pen.sealed..] == ideal[CAP * pen.sealed..] + d1;
    FlushKeeps(Pushed(pen, d), ideal + d1);
    assert (ideal + d1)[CAP * (pen.sealed + 1)..] == [];
  }

  /**
   What a key costs the writer, for every pattern of failures, retries and power cuts that forges
   nothing: the text before it survives if and only if there was no tail yet, or no attempt got past the
   first twelve bytes, or all of the record it was written into arrived or was there; that record
   survives with what the key adds to it in this last case only; and otherwise the disk falls back into
   the tail, and to the sealed sectors if an attempt got past the length.
   */
  lemma KeyCost(pen: Pen, ideal: seq<byte>, d: seq<byte>)
    requires Session(pen, ideal) && Settled(pen, ideal) && !pen.full && !pen.trouble
    requires 1 <= |d| <= 4 && AppendOk(pen, d)
    ensures var left, d1 := Stream(Append(pen, d).dev.sectors), d[..InRecord(pen, d)];
            && CAP * pen.sealed <= |ideal|
            && (ideal <= left <==> TextSurvives(pen, d))
            && (ideal + d1 <= left <==> KeyArrived(pen, d))
            && (!TextSurvives(pen, d) ==> ideal[..CAP * pen.sealed] <= left < ideal)
            && (!TextSurvives(pen, d) && Reach(pen) >= 14 ==> left == ideal[..CAP * pen.sealed])
            && (|pen.tail| + |d| <= CAP ==>
                  && (left in {ideal, ideal + d} <==> TextSurvives(pen, d))
                  && (left == ideal + d <==> KeyArrived(pen, d)))
  {
    hide Session, Settled, Stream, FlushOk, Flush, Append, AppendOk, KeyArrived, Reach, ReadsAs;
    KeyReady(pen, ideal);
    var d1, rest := d[..InRecord(pen, d)], d[InRecord(pen, d)..];
    if |pen.tail| + |d| < CAP {
      OneWrite(pen, d);
    } else {
      SealingWrite(pen, d);
      SealedSession(pen, ideal, d);
      RestAdds(SealedPen(pen, d), ideal + d1, rest);
      SealedOnDisk(SealedPen(pen, d), ideal + d1);
    }
    var r := FirstWrite(pen, ideal, d);
    var head := ideal[..CAP * pen.sealed];
    Costs(pen, head, d, r);
    if |pen.tail| + |d| == CAP {
      assert rest == [];
      AppendNothing(SealedPen(pen, d));
    }
    assert |pen.tail| + |d| <= CAP ==> d1 == d;
    var left := Stream(Append(pen, d).dev.sectors);
    Behind(ideal, d1, head + r, left, KeyArrived(pen, d));
  }

  lemma AppendNothing(pen: Pen)
    requires Ready(pen) && pen.tail == []
    ensures Append(pen, []) == pen
  {}

  /** Nothing is told apart by what comes behind the first record. */
  lemma Behind(ideal: seq<byte>, d1: seq<byte>, a: seq<byte>, left: seq<byte>, arrived: bool)
    requires ideal + d1 <= a <==> arrived
    requires left == a || (a == ideal + d1 && a <= left)
    ensures ideal + d1 <= left <==> arrived
    ensures ideal <= left <==> ideal <= a
    ensures !arrived ==> left == a
  {
    if a == ideal + d1 && a <= left {
      assert ideal <= ideal + d1;
    }
  }

  lemma SealedOnDisk(pen: Pen, ideal: seq<byte>)
    requires Session(pen, ideal) && Settled(pen, ideal)
    ensures !pen.trouble ==> Stream(pen.dev.sectors) == ideal
  {}

  lemma KeyReady(pen: Pen, ideal: seq<byte>)
    requires Session(pen, ideal) && !pen.full
    ensures Ready(pen) && Room(pen)
  {}

  /**
   A power cut, or failed writes, during a key, on the machine: for every pattern of fates that forges
   nothing, exactly when the text before the key is still on the disk, and when the key is.
   */
  lemma KeystrokeCost(w: World, key: Key)
    requires w.On? && Started(w) && Inv(w) && !w.page.pen.trouble && !w.page.pen.full
    requires Inkable(key).Some? && EventOk(w, Press(key))
    ensures var pen, d := w.page.pen, AsBytes([Inkable(key).value]);
            var left, d1 := Stream(SectorsOf(Step(w, Press(key)))), d[..InRecord(pen, d)];
            && |w.base| <= CAP * |SectorsOf(w)| && CAP * pen.sealed <= |Ideal(w)|
            && (Ideal(w) <= left <==> TextSurvives(pen, d))
            && (Ideal(w) + d1 <= left <==> KeyArrived(pen, d))
            && (!TextSurvives(pen, d) ==> Ideal(w)[..CAP * pen.sealed] <= left < Ideal(w))
            && (!TextSurvives(pen, d) && Reach(pen) >= 14 ==> left == Ideal(w)[..CAP * pen.sealed])
            && (|pen.tail| + |d| <= CAP ==>
                  && (left in {Ideal(w), Ideal(w) + d} <==> TextSurvives(pen, d))
                  && (left == Ideal(w) + d <==> KeyArrived(pen, d)))
  {
    var pen, d := w.page.pen, AsBytes([Inkable(key).value]);
    InkableBytes(key);
    InkSteps(w, Press(key));
    assert Session(pen, Ideal(w)) && Settled(pen, Ideal(w)) && AppendOk(pen, d);
    hide Inv, Session, Settled, Ideal, AsBytes, Stream, Step, Append, AppendOk, Inkable, KeyArrived, Reach,
      TextSurvives;
    KeyCost(pen, Ideal(w), d);
  }

  /**
   The promise that a failure costs at most the key in flight, with nothing assumed: afterwards the disk
   holds the text before the key and nothing that was not meant if and only if no write was torn into a
   forgery and the text survives.
   */
  lemma PromiseExact(w: World, key: Key)
    requires w.On? && Started(w) && Inv(w) && !w.page.pen.trouble && !w.page.pen.full && Inkable(key).Some?
    ensures |w.base| <= CAP * |SectorsOf(w)|
    ensures var pen, d, r := w.page.pen, AsBytes([Inkable(key).value]), Step(w, Press(key));
            r.On? && (Ideal(w) <= Stream(SectorsOf(r)) <= r.base + AsBytes(r.typed)
                      <==> EventOk(w, Press(key)) && TextSurvives(pen, d))
  {
    Exactness.KeyExact(w, key);
    InkSteps(w, Press(key));
    IdealFits(w);
    if EventOk(w, Press(key)) {
      KeystrokeCost(w, key);
    }
    hide Inv, Ideal, Step, Stream, AsBytes, Inkable, EventOk, TextSurvives;
  }

  /** Where the place of the record's last new byte is blank, the key arrives only if some attempt got behind it. */
  lemma KeyArrivedBlank(pen: Pen, d: seq<byte>)
    requires Room(pen) && d != [] && d[|d| - 1] != 0 && |pen.tail| + |d| <= CAP && |pen.tail| < CAP
    requires pen.dev.sectors[pen.sealed][17 + |pen.tail| + |d|] == 0
    ensures KeyArrived(pen, d) <==> Reach(pen) >= 18 + |pen.tail| + |d|
  {
    hide Arrived, Reach;
    assert d[..|d|] == d;
    ArrivedBlank(pen.sealed, pen.dev.sectors[pen.sealed], pen.tail + d, Reach(pen));
  }
}
