/**
 Two kinds of append that need no assumption about torn sectors: a keystroke, because the CRC
 detects any change of four bytes, and any append at all while writes succeed.
 */
module Keystrokes {
  import opened Bytes
  import opened Record
  import opened Torn
  import opened Device
  import opened DiskShape
  import opened Log

  /** At most `k` bytes were pushed since the rewritable sector read as `base`. */
  ghost predicate Pending(pen: Pen, base: seq<byte>, k: nat)
    requires Room(pen)
  {
    && base <= pen.tail && |pen.tail| <= |base| + k
    && (base == [] || Decode(pen.dev.sectors[pen.sealed], pen.sealed) == Some(base))
  }

  lemma PendingFlushOk(pen: Pen, base: seq<byte>, k: nat)
    requires Room(pen) && Pending(pen, base, k) && k <= 4 && Whole(pen.dev.fates)
    ensures FlushOk(pen)
  {
    hide Decode, Forges, Reached;
    var d := pen.tail[|base|..];
    assert pen.tail == base + d;
    KeystrokeIsBurst(pen.sealed, pen.dev.sectors[pen.sealed], base, d);
    WholeReached(pen.dev.fates, pen.dev.powered, 3);
    BurstForgesNot(pen.sealed, pen.dev.sectors[pen.sealed], pen.tail, Reached(pen.dev.fates, pen.dev.powered, 3));
  }

  lemma FlushFates(pen: Pen)
    requires Room(pen) && Whole(pen.dev.fates)
    ensures Whole(Flush(pen).dev.fates)
  {
    if !pen.trouble {
      RetryFates(pen.dev, pen.sealed, Encode(pen.sealed, pen.tail), 3);
    }
  }

  lemma InkByteFates(pen: Pen, b: byte)
    requires Ready(pen) && !pen.full && Whole(pen.dev.fates)
    ensures Whole(InkByte(pen, b).dev.fates)
  {
    hide Whole, Flush;
    var pushed := pen.(tail := pen.tail + [b]);
    if |pushed.tail| == CAP {
      FlushFates(pushed);
    }
  }

  /** One byte of a keystroke: its writes survive, and at most `k + 1` bytes are pending after it. */
  lemma KeystrokeByte(pen: Pen, b: byte, base: seq<byte>, k: nat) returns (base': seq<byte>)
    requires Ready(pen) && !pen.full && Pending(pen, base, k) && k < 4 && Whole(pen.dev.fates)
    ensures InkByteOk(pen, b)
    ensures var r := InkByte(pen, b); r.full || Pending(r, base', k + 1)
  {
    hide Decode, Flush, FlushOk;
    var pushed := pen.(tail := pen.tail + [b]);
    if |pushed.tail| == CAP {
      PendingFlushOk(pushed, base, k + 1);
      base' := [];
    } else {
      base' := base;
    }
  }

  lemma {:induction false} KeystrokeBytes(pen: Pen, bytes: seq<byte>, base: seq<byte>, k: nat)
    returns (base': seq<byte>)
    requires Ready(pen) && (pen.full || Pending(pen, base, k))
    requires k + |bytes| <= 4 && Whole(pen.dev.fates)
    ensures InkOk(pen, bytes)
    ensures var r := InkBytes(pen, bytes); Whole(r.dev.fates) && (r.full || Pending(r, base', 4))
    decreases |bytes|
  {
    hide Whole, InkByte, InkByteOk, Decode;
    if bytes == [] || pen.full {
      base' := base;
    } else {
      var next := KeystrokeByte(pen, bytes[0], base, k);
      InkByteFates(pen, bytes[0]);
      base' := KeystrokeBytes(InkByte(pen, bytes[0]), bytes[1..], next, k + 1);
    }
  }

  /** A settled writer has nothing pending. */
  lemma SettledPending(pen: Pen, ideal: seq<byte>)
    requires Session(pen, ideal) && Settled(pen, ideal) && !pen.full && !pen.trouble
    ensures Pending(pen, pen.tail, 0)
  {
    hide Decode;
    SlotOf(pen, ideal);
  }

  lemma {:induction false} TroubleOk(pen: Pen, bytes: seq<byte>)
    requires Ready(pen) && pen.trouble
    ensures InkOk(pen, bytes) && InkBytes(pen, bytes).trouble
    decreases |bytes|
  {
    hide Retry;
    if bytes != [] && !pen.full {
      TroubleOk(InkByte(pen, bytes[0]), bytes[1..]);
    }
  }

  /**
   A keystroke (one character, at most four bytes) survives every failure and power cut whose
   tears stay outside the six description bytes. Nothing is assumed about the CRC.
   */
  lemma KeystrokeSafe(pen: Pen, bytes: seq<byte>, ideal: seq<byte>)
    requires Session(pen, ideal) && Settled(pen, ideal)
    requires |bytes| <= 4 && Whole(pen.dev.fates)
    ensures AppendOk(pen, bytes)
  {
    if pen.trouble {
      TroubleOk(pen, bytes);
    } else if !pen.full {
      SettledPending(pen, ideal);
      hide Session, Settled, InkOk, InkBytes, FlushOk, Pending, Whole;
      var base := KeystrokeBytes(pen, bytes, pen.tail, 0);
      var inked := InkBytes(pen, bytes);
      if !inked.full && inked.tail != [] {
        PendingFlushOk(inked, base, 4);
      }
    }
  }

  lemma {:induction false} InkBytesFates(pen: Pen, bytes: seq<byte>)
    requires Ready(pen) && Whole(pen.dev.fates)
    ensures Whole(InkBytes(pen, bytes).dev.fates)
    decreases |bytes|
  {
    hide Whole, InkByte;
    if bytes != [] && !pen.full {
      InkByteFates(pen, bytes[0]);
      InkBytesFates(InkByte(pen, bytes[0]), bytes[1..]);
    }
  }

  lemma AppendFates(pen: Pen, bytes: seq<byte>)
    requires Ready(pen) && Whole(pen.dev.fates)
    ensures Whole(Append(pen, bytes).dev.fates)
  {
    hide Whole, InkBytes, Flush;
    InkBytesFates(pen, bytes);
    if !pen.full {
      var inked := InkBytes(pen, bytes);
      if !inked.full && inked.tail != [] {
        FlushFates(inked);
      }
    }
  }

  // ------------------------------------------------- while writes succeed

  /** The power is on, there has been no trouble, and no write will fail three times. */
  ghost predicate Healthy(pen: Pen) {
    !pen.trouble && pen.dev.powered && Steady(pen.dev.fates)
  }

  lemma HealthyFlush(pen: Pen)
    requires Room(pen)
    ensures Healthy(Flush(pen)) <==> Healthy(pen)
    ensures Healthy(pen) ==> FlushOk(pen)
  {
    RetrySteady(pen.dev, pen.sealed, Encode(pen.sealed, pen.tail));
    hide Encode, Retry, Steady;
  }

  lemma HealthyByte(pen: Pen, b: byte)
    requires Ready(pen) && !pen.full
    ensures Healthy(InkByte(pen, b)) <==> Healthy(pen)
    ensures Healthy(pen) ==> InkByteOk(pen, b)
  {
    hide Flush, FlushOk, Steady;
    var pushed := pen.(tail := pen.tail + [b]);
    if |pushed.tail| == CAP {
      HealthyFlush(pushed);
    }
  }

  lemma {:induction false} HealthyBytes(pen: Pen, bytes: seq<byte>)
    requires Ready(pen)
    ensures Healthy(InkBytes(pen, bytes)) <==> Healthy(pen)
    ensures Healthy(pen) ==> InkOk(pen, bytes)
    decreases |bytes|
  {
    hide Healthy, InkByte, InkByteOk;
    if bytes != [] && !pen.full {
      HealthyByte(pen, bytes[0]);
      HealthyBytes(InkByte(pen, bytes[0]), bytes[1..]);
    }
  }

  /**
   An append keeps a healthy writer healthy and a doomed one doomed: it comes out without trouble, and
   with no trouble ahead, if and only if no three failures in a row and no power loss lay before it.
   */
  lemma HealthyAppend(pen: Pen, bytes: seq<byte>)
    requires Ready(pen)
    ensures Healthy(Append(pen, bytes)) <==> Healthy(pen)
    ensures Healthy(pen) ==> AppendOk(pen, bytes)
  {
    hide Healthy, InkOk, InkBytes, Flush, FlushOk;
    if !pen.full {
      HealthyBytes(pen, bytes);
      var inked := InkBytes(pen, bytes);
      if !inked.full && inked.tail != [] {
        HealthyFlush(inked);
      }
    }
  }

  // ------------------------------------------------- capacity

  function AppendAll(pen: Pen, chunks: seq<seq<byte>>): (r: Pen)
    requires Ready(pen)
    ensures Ready(r)
  {
    if chunks == [] then pen else Append(AppendAll(pen, chunks[..|chunks| - 1]), chunks[|chunks| - 1])
  }

  function Flat(chunks: seq<seq<byte>>): seq<byte> {
    if chunks == [] then [] else Flat(chunks[..|chunks| - 1]) + chunks[|chunks| - 1]
  }

  function FreshPen(n: nat, fates: seq<Fate>): Pen {
    Pen(Device(seq(n, i => Zeros(SECTOR_SIZE)), fates, true), 0, [], n == 0, false)
  }

  lemma FreshSession(n: nat, fates: seq<Fate>)
    requires n <= MAX_SECTORS
    ensures Session(FreshPen(n, fates), []) && Settled(FreshPen(n, fates), [])
  {
    ZeroedHolds(n);
    ShapeUnique(FreshPen(n, fates).dev.sectors, 0, []);
  }

  lemma ExtendedTwice(a: seq<byte>, b: seq<byte>, n: nat)
    ensures Extended(Extended([], a, n), b, n) == Extended([], a + b, n)
  {}

  /**
   With no power loss and never three failures in a row, from an empty disk: the disk holds exactly the
   first 494 n of the bytes offered, and the scroll is full exactly when that many were offered.
   */
  lemma {:induction false} CapacityConserved(n: nat, fates: seq<Fate>, chunks: seq<seq<byte>>)
    requires n <= MAX_SECTORS && Steady(fates)
    ensures var pen, offered := AppendAll(FreshPen(n, fates), chunks), Flat(chunks);
            && |pen.dev.sectors| == n && Healthy(pen)
            && Session(pen, Extended([], offered, n))
            && Stream(pen.dev.sectors) == offered[..Min(|offered|, 494 * n)]
            && (pen.full <==> |offered| >= 494 * n)
    decreases |chunks|
  {
    hide Append, AppendOk, Backed, Stream, Steady;
    var pen := AppendAll(FreshPen(n, fates), chunks);
    FreshSession(n, fates);
    if chunks == [] {
      assert Extended([], [], n) == [];
    } else {
      var init, last := chunks[..|chunks| - 1], chunks[|chunks| - 1];
      CapacityConserved(n, fates, init);
      var before := AppendAll(FreshPen(n, fates), init);
      HealthyAppend(before, last);
      AppendKeeps(before, last, Extended([], Flat(init), n));
      ExtendedTwice(Flat(init), last, n);
    }
  }
}
