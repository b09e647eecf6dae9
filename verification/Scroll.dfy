/**
 The objects: the disk, the history loader and the scroll, with the methods of the driver proved
 against the value-level functions of `Pages`.
 */
module Scrolls {
  import opened Bytes
  import opened Record
  import opened Device
  import opened DiskShape
  import opened Log
  import opened Utf8
  import opened LineLayout
  import opened Pages

  /** The ATA disk. A reliable one never fails to identify itself or to read. */
  class Disk {
    var dev: Device
    const reliable: bool

    constructor (dev: Device, reliable: bool)
      ensures this.dev == dev && this.reliable == reliable
    {
      this.dev := dev;
      this.reliable := reliable;
    }

    method Identify() returns (total: Option<nat>)
      ensures total == Some(|dev.sectors|) || (total == None && !reliable)
    {
      total := Some(|dev.sectors|);
      if !reliable {
        if * {
          total := None;
        }
      }
    }

    method ReadSector(lba: nat) returns (sector: Option<Sector>)
      requires lba < |dev.sectors|
      ensures sector == Some(dev.sectors[lba]) || (sector == None && !reliable)
    {
      sector := Some(dev.sectors[lba]);
      if !reliable {
        if * {
          sector := None;
        }
      }
    }

    method ReadSectors(lba: nat, count: nat) returns (batch: Option<seq<Sector>>)
      requires 1 <= count <= 256 && lba + count <= |dev.sectors|
      ensures batch == Some(dev.sectors[lba..lba + count]) || (batch == None && !reliable)
    {
      batch := Some(dev.sectors[lba..lba + count]);
      if !reliable {
        if * {
          batch := None;
        }
      }
    }

    method WriteSector(lba: nat, sector: Sector) returns (ok: bool)
      requires lba < |dev.sectors|
      modifies this
      ensures (dev, ok) == Attempt(old(dev), lba, sector)
      ensures exists t: Extent :: Written(old(dev), dev, lba, sector, ok, t)
      ensures ok ==> dev.sectors[lba] == sector
      ensures forall i :: 0 <= i < |dev.sectors| && i != lba ==> dev.sectors[i] == old(dev).sectors[i]
    {
      ghost var t := AttemptWrites(dev, lba, sector);
      var (after, done) := Attempt(dev, lba, sector);
      dev, ok := after, done;
    }
  }

  class Loader {
    var prefix: seq<byte>
    var cursor: nat
    var end: nat

    constructor (end: nat)
      ensures prefix == [] && cursor == 0 && this.end == end
    {
      prefix, cursor := [], 0;
      this.end := end;
    }

    ghost function Value(): Loading
      reads this
    {
      Loading(prefix, cursor, end)
    }

    /** The decoding loop of `pump`: the prefix grows before the cursor moves, even when a sector fails. */
    method Take(ghost sectors: Sectors, batch: seq<Sector>) returns (ok: bool)
      requires cursor + |batch| <= |sectors| && batch == sectors[cursor..cursor + |batch|]
      modifies this`prefix
      ensures (prefix, ok) == TakeBatch(sectors, cursor, |batch|, old(prefix))
      ensures old(prefix) <= prefix
    {
      hide Decode;
      for i := 0 to |batch|
        invariant old(prefix) <= prefix
        invariant TakeBatch(sectors, cursor + i, |batch| - i, prefix)
               == TakeBatch(sectors, cursor, |batch|, old(prefix))
      {
        var payload := Decode(batch[i], cursor + i);
        if payload.None? {
          return false;
        }
        prefix := prefix + payload.value;
      }
      return true;
    }
  }

  class Scroll {
    const disk: Disk
    var text: string
    var layout: Layout
    var sealed: nat
    var tail: seq<byte>
    var totalSectors: nat
    var full: bool
    var pending: Loader?
    /** `WRITE_TROUBLE`: never cleared until the next boot. */
    var writeTrouble: bool

    ghost function Footprint(): set<object?>
      reads this
    {
      {this, disk, layout, pending}
    }

    ghost function ThePen(): Pen
      reads this, disk
    {
      Pen(disk.dev, sealed, tail, full, writeTrouble)
    }

    ghost function History(): Option<Loading>
      reads this, pending
    {
      if pending == null then None else Some(pending.Value())
    }

    ghost predicate Valid()
      reads this, disk, layout, pending
    {
      && layout.Valid()
      && totalSectors == |disk.dev.sectors|
      && PageReady(Page(ThePen(), text, Blank(0), History()))
    }

    ghost function Value(): Page
      reads this, disk, layout, pending
      requires Valid()
    {
      Page(ThePen(), text, layout.Value(), History())
    }

    constructor FromParts(disk: Disk, text: string, layout: Layout, sealed: nat, tail: seq<byte>, totalSectors: nat,
                          full: bool, pending: Loader?)
      ensures this.disk == disk && this.text == text && this.layout == layout && this.sealed == sealed
      ensures this.tail == tail && this.totalSectors == totalSectors && this.full == full
      ensures this.pending == pending && !writeTrouble
    {
      this.disk := disk;
      this.text := text;
      this.layout := layout;
      this.sealed := sealed;
      this.tail := tail;
      this.totalSectors := totalSectors;
      this.full := full;
      this.pending := pending;
      this.writeTrouble := false;
    }

    /** The binary search of `load`; `None` when a read fails. */
    static method FindEnd(disk: Disk) returns (end: Option<nat>)
      requires |disk.dev.sectors| <= MAX_SECTORS
      ensures end.Some? ==> end.value == Search(disk.dev.sectors, 0, |disk.dev.sectors|)
      ensures end.None? ==> !disk.reliable
    {
      hide Decode;
      var lo: nat, hi: nat := 0, |disk.dev.sectors|;
      while lo < hi
        invariant lo <= hi <= |disk.dev.sectors|
        invariant Search(disk.dev.sectors, lo, hi) == Search(disk.dev.sectors, 0, |disk.dev.sectors|)
      {
        var mid := lo + (hi - lo) / 2;
        var sector := disk.ReadSector(mid);
        if sector.None? {
          return None;
        }
        if Decode(sector.value, mid).Some? {
          lo := mid + 1;
        } else {
          hi := mid;
        }
      }
      return Some(lo);
    }

    /** The window loop of `load`: the payloads of `[first, valid)` and the length of the last. */
    static method ReadWindow(disk: Disk, first: nat, valid: nat) returns (bytes: Option<seq<byte>>, lastLen: nat)
      requires first <= valid <= |disk.dev.sectors| <= MAX_SECTORS
      ensures bytes.Some? ==> bytes == Gather(disk.dev.sectors, first, valid)
      ensures bytes.Some? ==> lastLen == if first == valid then 0 else |Reading(disk.dev.sectors[valid - 1], valid - 1)|
      ensures bytes.None? ==> !disk.reliable || Gather(disk.dev.sectors, first, valid) == None
    {
      hide Decode, Gather, Reading;
      ghost var sectors := disk.dev.sectors;
      GatherNone(sectors, first);
      var gathered: seq<byte> := [];
      lastLen := 0;
      for lba := first to valid
        invariant disk.dev.sectors == sectors
        invariant Gather(sectors, first, lba) == Some(gathered)
        invariant lastLen == if first == lba then 0 else |Reading(sectors[lba - 1], lba - 1)|
      {
        var sector := disk.ReadSector(lba);
        if sector.None? {
          return None, 0;
        }
        var payload := Decode(sector.value, lba);
        GatherStep(sectors, first, lba);
        if payload.None? {
          GatherStops(sectors, first, lba + 1, valid);
          return None, 0;
        }
        lastLen := |payload.value|;
        gathered := gathered + payload.value;
      }
      bytes := Some(gathered);
    }

    /** The sealed count and the tail, out of the last record. */
    static method SplitTail(ghost dev: Device, valid: nat, bytes: seq<byte>, lastLen: nat)
      returns (sealed: nat, tail: seq<byte>)
      requires valid <= |dev.sectors| <= MAX_SECTORS
      requires lastLen <= CAP && lastLen <= |bytes|
      ensures Pen(dev, sealed, tail, sealed == |dev.sectors|, false) == Recovered(dev, valid, bytes, lastLen)
    {
      if valid == 0 {
        sealed, tail := 0, [];
      } else if lastLen == PAYLOAD_CAPACITY {
        sealed, tail := valid, [];
      } else {
        sealed, tail := valid - 1, bytes[|bytes| - lastLen..];
      }
    }

    /** `Scroll::load`: an error when a read fails or a record of the window does not decode. */
    static method Load(disk: Disk, columns: nat) returns (r: Option<Scroll>)
      requires |disk.dev.sectors| <= MAX_SECTORS
      ensures r.Some? ==>
                && fresh(r.value.Footprint() - {disk, null}) && r.value.disk == disk
                && r.value.Valid() && LoadPage(disk.dev, columns) == Some(r.value.Value())
                && var valid := Search(disk.dev.sectors, 0, |disk.dev.sectors|);
                   r.value.History() == if valid > 64 then Some(Loading([], 0, valid - 64)) else None
      ensures r.None? ==> !disk.reliable || LoadPage(disk.dev, columns) == None
    {
      hide Decode, Gather, Search, Lossy, FromText, LoadPage, Reading, Recovered;
      var total := disk.Identify();
      if total.None? {
        return None;
      }
      var end := FindEnd(disk);
      if end.None? {
        return None;
      }
      var valid := end.value;
      var first := if valid > TAIL_SECTORS then valid - TAIL_SECTORS else 0;
      var bytes, lastLen := ReadWindow(disk, first, valid);
      if bytes.None? {
        LoadPageNone(disk.dev, columns);
        return None;
      }
      LoadPageIs(disk.dev, columns, bytes.value, lastLen);
      var scroll := Assemble(disk, columns, valid, first, bytes.value, lastLen);
      r := Some(scroll);
    }

    /** The scroll built from what `load` read. */
    static method Assemble(disk: Disk, columns: nat, valid: nat, first: nat, bytes: seq<byte>, lastLen: nat)
      returns (scroll: Scroll)
      requires first <= valid <= |disk.dev.sectors| <= MAX_SECTORS
      requires lastLen <= CAP && lastLen <= |bytes|
      ensures fresh(scroll.Footprint() - {disk, null}) && scroll.disk == disk && scroll.Valid()
      ensures scroll.Value() == Page(Recovered(disk.dev, valid, bytes, lastLen), Lossy(bytes),
                                     FromText(Lossy(bytes), columns),
                                     if first > 0 then Some(Loading([], 0, first)) else None)
    {
      hide Lossy, FromText, Recovered;
      var sealed, tail := SplitTail(disk.dev, valid, bytes, lastLen);
      var text := Lossy(bytes);
      var layout := Layout.Rebuild(text, columns);
      var full := sealed == |disk.dev.sectors|;
      var pending: Loader? := null;
      if first > 0 {
        pending := new Loader(first);
      }
      scroll := new Scroll.FromParts(disk, text, layout, sealed, tail, |disk.dev.sectors|, full, pending);
      assert scroll.ThePen() == Recovered(disk.dev, valid, bytes, lastLen);
    }

    /** `write`: trouble, and for good, if and only if none of three attempts lands. */
    method Write(lba: nat, sector: Sector)
      requires lba < |disk.dev.sectors|
      modifies this`writeTrouble, disk
      ensures old(writeTrouble) ==> writeTrouble && disk.dev == old(disk.dev)
      ensures !old(writeTrouble) ==> (disk.dev, !writeTrouble) == Retry(old(disk.dev), lba, sector, 3)
      ensures !old(writeTrouble) ==> (writeTrouble <==> !Lands(old(disk.dev.fates), old(disk.dev.powered), 3))
      ensures !writeTrouble ==> disk.dev.sectors == old(disk.dev.sectors)[lba := sector]
    {
      if writeTrouble {
        return;
      }
      RetryLands(disk.dev, lba, sector, 3);
      hide Attempt, LandsAt;
      for attempt := 0 to 3
        invariant !writeTrouble && |disk.dev.sectors| == |old(disk.dev).sectors|
        invariant Retry(disk.dev, lba, sector, 3 - attempt) == Retry(old(disk.dev), lba, sector, 3)
      {
        var ok := disk.WriteSector(lba, sector);
        if ok {
          return;
        }
      }
      writeTrouble := true;
    }

    /** The memory half of `append_raw`. */
    method PushText(s: string)
      requires Valid()
      modifies this`text, layout
      ensures Valid()
      ensures text == old(text) + s
      ensures layout.Value() == AdvanceAll(old(layout.Value()), |AsBytes(old(text))|, s)
      ensures layout == old(layout)
    {
      hide Advance, AsBytes;
      for i := 0 to |s|
        invariant Valid() && text == old(text) + s[..i]
        invariant AdvanceAll(layout.Value(), |AsBytes(text)|, s[i..])
               == AdvanceAll(old(layout.Value()), |AsBytes(old(text))|, s)
      {
        var offset := |AsBytes(text)|;
        assert s[i..][0] == s[i] && s[i..][1..] == s[i + 1..];
        EncodedPush(text, s[i]);
        text := text + [s[i]];
        layout.Append(offset, s[i]);
        assert s[..i + 1] == s[..i] + [s[i]];
      }
      assert s[|s|..] == "" && s[..|s|] == s;
    }

    /** `write(sealed, encode(sealed, tail))` */
    method FlushTail()
      requires totalSectors == |disk.dev.sectors| && Room(ThePen())
      modifies this`writeTrouble, disk
      ensures ThePen() == Flush(old(ThePen()))
    {
      hide Retry;
      var sector := EncodeSector(sealed, tail);
      Write(sealed, sector[..]);
    }

    /** The body of the byte loop of `append_raw`. */
    method PushByte(byte: byte)
      requires totalSectors == |disk.dev.sectors| && Ready(ThePen()) && !full
      modifies this`sealed, this`tail, this`full, this`writeTrouble, disk
      ensures ThePen() == InkByte(old(ThePen()), byte)
    {
      hide Flush;
      tail := tail + [byte];
      if |tail| == PAYLOAD_CAPACITY {
        FlushTail();
        sealed := sealed + 1;
        tail := [];
        if sealed == totalSectors {
          full := true;
        }
      }
    }

    /** The ink half of `append_raw`: byte by byte, so that a character may split across sectors. */
    method PushInk(bytes: seq<byte>)
      requires totalSectors == |disk.dev.sectors| && Ready(ThePen()) && !full
      modifies this`sealed, this`tail, this`full, this`writeTrouble, disk
      ensures ThePen() == Append(old(ThePen()), bytes)
    {
      hide InkByte, Flush;
      for i := 0 to |bytes|
        invariant totalSectors == |disk.dev.sectors| && Ready(ThePen()) && !full
        invariant |disk.dev.sectors| == |old(disk.dev).sectors|
        invariant InkBytes(ThePen(), bytes[i..]) == InkBytes(old(ThePen()), bytes)
      {
        assert bytes[i..][0] == bytes[i] && bytes[i..][1..] == bytes[i + 1..];
        PushByte(bytes[i]);
        if full {
          return;
        }
      }
      assert bytes[|bytes|..] == [];
      if tail != [] {
        FlushTail();
      }
    }

    /** `append_str`, `append_char`, and the `append_raw` behind both. */
    method AppendStr(s: string)
      requires Valid()
      modifies this, layout, disk
      ensures Valid() && layout == old(layout) && pending == old(pending)
      ensures Value() == AppendPage(old(Value()), s)
    {
      if full {
        return;
      }
      hide Append, AdvanceAll, AsBytes;
      PushText(s);
      PushInk(AsBytes(s));
    }

    method AppendChar(ch: char)
      requires Valid()
      modifies this, layout, disk
      ensures Valid() && layout == old(layout) && pending == old(pending)
      ensures Value() == AppendPage(old(Value()), [ch])
    {
      AppendStr([ch]);
    }

    /**
     `pump`: an error leaves the cursor where it was, so that the batch is read again. The result tells
     whether the stream has just finished, the one case in which the text changes.
     */
    method Pump(columns: nat) returns (r: Option<bool>)
      requires Valid()
      modifies this, pending
      ensures r == Some(true) <==> old(pending) != null && pending == null
      ensures r != Some(true) ==> text == old(text) && layout == old(layout) && pending == old(pending)
      ensures r == Some(true) ==> old(History()).value.end <= old(History()).value.cursor + 256
      ensures r == Some(false) ==>
                History() == old(History()) == None
                || (&& pending != null && pending.cursor == old(History()).value.cursor + 256 < pending.end
                    && pending.end == old(History()).value.end)
      ensures r == None ==>
                && pending != null && pending.cursor == old(History()).value.cursor
                && pending.end == old(History()).value.end && old(History()).value.prefix <= pending.prefix
      ensures Valid() && (layout == old(layout) || fresh(layout)) && (pending == old(pending) || pending == null)
      ensures (Value(), r) == PumpPage(old(Value()), true, columns)
           || ((Value(), r) == PumpPage(old(Value()), false, columns) && !disk.reliable)
    {
      hide Decode, Lossy, FromText, AsBytes, TakeBatch;
      if pending == null {
        return Some(false);
      }
      var loader := pending;
      var count := Min(loader.end - loader.cursor, CHUNK);
      var batch := disk.ReadSectors(loader.cursor, count);
      if batch.None? {
        return None;
      }
      var ok := loader.Take(disk.dev.sectors, batch.value);
      if !ok {
        return None;
      }
      if loader.cursor + count < loader.end {
        loader.cursor := loader.cursor + count;
        return Some(false);
      }
      pending := null;
      var all := loader.prefix + AsBytes(text);
      text := Lossy(all);
      layout := Layout.Rebuild(text, columns);
      return Some(true);
    }
  }

  lemma EncodedPush(text: string, c: char)
    ensures |AsBytes(text + [c])| == |AsBytes(text)| + Width(c)
  {
    EncodeConcat(text, [c]);
    assert [c][1..] == "";
  }
}
