/**
 The scroll in memory, as values: what booting, typing and streaming history do to it.
 */
module Pages {
  import opened Bytes
  import opened Record
  import opened Device
  import opened DiskShape
  import opened Log
  import opened Utf8
  import opened LineLayout

  /** Sectors decoded at boot, and sectors per streamed batch. */
  const TAIL_SECTORS: nat := 64
  const CHUNK: nat := 256

  /** History not yet in memory: the payloads of `[0, cursor)`, with `[cursor, end)` still to read. */
  datatype Loading = Loading(prefix: seq<byte>, cursor: nat, end: nat)

  datatype Page = Page(pen: Pen, text: string, layout: Laid, pending: Option<Loading>)

  predicate PageReady(page: Page) {
    && Ready(page.pen)
    && (page.pending.Some? ==> page.pending.value.cursor < page.pending.value.end <= |page.pen.dev.sectors|)
  }

  // ------------------------------------------------- boot

  /** The payloads of `[from, end)`, or nothing if one of them does not decode. */
  function Gather(sectors: Sectors, from: nat, end: nat): (r: Option<seq<byte>>)
    requires from <= end <= |sectors|
    ensures r.Some? && from < end ==>
              && |Reading(sectors[end - 1], end - 1)| <= |r.value|
              && r.value[|r.value| - |Reading(sectors[end - 1], end - 1)|..] == Reading(sectors[end - 1], end - 1)
    decreases end - from
  {
    if from == end then Some([])
    else match Gather(sectors, from, end - 1)
      case None => None
      case Some(bytes) =>
        match Decode(sectors[end - 1], end - 1)
        case None => None
        case Some(payload) => Some(bytes + payload)
  }

  /** Where the window decoded at boot starts. */
  function WindowStart(valid: nat): (first: nat)
    ensures first <= valid
  {
    if valid > TAIL_SECTORS then valid - TAIL_SECTORS else 0
  }

  /** The writer's state recovered from `valid` records whose last `bytes` are at hand. */
  function Recovered(dev: Device, valid: nat, bytes: seq<byte>, lastLen: nat): (pen: Pen)
    requires valid <= |dev.sectors| <= MAX_SECTORS
    requires lastLen <= CAP && lastLen <= |bytes|
    ensures Ready(pen)
  {
    var sealed := if valid == 0 then 0 else if lastLen == CAP then valid else valid - 1;
    var tail := if valid == 0 || lastLen == CAP then [] else bytes[|bytes| - lastLen..];
    Pen(dev, sealed, tail, sealed == |dev.sectors|, false)
  }

  /** `Scroll::load` when every read succeeds; nothing if a record in the window does not decode. */
  function LoadPage(dev: Device, columns: nat): (r: Option<Page>)
    requires |dev.sectors| <= MAX_SECTORS
    ensures r.Some? ==> PageReady(r.value)
  {
    var valid := Search(dev.sectors, 0, |dev.sectors|);
    var first := WindowStart(valid);
    match Gather(dev.sectors, first, valid)
    case None => None
    case Some(bytes) =>
      var lastLen := if first == valid then 0 else |Reading(dev.sectors[valid - 1], valid - 1)|;
      LastLenFits(dev.sectors, first, valid);
      var text := Lossy(bytes);
      Some(Page(Recovered(dev, valid, bytes, lastLen), text, FromText(text, columns),
                if first > 0 then Some(Loading([], 0, first)) else None))
  }

  lemma LastLenFits(sectors: Sectors, from: nat, end: nat)
    requires from <= end <= |sectors|
    ensures from < end ==> |Reading(sectors[end - 1], end - 1)| <= CAP
  {
    if from < end {
      ReadingFits(sectors[end - 1], end - 1);
    }
  }

  lemma {:induction false} GatherStops(sectors: Sectors, from: nat, mid: nat, end: nat)
    requires from <= mid <= end <= |sectors| && Gather(sectors, from, mid) == None
    ensures Gather(sectors, from, end) == None
    decreases end
  {
    hide Decode, Reading;
    if mid < end {
      GatherStops(sectors, from, mid, end - 1);
    }
  }

  lemma GatherNone(sectors: Sectors, from: nat)
    requires from <= |sectors|
    ensures Gather(sectors, from, from) == Some([])
  {}

  lemma GatherStep(sectors: Sectors, from: nat, end: nat)
    requires from <= end < |sectors|
    ensures var record := Decode(sectors[end], end);
            && (record.None? ==> Gather(sectors, from, end + 1) == None)
            && (record.Some? && Gather(sectors, from, end).Some? ==>
                  Gather(sectors, from, end + 1) == Some(Gather(sectors, from, end).value + record.value))
            && (record.Some? ==> Reading(sectors[end], end) == record.value)
  {
    hide Decode;
  }

  lemma LoadPageNone(dev: Device, columns: nat)
    requires |dev.sectors| <= MAX_SECTORS
    ensures var valid := Search(dev.sectors, 0, |dev.sectors|);
            Gather(dev.sectors, WindowStart(valid), valid) == None ==> LoadPage(dev, columns) == None
  {
    hide Gather, Search;
  }

  lemma LoadPageIs(dev: Device, columns: nat, bytes: seq<byte>, lastLen: nat)
    requires |dev.sectors| <= MAX_SECTORS
    requires var valid := Search(dev.sectors, 0, |dev.sectors|);
             var first := WindowStart(valid);
             && Gather(dev.sectors, first, valid) == Some(bytes)
             && lastLen == if first == valid then 0 else |Reading(dev.sectors[valid - 1], valid - 1)|
    ensures var valid := Search(dev.sectors, 0, |dev.sectors|);
            var first := WindowStart(valid);
            && lastLen <= CAP && lastLen <= |bytes|
            && LoadPage(dev, columns) == Some(Page(Recovered(dev, valid, bytes, lastLen), Lossy(bytes),
                                                   FromText(Lossy(bytes), columns),
                                                   if first > 0 then Some(Loading([], 0, first)) else None))
  {
    hide Decode, Gather, Search, Lossy, FromText, Reading, Recovered;
    var valid := Search(dev.sectors, 0, |dev.sectors|);
    LastLenFits(dev.sectors, WindowStart(valid), valid);
  }

  // ------------------------------------------------- typing

  /** `append_raw`: nothing on a full scroll, else memory first and then ink. */
  function AppendPage(page: Page, s: string): (r: Page)
    requires PageReady(page)
    ensures PageReady(r)
  {
    if page.pen.full then page
    else page.(text := page.text + s,
               layout := AdvanceAll(page.layout, |AsBytes(page.text)|, s),
               pen := Append(page.pen, AsBytes(s)))
  }

  // ------------------------------------------------- streaming history

  /** The decoding loop of `pump`: the prefix so far, and whether every sector decoded. */
  function TakeBatch(sectors: Sectors, cursor: nat, count: nat, prefix: seq<byte>): (seq<byte>, bool)
    requires cursor + count <= |sectors|
    decreases count
  {
    if count == 0 then (prefix, true)
    else match Decode(sectors[cursor], cursor)
      case None => (prefix, false)
      case Some(payload) => TakeBatch(sectors, cursor + 1, count - 1, prefix + payload)
  }

  /** `pump`: `None` for an error, else whether the stream just finished. */
  function PumpPage(page: Page, readOk: bool, columns: nat): (r: (Page, Option<bool>))
    requires PageReady(page)
    ensures PageReady(r.0)
  {
    if page.pending.None? then (page, Some(false))
    else
      var l := page.pending.value;
      var count := Min(l.end - l.cursor, CHUNK);
      if !readOk then (page, None)
      else
        var (prefix, ok) := TakeBatch(page.pen.dev.sectors, l.cursor, count, l.prefix);
        if !ok then (page.(pending := Some(l.(prefix := prefix))), None)
        else if l.cursor + count < l.end then
          (page.(pending := Some(Loading(prefix, l.cursor + count, l.end))), Some(false))
        else
          var text := Lossy(prefix + AsBytes(page.text));
          (page.(text := text, layout := FromText(text, columns), pending := None), Some(true))
  }
}
