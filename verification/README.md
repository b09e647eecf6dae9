# The eternal scroll, verified

A Dafny model of the eternal typewriter's storage and page: the 512-byte records on the scroll disk,
the log writer that seals sectors and rewrites one tail, the boot that finds the end of the scroll by
binary search, the idle loop that streams older history in behind the live page, the line layout and
reading window, and the allocator that hands out physical frames. The program's objects are classes
here (`Disk`, `Loader`, `Scroll`, `Layout`, `Typewriter`, `FrameAllocator`), their methods are proved
equal to functions on values, and the theorems are about those functions and about whole runs of the
machine built from them.

`dafny verify dfyconfig.toml` checks everything.

## What is proved

The end-to-end statements are about every run of the machine in `Runs`: any sequence of boots, keys,
idle passes (whose reads may fail) and power cuts, over a zeroed disk, where the hardware may let any
write command succeed, fail, or be cut by a power loss after any number of bytes. They come in two kinds.

What holds with nothing assumed, whatever the writes are torn into (`Runs.SolidRun`): the exact shape of
the disk, sealed sectors, the success of every boot that can read, everything about streaming and
interleaving, the layout cache, the reading offset, what can be read.

What the text on the disk *means* (a prefix of what was meant, markers, and what rests on them) needs one
hypothesis, `RunOk`: no write, all its attempts together, is torn into a forgery, a condition on what the
sector holds, what is being written and how far the attempts reach (`Torn.Forges`). `Exactness.RunExact`
proves that a run satisfies it if and only if at each of its points the disk holds a beginning of what was
meant; `CutRuns.ForgedRun` is a run that does not. `Runs.WholeRunOk` discharges it for every keystroke
while tears stay outside the record's six description bytes.

- *Sealed text is never lost* (`Runs.SealedForever`, `Runs.CrashCostsTail`, `Runs.BootSucceeds`): on every
  run, sealed sectors never change again, and every boot finds them.
- *Crash safety* (`Runs.CrashSafe`): on every run that forges nothing, cutting the power anywhere and
  booting again starts from a prefix of what the session meant to write, which contains every sealed
  sector, and all of it if no write had failed.
- *No luck with the CRC for keystrokes* (`Crc.BurstDetected`, `Record.TornKeystroke`,
  `Keystrokes.KeystrokeSafe`): a keystroke changes at most four consecutive bytes, and CRC-32 detects
  every such change in messages of any length. `Torn.ForgesExact` says, for any write torn at any byte,
  exactly when it does harm, and `Cuts.PromiseExact`, for every pattern of failures, retries and power
  cuts, exactly when the text typed before a key survives it.
- *Streaming commutes with typing* (`Outcomes.InterleavingIrrelevant`, `Outcomes.StreamingEnds`,
  `Runs.StreamingCommutes`): the order in which keys and batches of history interleave leaves no trace.
- *Three attempts* (`Events.RetriesSuffice`, `Device.RetryLands`): a session has no trouble if and only if
  the power stays on and no three write commands fail in a row; everything that fits is then on the disk.
- *The page* (`LineLayout.LayoutMeaning`, `Tiling.LayoutTiles`, `Runs.PageMeaning`): the incremental
  layout is split-at-newlines-then-wrap, at every point of a run, and shows every character once.
- *What one event does* (`Events.CharacterTyped`, `Events.EnterTyped`, `Events.NothingTyped`,
  `Events.BootWindow`, `Events.BootStamps`, `Events.NeverStale`): what a key types, what a boot loads and
  adds, and that the screen is never stale.
- *Exact recovery* (`Recovery.LoadExact`, `Recovery.RebootIdentity`, `Outcomes.ReachableDisk`).
- *What can be read* (`Views.Readable`, `Views.ReaderUndisturbed`): from any point of any run, which
  lines the page keys can show, and when history streaming in does not move what a reader sees.
- *Frames* (`Frames.CallsExact`, `Frames.OverflowExact`): successive calls hand out the enumeration, and
  exactly the memory maps that keep clear of the end of the address space never overflow.

## Where the code and its documentation disagree

The model follows the code.

- `kernel/src/scroll.rs:74-75` says text is decoded only after all payloads are concatenated. At boot
  the last 64 payloads are, but the older ones are decoded separately and a character on that cut
  becomes replacement characters. `Runs.StreamingCommutes` gives the exact condition;
  `Witnesses.WindowLosesDash` is a run in which an em dash is lost that way though nothing ever fails.
- The design document (`docs/superpowers/specs/2026-06-10-eternal-typewriter-design.md:153-154`) says a
  power loss costs at most the keystroke in flight. Take the furthest byte of the key's first record that
  any of its attempts reached. The promise holds if and only if the key's writes forge nothing and one
  of these is so: there was no unsealed tail, that byte is within the first twelve, or all of the record
  arrived or was in the sector before (`Cuts.PromiseExact`; `Torn.CutCost` for one attempt over a record written whole).
  When nothing is forged and it fails, text typed before is lost, and all of the unsealed tail, up to 493
  bytes, once an attempt got past the record's length (`Cuts.KeystrokeCost`); `CutRuns.LostTail` are runs
  that lose it all. `Runs.CrashCostsTail` proves that sealed text never is.
- The same document (lines 149-151) says a torn tail write is always detected.
  `TornHeader.TornDescriptionForges` is one that is not, `CutRuns.ForgedRun` a run in which the next
  boot shows it, and `Torn.ForgesExact` says which are not.
- `kernel/src/main.rs:119` says F12 strips markers the way the extraction script does. What F12 prints is
  what the script recovers if and only if the window decoded at boot did not begin inside a character
  (`Outcomes.DumpExact`); the run of `Witnesses.WindowLosesDash` is one where it did.
- The repository's README promises that Page Up moves through everything written. On a full scroll the
  first line cannot be reached once the text no longer fits above the closing message
  (`Views.Readable`, `Views.FirstLineGone`).
- When the disk fills up in the middle of a string, memory shows text the disk does not have
  (`Outcomes.MemoryAhead` says exactly when, `Witnesses.FullDiskLosesDash` is such a run).

## Layout of the project

| File | Content |
|---|---|
| `Bytes.dfy`, `Crc.dfy`, `Record.dfy`, `Torn.dfy`, `TornHeader.dfy` | numbers in bytes, CRC-32, the record format, which torn records do harm, one that does |
| `Utf8.dfy`, `Markers.dfy`, `Separator.dfy` | encoding and lossy decoding, the separator marker, what may be appended |
| `Device.dfy`, `Disk.dfy`, `Log.dfy`, `Keystrokes.dfy` | write commands and their fates, the shape of a disk, the log writer, appends that need no assumption |
| `Layout.dfy`, `Tiling.dfy`, `Paging.dfy` | the line layout, what it covers, the reading window |
| `Pages.dfy`, `Recovery.dfy` | booting, appending and streaming as functions on values; what a boot recovers |
| `Scroll.dfy`, `Typewriter.dfy` | the objects |
| `Runs.dfy`, `Outcomes.dfy`, `Views.dfy`, `Events.dfy`, `Extraction.dfy` | the machine over whole runs, what that means from outside, what can be read, what one event does, getting text out |
| `Cuts.dfy`, `Exactness.dfy` | what a key costs when its writes fail, why the hypothesis about runs is exact |
| `Witnesses.dfy`, `CutRuns.dfy` | runs that lose a character though nothing fails; runs cut by the power that forge text or lose it |
| `Frames.dfy` | the frame allocator |

## Model

| member | source | states |
|---|---|---|
| Crc.ComputeCrc32 | scroll-core/src/crc.rs:3-13 | the nested loops compute the CRC function that all the theorems below are about |
| Crc.ReadByte | scroll-core/src/crc.rs:6-10 | the inner loop, eight masked shifts, is the byte step of that function |
| Crc.CheckValue | scroll-core/src/crc.rs:19-24 | the nine digits have CRC 0xCBF43926, the published check value |
| Crc.StepLinear | scroll-core/src/crc.rs:8-9 | the bit step distributes over exclusive or |
| Crc.UnstepStep | scroll-core/src/crc.rs:8-9 | the bit step has an inverse, so no state is ever reached from two |
| Crc.RegisterInjective | scroll-core/src/crc.rs:5-11 | after a common suffix of any length two registers are equal only if they were equal before it |
| Crc.WindowInjective | scroll-core/src/crc.rs:5-11 | from one register, two different windows of at most four bytes never lead to the same register |
| Crc.BurstDetected | scroll-core/src/crc.rs:3-13 | messages of any length that differ only inside four consecutive bytes have the same CRC if and only if they are equal |
| Crc.BitwiseIsTable | scroll-core/src/crc.rs:3-13 | on every message, from every register, the bitwise loop equals the byte-table form of section 8 of RFC 1952, the one the extraction script's library uses |
| Crc.Crc32IsTable | scroll-core/src/crc.rs:3-13 | the CRC of every message is the `crc` of section 8 of RFC 1952, conditioning before and after included |
| Record.EncodeSector | scroll-core/src/record.rs:7-16 | filling a zeroed buffer slice by slice gives exactly header, description, payload, zeros |
| Record.DecodeCarries | scroll-core/src/record.rs:19-37 | a sector decodes to a payload if and only if it has that sector's header, that payload's length and CRC, and the payload itself |
| Record.DecodeExact | scroll-core/src/record.rs:7-37 | a sector decodes to p at an LBA if and only if it agrees with the encoding of p there on its first 18 + length bytes |
| Record.WireFormat | scripts/extract.py:18-33 | a sector decodes to p if and only if it is, as an outside reader unpacks it: "ETYP", the sector number in eight bytes, the length of p, at most 494, in two, its CRC in four, least significant byte first, and p |
| Record.RoundTrip | scroll-core/src/record.rs:7-37 | an encoded payload decodes to itself at its own LBA and to nothing at any other |
| Record.ZeroSectorInvalid | scroll-core/src/record.rs:19-22 | a zeroed sector is no record at any LBA |
| Record.TearInHeader | scroll-core/src/record.rs:7-37 | a rewrite stopped in the first twelve bytes leaves the old record, or on a blank sector nothing or an empty record |
| Record.TearInPayload | scroll-core/src/record.rs:7-37 | a rewrite over at most four changed bytes, stopped in the payload, decodes to the new payload if all of it arrived and to nothing otherwise |
| Record.TornKeystroke | scroll-core/src/record.rs:7-37 | both of these together for one keystroke's rewrite, over the record it extends and over a zeroed sector, with nothing assumed about the CRC |
| Torn.CutCost | scroll-core/src/record.rs:7-37 | for every record and every extension by up to 255 bytes not ending in zero, a write torn at any byte reads as the old text or the new one if and only if it stopped within the first twelve bytes or after the last new one |
| Torn.ArrivedExact | scroll-core/src/record.rs:7-37 | over any sector, a write torn at any byte is read as the new record if and only if all it did not reach was there already |
| Torn.KeystrokeSurvives | scroll-core/src/record.rs:7-37 | over any sector the writer may rewrite, the new text survives exactly then, and the old text alone exactly when the write stopped within the first twelve bytes |
| Torn.TornDescription | scroll-core/src/record.rs:11-14 | what any write torn inside length and CRC is read back as, told from the old sector, the payload and the byte |
| Torn.TornPayloadExact | scroll-core/src/record.rs:14-36 | any write torn behind them is read back as the mixed payload if and only if that has the CRC of the new one |
| Torn.ForgesExact | scroll-core/src/record.rs:7-37 | any write of any payload torn at any byte leaves a sector the writer may rewrite, read as a beginning of what was being written if and only if the tear is no forgery, a condition known before the write |
| Torn.BurstForgesNot | scroll-core/src/record.rs:7-37 | over at most four changed bytes no tear outside length and CRC is one |
| TornHeader.TornDescriptionForges | scroll-core/src/record.rs:11-14 | a seven-letter prose for which, at every LBA and for every next byte, such a forgery happens and is read as text nobody typed |
| Utf8.LossyEncode | kernel/src/scroll.rs:76 | decoding the bytes of a string gives the string back |
| Utf8.EncodeLossy | kernel/src/scroll.rs:76 | bytes whose decoding shows no U+FFFD are the encoding of what they decode to |
| Utf8.SpliceExact | kernel/src/scroll.rs:76-117 | decoding two byte strings separately equals decoding them together if and only if the cut between them is not inside a character |
| Utf8.SpliceText | kernel/src/scroll.rs:115-117 | re-encoding text and decoding it again behind any bytes leaves the text as it was and never joins a character of those bytes |
| Markers.EncodeMarked | scroll-core/src/lib.rs:8-11 | a text has its markers only at line starts if and only if its bytes have |
| Markers.LossyMarked | kernel/src/scroll.rs:76 | any byte stream with markers only at line starts, damaged characters included, decodes to such a text |
| Markers.LeadsConcat | scroll-core/src/layout.rs:46-54 | a concatenation has its markers only at line starts if and only if both parts have and the second does not open with one on an open line |
| Separator.BuildSeparator | kernel/src/main.rs:60-83 | the pushes build: the newlines that close what is there, the marker, the stamp, a newline |
| Separator.SeparatorMarked | kernel/src/main.rs:60-83 | for every text and date its only marker leads a line, it opens with that marker only on an empty scroll, and it ends with a newline |
| Separator.SeparatorShape | kernel/src/main.rs:60-83 | what is in front of the header closes an open line and leaves exactly one blank line, and is nothing on an empty scroll; behind the marker stand the stamp and one newline |
| Separator.StampExact | kernel/src/main.rs:73-81 | two dates with valid months have the same stamp only if they are the same date |
| Separator.StampExample | kernel/src/main.rs:70-81 | the stamp of the example in the source, character by character |
| Separator.StampPadded | kernel/src/main.rs:70-81 | and one with a single-digit day, hour and minute: the last two are padded, the day is not |
| Separator.DecimalExact | kernel/src/main.rs:73-81 | a number is written in decimal digits with that value and no leading zero |
| Separator.TwoDigitsExact | kernel/src/main.rs:73-81 | hours and minutes are written with two digits of that value |
| Separator.MonthInTable | kernel/src/rtc.rs:104-115 | the month names are those of the driver's table, and anything else is unknown |
| Separator.InkableExact | kernel/src/main.rs:171-179 | a key makes ink if and only if it is Enter, under codes 10 or 13, or a character that is no control character; Enter makes a newline, the character itself, and none a marker |
| Separator.InkableBytes | kernel/src/main.rs:129-136 | what a key puts on the scroll is one to four bytes, the last of them not zero |
| Device.RetryTears | kernel/src/scroll.rs:165-175 | all tries at a record, however each ends, act as one that stops where the furthest of them did; success means all of it is there |
| Device.RetryLands | kernel/src/scroll.rs:165-175 | the attempts succeed if and only if the power is on and one of them lands with nothing but failures before it; then the sector is stored and no further command is used up |
| Device.RetrySteady | kernel/src/scroll.rs:165-175 | a write succeeds with three attempts and leaves no trouble ahead if and only if no power loss and no three failures in a row lay ahead of it |
| Log.FlushOutcome | kernel/src/scroll.rs:165-175 | after a write the tail sector reads as a beginning of the tail if and only if nothing was forged, and as the tail if there was no trouble; no other sector changed |
| DiskShape.LinearScan | scripts/extract.py:13-33 | the reading loop returns the payloads of the leading valid records and their number |
| DiskShape.ScanEnd | scripts/extract.py:16-33 | every sector before its result is valid and the sector at it is not |
| DiskShape.SearchBoundary | kernel/src/scroll.rs:43-54 | on any disk at all the binary search ends with a valid record before it and none at it |
| DiskShape.SearchIsScan | kernel/src/scroll.rs:43-54 | where valid records form a prefix, the search finds the same count as the one-by-one scan |
| DiskShape.SearchNeedsPrefix | kernel/src/scroll.rs:34-38 | without that they can differ, on a disk of two sectors |
| DiskShape.ShapeUnique | kernel/src/scroll.rs:132-163 | how many sectors are sealed and what the disk holds are determined by the disk |
| DiskShape.Rewrite | kernel/src/scroll.rs:157-162 | writing anything a torn write can leave into the one rewritable sector keeps the disk's shape, and says what it holds then |
| Log.FlushKeeps | kernel/src/scroll.rs:165-175 | one write, however it ends: the disk holds a prefix of what was meant, all of it if no trouble, and no sealed sector changed |
| Log.AppendKeeps | kernel/src/scroll.rs:132-163 | the same for a whole append, across any number of seals and up to the capacity |
| Log.AppendFirm | kernel/src/scroll.rs:132-175 | however its writes end, forgeries included, an append keeps the exact shape of the disk and every sealed sector |
| Log.AppendExact | kernel/src/scroll.rs:132-163 | an append leaves a beginning of what was meant on the disk if and only if none of its writes was torn into a forgery |
| Log.TroubleFreezes | kernel/src/scroll.rs:166-168 | once in trouble, appending changes nothing on the disk |
| Keystrokes.KeystrokeSafe | kernel/src/scroll.rs:122-163 | every keystroke survives every pattern of failures and power cuts whose tears stay outside the six description bytes, also when it seals a sector halfway |
| Keystrokes.HealthyAppend | kernel/src/scroll.rs:132-175 | an append comes out without trouble and with none ahead if and only if no power loss and no three failures in a row lay ahead of it, and then it forges nothing |
| Keystrokes.CapacityConserved | kernel/src/scroll.rs:132-163 | with no power loss and never three failures in a row the disk holds exactly the first 494 n of the bytes offered, and the scroll is full exactly when that many were |
| LineLayout.Layout.constructor | scroll-core/src/layout.rs:20-24 | a new layout is one empty line |
| LineLayout.Layout.Append | scroll-core/src/layout.rs:39-62 | one appended character moves the object by the state machine whose meaning is LayoutMeaning |
| LineLayout.Layout.Rebuild | scroll-core/src/layout.rs:27-35 | rebuilding from a text is appending its characters at their byte offsets |
| LineLayout.Layout.Cursor | scroll-core/src/layout.rs:68-71 | on the layout of any marked text the cursor is on the last declared row, in the column after as many characters as that row has |
| LineLayout.CacheAppend | kernel/src/scroll.rs:136-142 | appending to the layout of a text gives the layout rebuilt from the longer text |
| LineLayout.LayoutMeaning | scroll-core/src/layout.rs:27-62 | for at least one column and markers only at line starts, the spans are: split at newlines, drop the leading marker, cut into rows of that many characters; flags, byte offsets and cursor column included |
| LineLayout.RowsSnoc | scroll-core/src/layout.rs:39-62 | how those declared rows change with one more character: delayed wrap, newline, marker |
| LineLayout.MarkerAnywhere | scroll-core/src/layout.rs:46-54 | behind any text, also one the writer never leaves, a marker starts the open line again behind itself, dimmed, and changes no other line and no column count |
| Tiling.LayoutTiles | scroll-core/src/layout.rs:5-11 | spans are ordered and disjoint, lie on character boundaries, hold at most a row's characters, leave out newlines and leading markers only, and reach the end of the text |
| Tiling.RowsShowAll | scroll-core/src/layout.rs:5-62 | put together, the rows show every printed character once and in order |
| Tiling.HistoryAddsLines | kernel/src/scroll.rs:113-119 | putting text in front never lowers the number of lines |
| Paging.WindowInRange | kernel/src/main.rs:192-196 | the slice of lines drawn is in range and fits the page |
| Paging.PageUpOverlaps | kernel/src/main.rs:102-110 | after PageUp the page ends with the first line of the page before, or, on a full scroll, just above it, or it is the topmost one |
| Paging.PageDownOverlaps | kernel/src/main.rs:111-117 | and after PageDown it starts with the last line of the page before, or just below it, or it is the last one |
| Views.DrawnExact | kernel/src/main.rs:192-196 | the lines drawn are as many as there are rows, one fewer on a full scroll, up to the one as many lines from the end as the reading offset says |
| Views.FirstLineDrawn | kernel/src/main.rs:192-196 | at every point of every run on a full scroll, the first line is drawn if and only if all lines fit above the closing message |
| Views.FirstLineGone | kernel/src/main.rs:97-166 | whatever the run before it, on a full scroll that no longer fits, no keys and no streaming ever draw the first line again |
| Tiling.HistoryMovesLines | kernel/src/scroll.rs:113-119 | text in front of a text moves the lines behind any of its newlines and changes nothing else about them: their number, bytes, flags and the cursor's column |
| Views.ReaderUndisturbed | kernel/src/main.rs:153-206 | however long the machine idles while history streams in and the layout is rebuilt, the rows drawn and the cursor stay the same, as long as the first of them lies behind a newline of the window |
| Views.PagesUp | kernel/src/main.rs:102-110 | from any offset, k presses of PageUp change nothing but the offset, by k times the rows less one, up to the one that shows the first line |
| Views.PagesDown | kernel/src/main.rs:111-117 | k presses of PageDown lower it by as much, down to zero |
| Views.PressesToTop | kernel/src/main.rs:102-110 | from the live end of a scroll that is not full, the first line is on the page after k presses if and only if k times the rows less one is at least the lines less the rows |
| Views.Readable | kernel/src/main.rs:102-117 | from any point of any run, PageUp and PageDown can show a line if and only if the scroll is not full, or it is not the first line, or all lines fit; on a page of one row they do nothing |
| Paging.DownsReachZero | kernel/src/main.rs:111-117 | PageDown gains at least a line a press and ends at the live end |
| Pages.Gather | kernel/src/scroll.rs:57-64 | the bytes gathered end with the payload of the last record |
| Recovery.GatherWindow | kernel/src/scroll.rs:57-64 | on a disk of the right shape the window loop gathers exactly the end of the stream |
| Recovery.TakeExact | kernel/src/scroll.rs:101-108 | a batch is added whole if all its records decode, and otherwise up to the first that does not |
| Recovery.LoadExact | kernel/src/scroll.rs:39-85 | from every disk of that shape a boot succeeds and recovers exactly the sealed count, the tail, the full flag, the text of the last 64 records, its layout, and, if there are more, all records before them as still to stream |
| Recovery.LoadFails | kernel/src/scroll.rs:39-64 | from any disk whatever, a boot that can read fails if and only if one of the last 64 records before the end it found is invalid |
| Recovery.RebootIdentity | kernel/src/scroll.rs:54-84 | after any appends without trouble, loading gives back the same writer, at exact multiples of 494 bytes and on a full disk too |
| Recovery.CrashPrefix | kernel/src/scroll.rs:39-85 | after trouble of any kind the disk holds a prefix of what was meant, sealed sectors included |
| Device.AttemptWrites | kernel/src/ata.rs:154-163 | a write command changes one sector, to some of the new bytes before some of the old; success means all of it is new, and without power nothing changes |
| Scrolls.Disk.WriteSector | kernel/src/ata.rs:154-163 | the same of the object: all other sectors stay, success means the sector is stored, failure that it is torn at some byte |
| Scrolls.Disk.ReadSector | kernel/src/ata.rs:121-126 | a read returns what is stored, or fails |
| Scrolls.Disk.ReadSectors | kernel/src/ata.rs:133-152 | a read of several sectors returns them in order, or fails |
| Scrolls.Loader.Take | kernel/src/scroll.rs:101-108 | decoding a batch extends the prefix sector by sector and stops at the first that is no record, the prefix already extended |
| Scrolls.Scroll.FindEnd | kernel/src/scroll.rs:43-54 | the search loop returns the end SearchBoundary and SearchIsScan speak of; it fails only when a read does |
| Scrolls.Scroll.ReadWindow | kernel/src/scroll.rs:57-64 | the window loop returns the payloads and the last length; it fails only when a read does or a record of the window does not decode |
| Scrolls.Scroll.Load | kernel/src/scroll.rs:39-85 | the loaded object has the value LoadExact speaks of, with all but the last 64 records still to stream |
| Scrolls.Scroll.Write | kernel/src/scroll.rs:165-175 | the sticky flag is set if and only if none of three attempts lands; otherwise the sector is stored; nothing at all is written once it is set |
| Scrolls.Scroll.PushText | kernel/src/scroll.rs:136-142 | the memory half of an append: the text grows by the string, the layout with it |
| Scrolls.Scroll.PushInk | kernel/src/scroll.rs:143-162 | the ink half, byte by byte, up to the seal of the last sector |
| Scrolls.Scroll.AppendStr | kernel/src/scroll.rs:128-163 | an append does both halves, and nothing on a full scroll |
| Scrolls.Scroll.AppendChar | kernel/src/scroll.rs:122-126 | a character is appended as the string of it |
| Scrolls.Scroll.Pump | kernel/src/scroll.rs:95-120 | one batch of up to 256 records: true exactly when the stream has just finished, the only case in which the text changes; false when there was nothing to do or the cursor moved on; an error leaves the cursor in place |
| Typewriters.Typewriter.Boot | kernel/src/main.rs:57-85 | booting is the power-on step of the machine |
| Typewriters.Typewriter.HandleKey | kernel/src/main.rs:101-136 | handling a key is its key step; printable characters and Enter go behind the text, page keys move by the rows less one; it asks for a redraw exactly when it inked or moved, and has changed nothing otherwise |
| Typewriters.Typewriter.IdlePass | kernel/src/main.rs:153-165 | an idle pass is its idle step, a failed read changing nothing; it redraws exactly when the stream has just finished, and text and layout are the same otherwise |
| Typewriters.Typewriter.VisibleLines | kernel/src/main.rs:192-196 | the lines drawn are the window of Paging |
| Runs.HistoryBlock | kernel/src/scroll.rs:101-108 | the sectors still to be streamed hold, whatever was typed since, what they held at boot |
| Runs.PumpExact | kernel/src/scroll.rs:95-120 | so every batch that can be read decodes, and brings exactly the next payloads found at boot; an error is reported only for a failed read, and the end exactly when at most 256 records were left |
| Runs.BootKeeps | kernel/src/scroll.rs:39-85 | every boot from a sound disk succeeds, and its text is empty or ends a line exactly when the disk's stream is or does |
| Runs.SeparatorKeeps | kernel/src/main.rs:59-85 | the boot separator keeps every invariant, on any disk a crash may have left |
| Runs.KeyKeeps | kernel/src/main.rs:129-136 | a key keeps them, however its writes end, as long as none of its torn sectors is a forgery |
| Events.CharacterTyped | kernel/src/main.rs:129-179 | on the machine, every printable character goes behind the text as it is and takes the page to the live end; on a full scroll it does only that |
| Events.EnterTyped | kernel/src/main.rs:129-179 | Enter, under either code, puts a newline behind the text: one more line, empty, behind all others, with the cursor in its first column |
| Events.NothingTyped | kernel/src/main.rs:97-179 | every other key changes nothing at all, but for the two that move the reading offset |
| Events.KeyLands | kernel/src/scroll.rs:122-175 | at any point of any run, a key that neither fills nor crosses a sector brings trouble if and only if none of the next three write commands lands; if one does, and nothing was forged before, its bytes are on the disk behind all there was |
| Events.RetriesSuffice | kernel/src/scroll.rs:122-175 | a session is at each of its points without trouble and with none ahead if and only if its write commands have no power loss and no three failures in a row; then it forges nothing and the disk holds all of its text that fits |
| Events.BootWindow | kernel/src/scroll.rs:39-85 | from any disk a run leaves, a boot shows the text of the last 64 records and what it adds, and has all records before them left to stream |
| Events.BootStamps | kernel/src/main.rs:57-85 | what it adds is the separator for that text if the clock could be read and the scroll is not full, and nothing otherwise |
| Events.NeverStale | kernel/src/main.rs:97-166 | an event after which the page is not drawn again would not have changed it: rows, cursor and trouble mark are the same |
| Runs.IdleKeeps | kernel/src/main.rs:153-165 | an idle pass keeps them and does not touch the disk |
| Runs.StepKeeps | kernel/src/main.rs:57-166 | every event keeps the invariants (disk shape, prefix of the ideal, markers, text, layout cache, reading offset) and every sealed sector |
| Runs.RunKeeps | kernel/src/main.rs:57-166 | so does every run from a zeroed disk |
| Exactness.RunExact | kernel/src/main.rs:57-166 | a run from a zeroed disk forges nothing if and only if at each of its points the disk holds a beginning of what was found at boot and appended since |
| Exactness.StepExact | kernel/src/main.rs:57-166 | and so for each single event, boots with their separators included |
| CutRuns.ForgedRun | kernel/src/scroll.rs:165-175 | on every disk, a run of eight keys, the last write cut after 14 bytes, after which the next boot starts from text nobody typed |
| CutRuns.LostTail | kernel/src/scroll.rs:122-175 | on every disk and for every plain text of up to 492 characters: type it and one more key whose write is cut between the record's description and its last byte; nothing is forged, and the next boot starts from nothing |
| Runs.WholeRunOk | kernel/src/scroll.rs:122-175 | a run whose tears all stay outside length and CRC forges nothing by its keystrokes, only a boot separator could, if its mixed payload happened to have the new CRC |
| Runs.SolidStep | kernel/src/main.rs:57-166 | every event, forged writes included, keeps the disk's exact shape, the history still to be streamed, what the text is made of, the layout cache and the reading offset, and every sealed sector |
| Runs.SolidRun | kernel/src/main.rs:57-166 | so does every run from a zeroed disk, with nothing assumed |
| Runs.BootSucceeds | kernel/src/scroll.rs:39-85 | after every run, a boot that can read succeeds and starts from all the disk holds |
| Runs.SealedForever | kernel/src/scroll.rs:132-163 | whatever is sealed at some point of any run is there, byte for byte, and at the same place of what the disk holds, at every later point |
| Runs.CrashSafe | kernel/src/scroll.rs:39-175 | power cut anywhere in a run, then a boot: it starts from a prefix of what the session meant to write, with all sealed sectors in it, and from all of it if no write had failed |
| Runs.CrashCostsTail | kernel/src/scroll.rs:132-175 | a crash in any event, forged writes included, of a session without trouble before, then a boot: the sealed text is all there, so that at most the unsealed tail and what that event was adding are lost |
| Runs.StreamingCommutes | kernel/src/scroll.rs:74-120 | at every point of every run the layout is the one rebuilt from the text, and when streaming has ended the text is the whole disk as found at boot, decoded at once, followed by what was typed, if and only if the window was not cut inside a character |
| Witnesses.WindowLosesDash | kernel/src/scroll.rs:74-120 | on every disk of 66 sectors or more there are texts which, typed, rebooted and streamed in without any failure, show U+FFFD for an em dash the disk still holds |
| Runs.PageMeaning | kernel/src/scroll.rs:74-142 | at every point of a run that forges nothing the layout is the one rebuilt from the text, means its declared rows, tiles the text and shows all of it |
| Outcomes.ReachableDisk | kernel/src/scroll.rs:34-54 | on every disk any run leaves, forged writes included, valid records are exactly a prefix, all but the last hold 494 bytes, all sectors but one past them are zero, and the search finds their number |
| Outcomes.ReachableExtraction | scripts/extract.py:36-41 | on every disk of a run that forges nothing each marker leads a line, so stripping marker bytes, as the script does, and stripping markers from the decoded text agree |
| Outcomes.DumpExact | kernel/src/main.rs:118-128 | with all history in memory, no failed write and everything fitting, what F12 prints is what the script recovers from the disk, decoded, if and only if the boot window did not begin inside a character |
| Outcomes.PageOnDisk | kernel/src/scroll.rs:74-142 | under the same conditions the page is the disk, decoded, if and only if it did not |
| Outcomes.PageSurvives | kernel/src/main.rs:57-166 | and if it did not, then after the power was off and on, whatever was added at that boot and typed since, and however that was written, once history has streamed in the page is the same text followed by what was added, if and only if the new window does not begin inside a character |
| Outcomes.InterleavingIrrelevant | kernel/src/main.rs:97-166 | from any point of any run, two continuations with the same keys, interleaved differently with idle passes and failed reads, have the same writer and disk, and after streaming the same text and layout |
| Outcomes.StreamingEnds | kernel/src/scroll.rs:95-120 | streaming has ended if and only if enough passes could read, 256 sectors each, however many failed and whatever was typed meanwhile |
| Cuts.KeystrokeCost | kernel/src/scroll.rs:122-175 | for every key and every pattern of failures, retries and power cuts that forges nothing: exactly when the text before the key is still on the disk, exactly when the key's first record is, and what is left otherwise, keys that fill or cross a sector included |
| Cuts.PromiseExact | kernel/src/scroll.rs:122-175 | for every key and every pattern of failures, retries and power cuts: the text before the key is still on the disk, followed by at most a beginning of the key, if and only if nothing was forged and the furthest attempt meets the condition of KeystrokeCost |
| Cuts.KeyArrivedBlank | kernel/src/scroll.rs:157-162 | while the place of the last new byte is blank, that record arrives if and only if some attempt got behind it |
| Outcomes.MemoryAhead | kernel/src/scroll.rs:136-154 | without failed writes the disk holds all of the text in memory if and only if it fits, otherwise its first 494 n bytes, and the scroll is full exactly when none is left |
| Witnesses.FullDiskLosesDash | kernel/src/scroll.rs:136-154 | on every disk of up to 64 sectors, typing until one or two bytes are left and then an em dash puts the dash on the page and its first bytes on the disk, and the next boot shows U+FFFD |
| Outcomes.FullRests | kernel/src/scroll.rs:133-135 | once full, no keys ever change the page or the disk again |
| Outcomes.TroubleLeavesNoGap | kernel/src/scroll.rs:165-175 | once a write has failed three times the disk stays as it is to the end of the session, a prefix of the growing text in memory |
| Outcomes.TypingShowsCursor | kernel/src/main.rs:129-136 | a key that makes ink shows the cursor's line if and only if a row is left for it |
| Extraction.Dump | kernel/src/main.rs:118-128 | the printing loop prints the text without its markers |
| Extraction.DumpIsExtraction | kernel/src/main.rs:118-128 | stripping marker bytes before decoding and marker characters after it agree on every stream with markers only at line starts |
| Extraction.DumpNeedsMarks | scripts/extract.py:40 | without that they can differ: a marker inside a character |
| Frames.AlignUpLeast | kernel/src/memory.rs:43-44 | the aligned address is the least one not below the cursor |
| Frames.MaskIsAlignUp | kernel/src/memory.rs:44 | the bit mask on 64 bits computes that address wherever the addition fits |
| Frames.FramesOfExact | kernel/src/memory.rs:42-48 | the frames enumerated for a region are exactly the aligned ones wholly inside it, ascending |
| Frames.AllFramesExact | kernel/src/memory.rs:16-19 | over all regions exactly those inside usable ones, and none twice when these do not overlap |
| Frames.AllocateExact | kernel/src/memory.rs:34-54 | one call from any position returns the head of what is left and leaves the rest, or finds nothing left, or leaves 64 bits |
| Frames.CallsExact | kernel/src/memory.rs:16-54 | any number of successive calls return the enumerated frames in order, each once, and then nothing for ever |
| Frames.CallsOverflow | kernel/src/memory.rs:43-46 | when a usable region lies too close to the end of the address space, a later call leaves 64 bits, having handed out the right frames before |
| Frames.OverflowExact | kernel/src/memory.rs:43-46 | no call ever leaves 64 bits if and only if every usable region starts two frames and ends more than one frame before the end of the address space |
| Frames.FrameAllocator.constructor | kernel/src/memory.rs:26-31 | for any memory map, a new allocator has the whole enumeration before it |
| Frames.FrameAllocator.AllocateFrame | kernel/src/memory.rs:34-54 | the loop over regions with the bit mask is that call: the next frame, none only if none is left, or an addition that does not fit |

## Left out

- Record.TornKeystroke: covers tears in the first 12 bytes and from byte 18 on; a tear in bytes 12 to 18 can forge a record, Torn.ForgesExact says exactly when, and the theorems about runs have it as their hypothesis that none does.
- Runs.WholeRunOk: the separator's rewrite changes more than four bytes, which CRC-32 does not always tell apart, so that its mixed payloads do not collide stays a hypothesis (`AppendOk`, by `Torn.Forges`).
- Runs.RunKeeps: the disk starts zeroed and has at most 2^28 sectors, the addresses the driver can select; every boot finds a grid of at least one column.
- Runs.StepKeeps: the trouble flag is a static of the kernel, which every boot starts cleared; here it is a field of the scroll, reset by loading.
- Scrolls.Disk.ReadSector: a read fails or returns what is stored; a drive that returns wrong data is not considered, nor a failed multi-sector read that fills part of the buffer, which the caller throws away.
- LineLayout.LayoutMeaning: stated for markers at line starts, what the writer guarantees; Runs.StepKeeps proves it of every text of a run that forges nothing.
- Frames.FrameAllocator.AllocateFrame: what the program does when an addition leaves 64 bits (stop or wrap, by build profile) is one outcome here; the 52-bit limit of physical addresses is a check of a foreign crate.
- Typewriters.Typewriter.HandleKey: one decoded key at a time; the dump on F12 leaves the state alone and its text is Extraction's.
- Port input and output, status polling and identification of the drive (kernel/src/ata.rs): the disk is sectors plus the fates of the coming write commands.
- Interrupts, descriptor tables, page tables, heap, serial port (kernel/src/gdt.rs, interrupts.rs, allocator.rs, serial.rs): hardware and foreign crates.
- Pixels, glyphs, colours, the blinking cursor and the panic page (kernel/src/framebuffer.rs, the rest of render): only which rows of bytes are drawn, dimmed or not, and the cursor's cell are modelled.
- The clock (kernel/src/rtc.rs): a date, or none, is given at boot; only the month names are modelled.
- The scancode ring and decoding (kernel/src/keyboard.rs, the pc-keyboard crate): keys arrive decoded.
- The extraction script's reading from a file and its exit codes: it reads the sectors of a disk.
- Build and demo scripts (build.rs, src/main.rs, scripts): process and file plumbing.
