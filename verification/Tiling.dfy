/**
 What the spans of a layout cover: all of the prose once, in order, cut only at character
 boundaries; and how the number of lines behaves when history is put in front.
 */
module Tiling {
  import opened Bytes
  import opened Utf8
  import opened Markers
  import opened LineLayout

  // ------------------------------------------------- rows tile the characters

  /** Between two rows stands nothing, a newline, or a newline and a marker. */
  ghost predicate GapOk(text: string, a: nat, b: nat) {
    a <= b <= |text| && (text[a..b] == "" || text[a..b] == [NEWLINE] || text[a..b] == [NEWLINE, MARKER])
  }

  lemma Gaps(text: string, a: nat)
    requires a <= |text|
    ensures GapOk(text, a, a)
    ensures a < |text| && text[a] == NEWLINE ==> GapOk(text, a, a + 1)
    ensures a + 1 < |text| && text[a] == NEWLINE && text[a + 1] == MARKER ==> GapOk(text, a, a + 2)
  {
    assert text[a..a] == "";
    if a < |text| && text[a] == NEWLINE {
      assert text[a..a + 1] == [NEWLINE];
      if a + 1 < |text| && text[a + 1] == MARKER {
        assert text[a..a + 2] == [NEWLINE, MARKER];
      }
    }
  }

  ghost predicate Linked(text: string, rows: seq<Row>) {
    forall k {:trigger rows[k]} :: 0 <= k < |rows| - 1 ==> GapOk(text, rows[k].until, rows[k + 1].from)
  }

  ghost predicate Fitting(text: string, rows: seq<Row>, columns: nat) {
    forall k {:trigger rows[k]} :: 0 <= k < |rows| ==>
      rows[k].from <= rows[k].until <= Min(|text|, rows[k].from + columns)
  }

  ghost predicate Tiles(text: string, rows: seq<Row>, columns: nat) {
    rows != [] && Linked(text, rows) && Fitting(text, rows, columns)
  }

  lemma TilesConcat(text: string, a: seq<Row>, b: seq<Row>, columns: nat)
    requires Tiles(text, a, columns) && Tiles(text, b, columns)
    requires GapOk(text, a[|a| - 1].until, b[0].from)
    ensures Tiles(text, a + b, columns)
  {
    var ab := a + b;
    forall k | 0 <= k < |ab| - 1
      ensures GapOk(text, ab[k].until, ab[k + 1].from)
    {
      if k >= |a| {
        assert ab[k] == b[k - |a|];
      }
    }
  }

  lemma TilesOne(text: string, row: Row, columns: nat)
    requires row.from <= row.until <= Min(|text|, row.from + columns)
    ensures Tiles(text, [row], columns)
  {}

  lemma {:induction false} ChunksTile(text: string, from: nat, until: nat, columns: nat, sep: bool)
    requires columns >= 1 && from <= until <= |text|
    ensures var rows := Chunks(from, until, columns, sep);
            Tiles(text, rows, columns) && rows[0].from == from && rows[|rows| - 1].until == until
    decreases until - from
  {
    hide Tiles, GapOk;
    if until - from <= columns {
      TilesOne(text, Row(from, until, sep), columns);
    } else {
      TilesOne(text, Row(from, from + columns, sep), columns);
      ChunksTile(text, from + columns, until, columns, false);
      Gaps(text, from + columns);
      TilesConcat(text, [Row(from, from + columns, sep)], Chunks(from + columns, until, columns, false), columns);
    }
  }

  lemma LineTiles(text: string, start: nat, stop: nat, columns: nat)
    requires columns >= 1 && start <= stop <= |text|
    ensures var rows := LineRows(text, start, stop, columns);
            && Tiles(text, rows, columns) && rows[|rows| - 1].until == stop
            && rows[0].from == (if start < stop && text[start] == MARKER then start + 1 else start)
  {
    hide Tiles, Chunks;
    if start < stop && text[start] == MARKER {
      ChunksTile(text, start + 1, stop, columns, true);
    } else {
      ChunksTile(text, start, stop, columns, false);
    }
  }

  lemma {:induction false} RowsTile(text: string, start: nat, columns: nat)
    requires columns >= 1 && start <= |text|
    ensures var rows := RowsFrom(text, start, columns);
            && Tiles(text, rows, columns) && rows[|rows| - 1].until == |text|
            && rows[0].from == (if start < |text| && text[start] == MARKER then start + 1 else start)
    decreases |text| - start
  {
    hide RowsFrom, LineRows, Tiles;
    var stop := LineEnd(text, start);
    RowsUnfold(text, start, columns);
    LineTiles(text, start, stop, columns);
    if stop < |text| {
      RowsTile(text, stop + 1, columns);
      var head, rest := LineRows(text, start, stop, columns), RowsFrom(text, stop + 1, columns);
      Gaps(text, stop);
      TilesConcat(text, head, rest, columns);
    }
  }

  // ------------------------------------------------- spans tile the bytes

  lemma OffsetSlice(text: string, a: nat, b: nat)
    requires a <= b <= |text|
    ensures Offset(text, a) <= Offset(text, b) <= |AsBytes(text)|
    ensures AsBytes(text)[Offset(text, a)..Offset(text, b)] == AsBytes(text[a..b])
    ensures Offset(text, |text|) == |AsBytes(text)| && Offset(text, 0) == 0
  {
    assert text == text[..a] + text[a..b] + text[b..];
    assert text[..b] == text[..a] + text[a..b] && text[..|text|] == text && text[..0] == "";
    EncodeConcat(text[..a], text[a..b]);
    EncodeConcat(text[..b], text[b..]);
    assert text == text[..b] + text[b..];
  }

  lemma EncodedGaps()
    ensures AsBytes("") == [] && AsBytes([NEWLINE]) == [NEWLINE_BYTE] && AsBytes([MARKER]) == [MARKER_BYTE]
    ensures AsBytes([NEWLINE, MARKER]) == [NEWLINE_BYTE, MARKER_BYTE]
  {
    assert [NEWLINE, MARKER][1..] == [MARKER] && [NEWLINE][1..] == "" && [MARKER][1..] == "";
  }

  /** A span is the bytes of a piece of at most `columns` characters. */
  ghost predicate OnCharacters(text: string, span: LineSpan, columns: nat) {
    exists a: nat, b: nat :: CoversCharacters(text, span, a, b, columns)
  }

  ghost predicate CoversCharacters(text: string, span: LineSpan, a: nat, b: nat, columns: nat) {
    && a <= b <= |text| && b - a <= columns
    && span.start == Offset(text, a) && span.end == Offset(text, b)
    && span.end <= |AsBytes(text)| && span.start <= span.end
    && AsBytes(text)[span.start..span.end] == AsBytes(text[a..b])
  }

  ghost predicate ByteGap(gap: seq<byte>) {
    gap == [] || gap == [NEWLINE_BYTE] || gap == [NEWLINE_BYTE, MARKER_BYTE]
  }

  /**
   The spans are in order and disjoint, end with the text, lie on character boundaries, hold at
   most `columns` characters, and leave out newlines and leading markers only.
   */
  ghost predicate SpansTile(text: string, l: Laid) {
    && SpansOnCharacters(text, l.spans, l.columns)
    && SpansLinked(AsBytes(text), l.spans)
    && SpansReach(AsBytes(text), l.spans)
  }

  ghost predicate SpansOnCharacters(text: string, spans: seq<LineSpan>, columns: nat) {
    forall k {:trigger spans[k]} :: 0 <= k < |spans| ==> OnCharacters(text, spans[k], columns)
  }

  ghost predicate SpansLinked(bytes: seq<byte>, spans: seq<LineSpan>) {
    forall k {:trigger spans[k]} :: 0 <= k < |spans| - 1 ==> LinkedSpans(bytes, spans[k], spans[k + 1])
  }

  ghost predicate LinkedSpans(bytes: seq<byte>, a: LineSpan, b: LineSpan) {
    a.end <= b.start <= |bytes| && ByteGap(bytes[a.end..b.start])
  }

  ghost predicate SpansReach(bytes: seq<byte>, spans: seq<LineSpan>) {
    && spans != [] && spans[|spans| - 1].end == |bytes| && spans[0].start <= |bytes|
    && (bytes[..spans[0].start] == [] || bytes[..spans[0].start] == [MARKER_BYTE])
  }

  lemma RowOnCharacters(text: string, row: Row, columns: nat)
    requires row.from <= row.until <= Min(|text|, row.from + columns)
    ensures OnCharacters(text, Span(text, row), columns)
  {
    OffsetSlice(text, row.from, row.until);
    assert CoversCharacters(text, Span(text, row), row.from, row.until, columns);
  }

  lemma GapInBytes(text: string, a: nat, b: nat)
    requires GapOk(text, a, b)
    ensures Offset(text, a) <= Offset(text, b) <= |AsBytes(text)|
    ensures ByteGap(AsBytes(text)[Offset(text, a)..Offset(text, b)])
  {
    EncodedGaps();
    OffsetSlice(text, a, b);
  }

  lemma LayoutTiles(text: string, columns: nat)
    requires columns >= 1 && MarkedText(text)
    ensures SpansTile(text, FromText(text, columns))
  {
    LayoutMeaning(text, columns);
    RowsTile(text, 0, columns);
    var rows, l := RowsFrom(text, 0, columns), FromText(text, columns);
    hide RowsFrom, FromText;
    RowsOnCharacters(text, rows, columns);
    RowsLinked(text, rows, columns);
    RowsReach(text, rows);
  }

  lemma RowsOnCharacters(text: string, rows: seq<Row>, columns: nat)
    requires Within(rows, text) && Fitting(text, rows, columns)
    ensures SpansOnCharacters(text, Spans(text, rows), columns)
  {
    hide Span, OnCharacters;
    forall k | 0 <= k < |rows|
      ensures OnCharacters(text, Span(text, rows[k]), columns)
    {
      RowOnCharacters(text, rows[k], columns);
    }
  }

  lemma RowsLinked(text: string, rows: seq<Row>, columns: nat)
    requires Within(rows, text) && Linked(text, rows)
    ensures SpansLinked(AsBytes(text), Spans(text, rows))
  {
    hide AsBytes, Offset, ByteGap, GapOk;
    var spans := Spans(text, rows);
    forall k {:trigger rows[k]} | 0 <= k < |rows| - 1
      ensures LinkedSpans(AsBytes(text), spans[k], spans[k + 1])
    {
      assert GapOk(text, rows[k].until, rows[k + 1].from);
      GapInBytes(text, rows[k].until, rows[k + 1].from);
    }
  }

  lemma RowsReach(text: string, rows: seq<Row>)
    requires Within(rows, text) && rows[|rows| - 1].until == |text|
    requires rows[0].from == if 0 < |text| && text[0] == MARKER then 1 else 0
    ensures SpansReach(AsBytes(text), Spans(text, rows))
  {
    hide AsBytes, Offset;
    FirstSpan(text, rows[0].from);
    OffsetSlice(text, |text|, |text|);
  }

  lemma FirstSpan(text: string, from: nat)
    requires from == if 0 < |text| && text[0] == MARKER then 1 else 0
    ensures Offset(text, from) <= |AsBytes(text)|
    ensures var gap := AsBytes(text)[..Offset(text, from)]; gap == [] || gap == [MARKER_BYTE]
  {
    EncodedGaps();
    OffsetSlice(text, 0, from);
    assert from == 0 ==> text[0..from] == "";
    assert from == 1 ==> text[0..from] == [MARKER];
  }

  // ------------------------------------------------- nothing is lost from the page

  /** The characters that make a mark on paper. */
  function Printed(text: string): string {
    if text == "" then ""
    else (if text[0] == NEWLINE || text[0] == MARKER then "" else [text[0]]) + Printed(text[1..])
  }

  function Slice(text: string, row: Row): string {
    if row.from <= row.until <= |text| then text[row.from..row.until] else ""
  }

  function RowText(text: string, rows: seq<Row>): string {
    if rows == [] then "" else Slice(text, rows[0]) + RowText(text, rows[1..])
  }

  lemma {:induction false} PrintedConcat(a: string, b: string)
    ensures Printed(a + b) == Printed(a) + Printed(b)
    decreases |a|
  {
    if a == "" {
      assert a + b == b;
    } else {
      assert (a + b)[1..] == a[1..] + b;
      PrintedConcat(a[1..], b);
    }
  }

  lemma {:induction false} PrintedPlain(text: string)
    requires forall i :: 0 <= i < |text| ==> text[i] != NEWLINE && text[i] != MARKER
    ensures Printed(text) == text
    decreases |text|
  {
    if text != "" {
      PrintedPlain(text[1..]);
      assert text == [text[0]] + text[1..];
    }
  }

  lemma {:induction false} RowTextConcat(text: string, a: seq<Row>, b: seq<Row>)
    ensures RowText(text, a + b) == RowText(text, a) + RowText(text, b)
    decreases |a|
  {
    hide Slice;
    if a == [] {
      assert a + b == b;
    } else {
      assert (a + b)[1..] == a[1..] + b;
      RowTextConcat(text, a[1..], b);
    }
  }

  lemma RowTextOne(text: string, row: Row)
    ensures RowText(text, [row]) == Slice(text, row)
  {
    assert [row][1..] == [];
  }

  lemma {:induction false} RowTextChunks(text: string, from: nat, until: nat, columns: nat, sep: bool)
    requires columns >= 1 && from <= until <= |text|
    ensures RowText(text, Chunks(from, until, columns, sep)) == text[from..until]
    decreases until - from
  {
    hide RowText;
    if until - from > columns {
      RowTextChunks(text, from + columns, until, columns, false);
      RowTextOne(text, Row(from, from + columns, sep));
      RowTextConcat(text, [Row(from, from + columns, sep)], Chunks(from + columns, until, columns, false));
      assert text[from..until] == text[from..from + columns] + text[from + columns..until];
    } else {
      RowTextOne(text, Row(from, until, sep));
    }
  }

  lemma RowTextLine(text: string, start: nat, stop: nat, columns: nat)
    requires columns >= 1 && start <= stop <= |text| && MarkedText(text)
    requires forall i :: start <= i < stop ==> text[i] != NEWLINE
    ensures RowText(text, LineRows(text, start, stop, columns)) == Printed(text[start..stop])
  {
    hide RowText, Printed, Chunks;
    var marked := start < stop && text[start] == MARKER;
    var from := if marked then start + 1 else start;
    RowTextChunks(text, from, stop, columns, marked);
    forall i | 0 <= i < |text[from..stop]|
      ensures text[from..stop][i] != NEWLINE && text[from..stop][i] != MARKER
    {
      assert text[from..stop][i] == text[from + i];
    }
    PrintedPlain(text[from..stop]);
    if marked {
      assert text[start..stop] == [MARKER] + text[from..stop];
      PrintedConcat([MARKER], text[from..stop]);
      PrintedMarks();
    }
  }

  lemma PrintedMarks()
    ensures Printed([MARKER]) == "" && Printed([NEWLINE]) == "" && Printed("") == ""
  {
    assert [MARKER][1..] == "" && [NEWLINE][1..] == "";
  }

  /** The rows show every printed character of the text once, in order. */
  lemma {:induction false} RowsShowAll(text: string, start: nat, columns: nat)
    requires columns >= 1 && start <= |text| && MarkedText(text)
    ensures RowText(text, RowsFrom(text, start, columns)) == Printed(text[start..])
    decreases |text| - start
  {
    hide RowsFrom, LineRows, RowText, Printed;
    var stop := LineEnd(text, start);
    RowsUnfold(text, start, columns);
    RowTextLine(text, start, stop, columns);
    if stop == |text| {
      assert text[start..] == text[start..stop];
    } else {
      assert text[start..] == text[start..stop] + ([NEWLINE] + text[stop + 1..]);
      PrintedConcat(text[start..stop], [NEWLINE] + text[stop + 1..]);
      PrintedConcat([NEWLINE], text[stop + 1..]);
      PrintedMarks();
      RowsShowAll(text, stop + 1, columns);
      RowTextConcat(text, LineRows(text, start, stop, columns), RowsFrom(text, stop + 1, columns));
    }
  }

  // ------------------------------------------------- history in front

  /** `a` is at least as far down the page as `b`. */
  ghost predicate FurtherDown(a: Laid, b: Laid) {
    && a.columns == b.columns >= 1 && a.open <= a.columns && b.open <= b.columns
    && (|a.spans| > |b.spans| || (|a.spans| == |b.spans| && a.open >= b.open))
  }

  lemma {:induction false} StaysAhead(a: Laid, b: Laid, at: nat, at': nat, s: string)
    requires FurtherDown(a, b)
    ensures FurtherDown(AdvanceAll(a, at, s), AdvanceAll(b, at', s))
    decreases |s|
  {
    if s != "" {
      assert FurtherDown(Advance(a, at, s[0]), Advance(b, at', s[0]));
      StaysAhead(Advance(a, at, s[0]), Advance(b, at', s[0]), at + Width(s[0]), at' + Width(s[0]), s[1..]);
    }
  }

  lemma {:induction false} ReadAhead(l: Laid, columns: nat, at: nat, s: string)
    requires FurtherDown(l, Blank(columns))
    ensures FurtherDown(AdvanceAll(l, at, s), Blank(columns))
    decreases |s|
  {
    if s != "" {
      ReadAhead(Advance(l, at, s[0]), columns, at + Width(s[0]), s[1..]);
    }
  }

  /** Text in front of a text never lowers its line count. */
  lemma HistoryAddsLines(history: string, text: string, columns: nat)
    requires columns >= 1
    ensures |FromText(history + text, columns).spans| >= |FromText(text, columns).spans|
  {
    AdvanceConcat(Blank(columns), 0, history, text);
    ReadAhead(Blank(columns), columns, 0, history);
    StaysAhead(FromText(history, columns), Blank(columns), |AsBytes(history)|, 0, text);
  }

  // ------------------------------------------------- history leaves the lines behind a newline as they are

  function Moved(span: LineSpan, shift: nat): LineSpan {
    LineSpan(span.start + shift, span.end + shift, span.isSeparator)
  }

  function MovedAll(spans: seq<LineSpan>, shift: nat): seq<LineSpan> {
    seq(|spans|, i requires 0 <= i < |spans| => Moved(spans[i], shift))
  }

  ghost predicate EndBy(spans: seq<LineSpan>, at: nat) {
    forall span <- spans :: span.start <= span.end <= at
  }

  lemma EndPushed(spans: seq<LineSpan>, at: nat, x: LineSpan, at': nat)
    requires EndBy(spans, at) && at <= at' && x.start <= x.end <= at'
    ensures EndBy(spans + [x], at')
  {}

  lemma EndReplaced(spans: seq<LineSpan>, at: nat, x: LineSpan, at': nat)
    requires EndBy(spans, at) && at <= at' && spans != []
    ensures spans[|spans| - 1].start <= at
    ensures x.start <= x.end <= at' ==> EndBy(spans[|spans| - 1 := x], at')
  {}

  /** From line `q` on, `m` is what `l` is from line `p` on, `shift` bytes further into the text. */
  ghost predicate Follows(l: Laid, p: nat, m: Laid, q: nat, at: nat, shift: nat) {
    && l.columns == m.columns && l.open == m.open
    && p < |l.spans| && q < |m.spans|
    && m.spans[q..] == MovedAll(l.spans[p..], shift) && EndBy(l.spans[p..], at)
  }

  lemma TailPushed(a: seq<LineSpan>, p: nat, b: seq<LineSpan>, q: nat, shift: nat, x: LineSpan)
    requires p < |a| && q < |b| && b[q..] == MovedAll(a[p..], shift)
    ensures (b + [Moved(x, shift)])[q..] == MovedAll((a + [x])[p..], shift)
    ensures (a + [x])[p..] == a[p..] + [x]
  {
    assert (b + [Moved(x, shift)])[q..] == b[q..] + [Moved(x, shift)];
    assert MovedAll(a[p..] + [x], shift) == MovedAll(a[p..], shift) + [Moved(x, shift)];
  }

  lemma TailReplaced(a: seq<LineSpan>, p: nat, b: seq<LineSpan>, q: nat, shift: nat, x: LineSpan)
    requires p < |a| && q < |b| && b[q..] == MovedAll(a[p..], shift)
    ensures b[|b| - 1] == Moved(a[|a| - 1], shift)
    ensures b[|b| - 1 := Moved(x, shift)][q..] == MovedAll(a[|a| - 1 := x][p..], shift)
    ensures a[|a| - 1 := x][p..] == a[p..][|a| - 1 - p := x]
  {
    assert |b[q..]| == |a[p..]|;
    assert b[q..][|b| - 1 - q] == Moved(a[p..][|a| - 1 - p], shift);
  }

  lemma FollowsStep(l: Laid, p: nat, m: Laid, q: nat, at: nat, shift: nat, c: char)
    requires Follows(l, p, m, q, at, shift)
    ensures Follows(Advance(l, at, c), p, Advance(m, at + shift, c), q, at + Width(c), shift)
  {
    hide Width, MovedAll, EndBy;
    var l', last := Advance(l, at, c), |l.spans| - 1;
    if |l'.spans| > |l.spans| {
      TailPushed(l.spans, p, m.spans, q, shift, l'.spans[last + 1]);
      EndPushed(l.spans[p..], at, l'.spans[last + 1], at + Width(c));
    } else {
      TailReplaced(l.spans, p, m.spans, q, shift, l'.spans[last]);
      EndReplaced(l.spans[p..], at, l'.spans[last], at + Width(c));
    }
  }

  lemma {:induction false} FollowsOn(l: Laid, p: nat, m: Laid, q: nat, at: nat, shift: nat, s: string)
    requires Follows(l, p, m, q, at, shift)
    ensures Follows(AdvanceAll(l, at, s), p, AdvanceAll(m, at + shift, s), q, at + |AsBytes(s)|, shift)
    decreases |s|
  {
    hide Follows, Advance, AsBytes, Width;
    if s == "" {
      NoBytes(s);
    } else {
      FollowsStep(l, p, m, q, at, shift, s[0]);
      FollowsOn(Advance(l, at, s[0]), p, Advance(m, at + shift, s[0]), q, at + Width(s[0]), shift, s[1..]);
      FirstBytes(s);
      var l', m', at', more := Advance(l, at, s[0]), Advance(m, at + shift, s[0]), at + Width(s[0]), s[1..];
      assert at + shift + Width(s[0]) == at' + shift;
      assert at' + |AsBytes(more)| == at + |AsBytes(s)|;
    }
  }

  lemma NoBytes(s: string)
    requires s == ""
    ensures AsBytes(s) == []
  {}

  lemma FirstBytes(s: string)
    requires s != ""
    ensures |AsBytes(s)| == Width(s[0]) + |AsBytes(s[1..])|
  {
    hide EncodeChar;
  }

  lemma FollowsNewline(l: Laid, m: Laid, at: nat, shift: nat)
    requires l.columns == m.columns
    ensures Follows(Advance(l, at, NEWLINE), |l.spans|, Advance(m, at + shift, NEWLINE), |m.spans|, at + 1, shift)
  {
    assert Advance(l, at, NEWLINE).spans[|l.spans|..] == [LineSpan(at + 1, at + 1, false)];
    assert Advance(m, at + shift, NEWLINE).spans[|m.spans|..] == [LineSpan(at + shift + 1, at + shift + 1, false)];
  }

  lemma {:induction false} ColumnsStay(l: Laid, at: nat, s: string)
    ensures AdvanceAll(l, at, s).columns == l.columns
    decreases |s|
  {
    if s != "" {
      ColumnsStay(Advance(l, at, s[0]), at + Width(s[0]), s[1..]);
    }
  }

  /** Any two texts with the same lines after their first parts lay these lines out alike. */
  lemma SameBehindNewline(a: string, b: string, rest: string, columns: nat, shift: nat)
    requires |AsBytes(b)| == |AsBytes(a)| + shift
    ensures Follows(FromText(a + [NEWLINE] + rest, columns), |FromText(a, columns).spans|,
                    FromText(b + [NEWLINE] + rest, columns), |FromText(b, columns).spans|,
                    |AsBytes(a + [NEWLINE] + rest)|, shift)
  {
    hide FromText, AdvanceAll, Advance, AsBytes, Follows;
    var l, m, at := FromText(a, columns), FromText(b, columns), |AsBytes(a)|;
    TextColumns(a, columns);
    TextColumns(b, columns);
    LaidBehind(a, rest, columns);
    LaidBehind(b, rest, columns);
    FollowsNewline(l, m, at, shift);
    var l', m' := Advance(l, at, NEWLINE), Advance(m, at + shift, NEWLINE);
    FollowsOn(l', |l.spans|, m', |m.spans|, at + 1, shift, rest);
    assert at + 1 + shift == at + shift + 1;
  }

  /** A text laid out as a first part, a newline, and the rest. */
  lemma LaidBehind(a: string, rest: string, columns: nat)
    ensures var at := |AsBytes(a)|;
            && FromText(a + [NEWLINE] + rest, columns)
               == AdvanceAll(Advance(FromText(a, columns), at, NEWLINE), at + 1, rest)
            && |AsBytes(a + [NEWLINE] + rest)| == at + 1 + |AsBytes(rest)|
  {
    hide FromText, AdvanceAll, Advance, AsBytes;
    FromTextSnoc(a, NEWLINE, columns);
    CacheAppend(a + [NEWLINE], rest, columns);
    NewlineMore(a);
    EncodeConcat(a + [NEWLINE], rest);
  }

  lemma TextColumns(text: string, columns: nat)
    ensures FromText(text, columns).columns == columns
  {
    ColumnsStay(Blank(columns), 0, text);
  }

  lemma NewlineMore(a: string)
    ensures |AsBytes(a + [NEWLINE])| == |AsBytes(a)| + 1
  {
    EncodeConcat(a, [NEWLINE]);
    EncodedGaps();
  }

  /** The bytes a span stands for, and whether they are dimmed. */
  function Drawing(bytes: seq<byte>, span: LineSpan): (seq<byte>, bool) {
    (if span.start <= span.end <= |bytes| then bytes[span.start..span.end] else [], span.isSeparator)
  }

  function Drawings(bytes: seq<byte>, spans: seq<LineSpan>): seq<(seq<byte>, bool)> {
    seq(|spans|, i requires 0 <= i < |spans| => Drawing(bytes, spans[i]))
  }

  lemma MovedDrawing(front: seq<byte>, bytes: seq<byte>, span: LineSpan)
    requires span.start <= span.end <= |bytes|
    ensures Drawing(front + bytes, Moved(span, |front|)) == Drawing(bytes, span)
  {
    assert (front + bytes)[|front| + span.start..|front| + span.end] == bytes[span.start..span.end];
  }

  lemma MovedDrawings(front: seq<byte>, bytes: seq<byte>, spans: seq<LineSpan>)
    requires EndBy(spans, |bytes|)
    ensures Drawings(front + bytes, MovedAll(spans, |front|)) == Drawings(bytes, spans)
  {
    hide Drawing, Moved;
    forall i | 0 <= i < |spans|
      ensures Drawing(front + bytes, Moved(spans[i], |front|)) == Drawing(bytes, spans[i])
    {
      assert spans[i] in spans;
      MovedDrawing(front, bytes, spans[i]);
    }
  }

  /** Text in front of a text changes nothing about the lines behind the text's newlines. */
  lemma HistoryMovesLines(history: string, text: string, k: nat, columns: nat)
    requires k < |text| && text[k] == NEWLINE
    ensures var l, m := FromText(text, columns), FromText(history + text, columns);
            var p, q := |FromText(text[..k], columns).spans|, |FromText(history + text[..k], columns).spans|;
            && q >= 1 && p < |l.spans| && q - p == |m.spans| - |l.spans| && l.open == m.open
            && Drawings(AsBytes(history + text), m.spans[q..]) == Drawings(AsBytes(text), l.spans[p..])
  {
    var a, rest := text[..k], text[k + 1..];
    assert text == a + [NEWLINE] + rest;
    assert history + text == history + a + [NEWLINE] + rest;
    EncodeConcat(history, a);
    EncodeConcat(history, text);
    hide FromText, AsBytes;
    SameBehindNewline(a, history + a, rest, columns, |AsBytes(history)|);
    MovedDrawings(AsBytes(history), AsBytes(text), FromText(text, columns).spans[|FromText(a, columns).spans|..]);
    assert |FromText(history + text, columns).spans[|FromText(history + a, columns).spans|..]|
      == |FromText(text, columns).spans[|FromText(a, columns).spans|..]|;
  }
}
