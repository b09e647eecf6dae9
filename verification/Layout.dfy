/**
 The line layout: an incremental state machine over appended characters, and the line-by-line
 meaning it is proved to have.
 */
module LineLayout {
  import opened Utf8
  import opened Markers

  /** A byte range of the scroll text; see `Layout.lines`. */
  datatype LineSpan = LineSpan(start: nat, end: nat, isSeparator: bool)

  /** The value of a `Layout` object. */
  datatype Lines = Lines(columns: nat, spans: seq<LineSpan>, open: nat)

  type Laid = l: Lines | l.spans != [] witness Lines(0, [LineSpan(0, 0, false)], 0)

  function Blank(columns: nat): Laid {
    Lines(columns, [LineSpan(0, 0, false)], 0)
  }

  /** One appended character, `append(byte_offset, ch)`. */
  function Advance(l: Laid, offset: nat, c: char): Laid {
    var last := |l.spans| - 1;
    if c == NEWLINE then
      l.(spans := l.spans + [LineSpan(offset + 1, offset + 1, false)], open := 0)
    else if c == MARKER then
      l.(spans := l.spans[last := LineSpan(offset + Width(c), offset + Width(c), true)])
    else if l.open == l.columns then
      l.(spans := l.spans + [LineSpan(offset, offset + Width(c), false)], open := 1)
    else
      l.(spans := l.spans[last := l.spans[last].(end := offset + Width(c))], open := l.open + 1)
  }

  /** Appending a string whose first byte stands at `offset`. */
  function AdvanceAll(l: Laid, offset: nat, s: string): Laid
    decreases |s|
  {
    if s == "" then l else AdvanceAll(Advance(l, offset, s[0]), offset + Width(s[0]), s[1..])
  }

  /** `Layout::from_text` */
  function FromText(text: string, columns: nat): Laid {
    AdvanceAll(Blank(columns), 0, text)
  }

  // ------------------------------------------------- the object

  class Layout {
    var columns: nat
    var lines: seq<LineSpan>
    var currentColumns: nat

    ghost predicate Valid()
      reads this
    {
      lines != []
    }

    ghost function Value(): Laid
      reads this
      requires Valid()
    {
      Lines(columns, lines, currentColumns)
    }

    /** `Layout::new` */
    constructor (columns: nat)
      ensures Valid() && Value() == Blank(columns)
    {
      this.columns := columns;
      this.lines := [LineSpan(0, 0, false)];
      this.currentColumns := 0;
    }

    method Append(byteOffset: nat, ch: char)
      requires Valid()
      modifies this
      ensures Valid() && Value() == Advance(old(Value()), byteOffset, ch)
    {
      if ch == NEWLINE {
        var after := byteOffset + 1;
        lines := lines + [LineSpan(after, after, false)];
        currentColumns := 0;
        return;
      }
      if ch == MARKER {
        var start := byteOffset + Width(ch);
        lines := lines[|lines| - 1 := LineSpan(start, start, true)];
        return;
      }
      if currentColumns == columns {
        lines := lines + [LineSpan(byteOffset, byteOffset, false)];
        currentColumns := 0;
      }
      lines := lines[|lines| - 1 := lines[|lines| - 1].(end := byteOffset + Width(ch))];
      currentColumns := currentColumns + 1;
    }

    /** `Layout::from_text` */
    static method Rebuild(text: string, columns: nat) returns (layout: Layout)
      ensures fresh(layout) && layout.Valid() && layout.Value() == FromText(text, columns)
    {
      layout := new Layout(columns);
      var offset: nat := 0;
      for i := 0 to |text|
        invariant layout.Valid() && fresh(layout)
        invariant AdvanceAll(layout.Value(), offset, text[i..]) == FromText(text, columns)
      {
        assert text[i..][0] == text[i] && text[i..][1..] == text[i + 1..];
        layout.Append(offset, text[i]);
        offset := offset + Width(text[i]);
      }
      assert text[|text|..] == "";
    }

    /**
     Where the cursor sits: on the last line and, if this is the layout of a marked text, in the column
     after the last character of that text's last row.
     */
    method Cursor() returns (line: nat, column: nat)
      requires Valid()
      ensures line == |lines| - 1 && column == currentColumns
      ensures forall text: string :: columns >= 1 && MarkedText(text) && Value() == FromText(text, columns) ==>
                var rows := RowsFrom(text, 0, columns);
                line == |rows| - 1 && rows[line].until == |text| && column == |text| - rows[line].from
    {
      line, column := |lines| - 1, currentColumns;
      forall text: string | columns >= 1 && MarkedText(text) && Value() == FromText(text, columns)
        ensures var rows := RowsFrom(text, 0, columns);
                line == |rows| - 1 && rows[line].until == |text| && column == |text| - rows[line].from
      {
        LayoutMeaning(text, columns);
      }
    }
  }

  // ------------------------------------------------- a faithful cache

  lemma {:induction false} AdvanceConcat(l: Laid, offset: nat, s: string, t: string)
    ensures AdvanceAll(l, offset, s + t) == AdvanceAll(AdvanceAll(l, offset, s), offset + |AsBytes(s)|, t)
    decreases |s|
  {
    if s == "" {
      assert s + t == t;
    } else {
      assert (s + t)[1..] == s[1..] + t;
      AdvanceConcat(Advance(l, offset, s[0]), offset + Width(s[0]), s[1..], t);
    }
  }

  /** Appending to a layout that mirrors `text` gives the layout rebuilt from the longer text. */
  lemma CacheAppend(text: string, s: string, columns: nat)
    ensures AdvanceAll(FromText(text, columns), |AsBytes(text)|, s) == FromText(text + s, columns)
  {
    AdvanceConcat(Blank(columns), 0, text, s);
  }

  lemma FromTextSnoc(text: string, c: char, columns: nat)
    ensures FromText(text + [c], columns) == Advance(FromText(text, columns), |AsBytes(text)|, c)
  {
    CacheAppend(text, [c], columns);
    var l := FromText(text, columns);
    assert [c][1..] == "";
    var at := |AsBytes(text)|;
    assert AdvanceAll(l, at, [c]) == AdvanceAll(Advance(l, at, c), at + Width(c), "");
  }

  /** A marker anywhere, also where the writer never puts one: the open line starts again behind it, dimmed. */
  lemma MarkerAnywhere(text: string, columns: nat)
    ensures var l, r := FromText(text, columns), FromText(text + ['\U{1E}'], columns);
            && |r.spans| == |l.spans| && r.open == l.open
            && r.spans[..|l.spans| - 1] == l.spans[..|l.spans| - 1]
            && r.spans[|l.spans| - 1] == LineSpan(|AsBytes(text)| + 1, |AsBytes(text)| + 1, true)
  {
    hide FromText, AsBytes;
    FromTextSnoc(text, '\U{1E}', columns);
  }

  // ------------------------------------------------- what the layout means

  /** One row of the page, as a range of characters of the text. */
  datatype Row = Row(from: nat, until: nat, sep: bool)

  /** The first newline at or after `start`, or the end of the text. */
  function LineEnd(text: string, start: nat): (stop: nat)
    requires start <= |text|
    ensures start <= stop <= |text|
    ensures stop < |text| ==> text[stop] == NEWLINE
    ensures forall i :: start <= i < stop ==> text[i] != NEWLINE
    decreases |text| - start
  {
    if start == |text| || text[start] == NEWLINE then start else LineEnd(text, start + 1)
  }

  /** The characters from `from` to `to` in rows of `columns`; at least one row, none empty but a lone one. */
  function Chunks(from: nat, until: nat, columns: nat, sep: bool): (rows: seq<Row>)
    requires columns >= 1 && from <= until
    ensures rows != []
    decreases until - from
  {
    if until - from <= columns then [Row(from, until, sep)]
    else [Row(from, from + columns, sep)] + Chunks(from + columns, until, columns, false)
  }

  /** One line: a leading marker is dropped and flags the first row. */
  function LineRows(text: string, start: nat, stop: nat, columns: nat): (rows: seq<Row>)
    requires columns >= 1 && start <= stop <= |text|
    ensures rows != []
  {
    if start < stop && text[start] == MARKER then Chunks(start + 1, stop, columns, true)
    else Chunks(start, stop, columns, false)
  }

  /** Split at newlines, drop leading markers, cut into chunks. */
  function RowsFrom(text: string, start: nat, columns: nat): (rows: seq<Row>)
    requires columns >= 1 && start <= |text|
    ensures rows != []
    decreases |text| - start
  {
    var stop := LineEnd(text, start);
    LineRows(text, start, stop, columns)
    + if stop == |text| then [] else RowsFrom(text, stop + 1, columns)
  }

  /** Byte offset of the i-th character. */
  function Offset(text: string, i: nat): nat
    requires i <= |text|
  {
    |AsBytes(text[..i])|
  }

  ghost predicate Within(rows: seq<Row>, text: string) {
    rows != [] && forall k {:trigger rows[k]} :: 0 <= k < |rows| ==> rows[k].from <= rows[k].until <= |text|
  }

  ghost function Span(text: string, row: Row): LineSpan
    requires row.from <= row.until <= |text|
  {
    LineSpan(Offset(text, row.from), Offset(text, row.until), row.sep)
  }

  ghost function Spans(text: string, rows: seq<Row>): seq<LineSpan>
    requires Within(rows, text)
  {
    seq(|rows|, k requires 0 <= k < |rows| => Span(text, rows[k]))
  }

  /** What appending the character at index `n` does to the rows. */
  function RowStep(rows: seq<Row>, n: nat, c: char, columns: nat): (r: seq<Row>)
    requires rows != []
    ensures r != []
  {
    var last := |rows| - 1;
    if c == NEWLINE then rows + [Row(n + 1, n + 1, false)]
    else if c == MARKER then rows[..last] + [Row(n + 1, n + 1, true)]
    else if rows[last].until == rows[last].from + columns then rows + [Row(n, n + 1, false)]
    else rows[..last] + [rows[last].(until := n + 1)]
  }

  lemma {:induction false} ChunksStep(from: nat, n: nat, c: char, columns: nat, sep: bool)
    requires columns >= 1 && from <= n && c != NEWLINE && c != MARKER
    ensures Chunks(from, n + 1, columns, sep) == RowStep(Chunks(from, n, columns, sep), n, c, columns)
    decreases n - from
  {
    if n - from == columns {
      assert Chunks(from + columns, n + 1, columns, false) == [Row(n, n + 1, false)];
    } else if n - from > columns {
      ChunksStep(from + columns, n, c, columns, false);
      RowStepConcat([Row(from, from + columns, sep)], Chunks(from + columns, n, columns, false), n, c, columns);
    }
  }

  lemma RowStepConcat(a: seq<Row>, b: seq<Row>, n: nat, c: char, columns: nat)
    requires b != []
    ensures RowStep(a + b, n, c, columns) == a + RowStep(b, n, c, columns)
  {
    var ab := a + b;
    assert ab[|ab| - 1] == b[|b| - 1];
    assert ab[..|ab| - 1] == a + b[..|b| - 1];
  }

  lemma {:induction false} LineEndSnoc(text: string, c: char, start: nat)
    requires start <= |text|
    ensures var stop := LineEnd(text, start);
            LineEnd(text + [c], start) == if stop < |text| || c == NEWLINE then stop else stop + 1
    decreases |text| - start
  {
    if start < |text| && text[start] != NEWLINE {
      LineEndSnoc(text, c, start + 1);
    }
  }

  lemma LineRowsSnoc(text: string, c: char, start: nat, stop: nat, columns: nat)
    requires columns >= 1 && start <= stop <= |text|
    ensures LineRows(text + [c], start, stop, columns) == LineRows(text, start, stop, columns)
  {
    if start < stop {
      assert (text + [c])[start] == text[start];
    }
  }

  /** The rows of the line at `start`, then those of the lines after it. */
  lemma RowsUnfold(text: string, start: nat, columns: nat)
    requires columns >= 1 && start <= |text|
    ensures var stop := LineEnd(text, start);
            && (stop == |text| ==> RowsFrom(text, start, columns) == LineRows(text, start, stop, columns))
            && (stop < |text| ==>
                  RowsFrom(text, start, columns)
                  == LineRows(text, start, stop, columns) + RowsFrom(text, stop + 1, columns))
  {
    hide LineRows;
  }

  lemma EmptyLastLine(text: string, columns: nat)
    requires columns >= 1
    ensures RowsFrom(text, |text|, columns) == [Row(|text|, |text|, false)]
  {
    RowsUnfold(text, |text|, columns);
  }

  /** The rows of a text grow by `RowStep`, as long as a marker only comes first on its line. */
  lemma {:induction false} RowsSnoc(text: string, c: char, start: nat, columns: nat)
    requires columns >= 1 && start <= |text|
    requires c == MARKER ==> |text| == start || text[|text| - 1] == NEWLINE
    ensures RowsFrom(text + [c], start, columns) == RowStep(RowsFrom(text, start, columns), |text|, c, columns)
    decreases |text| - start
  {
    hide RowsFrom, LineRows;
    var longer, n, stop := text + [c], |text|, LineEnd(text, start);
    LineEndSnoc(text, c, start);
    LineRowsSnoc(text, c, start, stop, columns);
    RowsUnfold(text, start, columns);
    RowsUnfold(longer, start, columns);
    if stop < n {
      RowsSnoc(text, c, stop + 1, columns);
      RowStepConcat(LineRows(text, start, stop, columns), RowsFrom(text, stop + 1, columns), n, c, columns);
    } else if c == NEWLINE {
      EmptyLastLine(longer, columns);
    } else {
      LastLineSnoc(text, c, start, columns);
    }
  }

  /** The same on the open last line. */
  lemma LastLineSnoc(text: string, c: char, start: nat, columns: nat)
    requires columns >= 1 && start <= |text| == LineEnd(text, start)
    requires c != NEWLINE
    requires c == MARKER ==> |text| == start || text[|text| - 1] == NEWLINE
    ensures LineRows(text + [c], start, |text| + 1, columns)
         == RowStep(LineRows(text, start, |text|, columns), |text|, c, columns)
  {
    var n := |text|;
    if start < n {
      assert (text + [c])[start] == text[start];
      if c != MARKER {
        ChunksStep(if text[start] == MARKER then start + 1 else start, n, c, columns, text[start] == MARKER);
      }
    }
  }

  // ------------------------------------------------- rows and spans in step

  lemma OffsetSnoc(text: string, s: string, i: nat)
    requires i <= |text|
    ensures Offset(text + s, i) == Offset(text, i)
  {
    assert (text + s)[..i] == text[..i];
  }

  lemma OffsetEnd(text: string, c: char)
    ensures Offset(text + [c], |text|) == |AsBytes(text)|
    ensures Offset(text + [c], |text| + 1) == |AsBytes(text)| + Width(c)
  {
    var longer := text + [c];
    assert longer[..|text|] == text && longer[..|text| + 1] == longer;
    EncodeConcat(text, [c]);
    assert [c][1..] == "";
  }

  /** The spans and the open column count of a layout are those of `rows`. */
  ghost predicate Depicts(l: Laid, text: string, rows: seq<Row>) {
    && Within(rows, text)
    && l.spans == Spans(text, rows)
    && l.open == rows[|rows| - 1].until - rows[|rows| - 1].from
  }

  lemma DepictsPushed(l: Laid, text: string, rows: seq<Row>, row: Row, l': Laid)
    requires Depicts(l, text, rows) && row.from <= row.until <= |text|
    requires l'.spans == l.spans + [Span(text, row)] && l'.open == row.until - row.from
    ensures Depicts(l', text, rows + [row])
  {
    hide Span;
    SpansConcat(text, rows, row);
  }

  lemma DepictsReplaced(l: Laid, text: string, rows: seq<Row>, row: Row, l': Laid)
    requires Depicts(l, text, rows) && row.from <= row.until <= |text|
    requires l'.spans == l.spans[|l.spans| - 1 := Span(text, row)] && l'.open == row.until - row.from
    ensures Depicts(l', text, rows[..|rows| - 1] + [row])
  {
    hide Span;
    SpansReplaced(text, rows, row);
  }

  lemma DepictsLonger(l: Laid, text: string, rows: seq<Row>, c: char)
    requires Depicts(l, text, rows)
    ensures Depicts(l, text + [c], rows)
  {
    hide AsBytes;
    SpansKept(text, rows, c);
  }

  /** Where the rows touching a freshly appended character start and end. */
  lemma EndSpans(text: string, c: char, row: Row, sep: bool)
    requires row.from <= row.until <= |text|
    ensures var longer, n, at := text + [c], |text|, |AsBytes(text)|;
            && Span(longer, Row(n + 1, n + 1, sep)) == LineSpan(at + Width(c), at + Width(c), sep)
            && Span(longer, Row(n, n + 1, sep)) == LineSpan(at, at + Width(c), sep)
            && Span(longer, row.(until := n + 1)) == Span(longer, row).(end := at + Width(c))
  {
    hide AsBytes;
    OffsetEnd(text, c);
  }

  lemma DepictsStep(l: Laid, text: string, rows: seq<Row>, c: char)
    requires Depicts(l, text, rows) && l.columns >= 1
    requires rows[|rows| - 1].until == |text|
    requires c == MARKER ==> l.open == 0
    ensures Depicts(Advance(l, |AsBytes(text)|, c), text + [c], RowStep(rows, |text|, c, l.columns))
  {
    hide AsBytes, Span;
    var longer, n, last := text + [c], |text|, |rows| - 1;
    var l' := Advance(l, |AsBytes(text)|, c);
    DepictsLonger(l, text, rows, c);
    assert l.spans[last] == Span(longer, rows[last]);
    EndSpans(text, c, rows[last], c == MARKER);
    if c == NEWLINE {
      DepictsPushed(l, longer, rows, Row(n + 1, n + 1, false), l');
    } else if c == MARKER {
      DepictsReplaced(l, longer, rows, Row(n + 1, n + 1, true), l');
    } else if rows[last].until == rows[last].from + l.columns {
      DepictsPushed(l, longer, rows, Row(n, n + 1, false), l');
    } else {
      DepictsReplaced(l, longer, rows, rows[last].(until := n + 1), l');
    }
  }

  lemma SpansKept(text: string, rows: seq<Row>, c: char)
    requires Within(rows, text)
    ensures Within(rows, text + [c]) && Spans(text + [c], rows) == Spans(text, rows)
  {
    forall k | 0 <= k < |rows|
      ensures Span(text + [c], rows[k]) == Span(text, rows[k])
    {
      OffsetSnoc(text, [c], rows[k].from);
      OffsetSnoc(text, [c], rows[k].until);
    }
  }

  lemma SpansConcat(text: string, rows: seq<Row>, row: Row)
    requires Within(rows, text) && row.from <= row.until <= |text|
    ensures Within(rows + [row], text)
    ensures Spans(text, rows + [row]) == Spans(text, rows) + [Span(text, row)]
  {}

  lemma SpansReplaced(text: string, rows: seq<Row>, row: Row)
    requires Within(rows, text) && row.from <= row.until <= |text|
    ensures var rows' := rows[..|rows| - 1] + [row];
            Within(rows', text) && Spans(text, rows') == Spans(text, rows)[|rows| - 1 := Span(text, row)]
  {}

  /** On text whose markers all lead a line, the open line is empty exactly where a marker may come. */
  lemma {:induction false} OpenAfterNewline(text: string, start: nat, columns: nat)
    requires columns >= 1 && start <= |text|
    requires |text| == start || text[|text| - 1] == NEWLINE
    ensures var rows := RowsFrom(text, start, columns);
            rows[|rows| - 1] == Row(|text|, |text|, false)
    decreases |text| - start
  {
    hide RowsFrom, LineRows;
    var stop := LineEnd(text, start);
    RowsUnfold(text, start, columns);
    if stop < |text| {
      OpenAfterNewline(text, stop + 1, columns);
    } else {
      EmptyLastLine(text, columns);
    }
  }

  /** The layout of `text` is its declared rows. */
  ghost predicate Meant(text: string, columns: nat)
    requires columns >= 1
  {
    var rows := RowsFrom(text, 0, columns);
    && Depicts(FromText(text, columns), text, rows)
    && FromText(text, columns).columns == columns
    && rows[|rows| - 1].until == |text|
  }

  lemma MeantEmpty(columns: nat)
    requires columns >= 1
    ensures Meant("", columns)
  {
    EmptyLastLine("", columns);
    assert FromText("", columns).spans == Spans("", [Row(0, 0, false)]);
  }

  lemma MeantStep(init: string, c: char, columns: nat)
    requires columns >= 1 && Meant(init, columns)
    requires c == MARKER ==> init == "" || init[|init| - 1] == NEWLINE
    ensures Meant(init + [c], columns)
  {
    FromTextSnoc(init, c, columns);
    if c == MARKER {
      OpenAfterNewline(init, 0, columns);
    }
    RowsSnoc(init, c, 0, columns);
    hide FromText, RowsFrom, AsBytes, Spans;
    DepictsStep(FromText(init, columns), init, RowsFrom(init, 0, columns), c);
  }

  /** On marked text, the state machine computes exactly the declared rows. */
  lemma {:induction false} LayoutMeaning(text: string, columns: nat)
    requires columns >= 1 && MarkedText(text)
    ensures Meant(text, columns)
    decreases |text|
  {
    hide Meant;
    if text == "" {
      MeantEmpty(columns);
    } else {
      var n := |text| - 1;
      var init, c := text[..n], text[n];
      assert text == init + [c];
      LeadsPrefix(text, n, MARKER, NEWLINE);
      LayoutMeaning(init, columns);
      assert c == MARKER ==> n == 0 || init[n - 1] == text[n - 1];
      MeantStep(init, c, columns);
    }
  }
}
