/**
 The reading window: which lines a page shows, and which lines PageUp and PageDown can reach.
 */
module Paging {

  /** `saturating_sub` */
  function Minus(a: nat, b: nat): nat {
    if a < b then 0 else a - b
  }

  /** The largest offset PageUp allows. */
  function MaxView(lines: nat, rows: nat): nat {
    Minus(lines, rows)
  }

  function PageUp(view: nat, lines: nat, rows: nat): nat {
    var up := view + Minus(rows, 1);
    if up < MaxView(lines, rows) then up else MaxView(lines, rows)
  }

  function PageDown(view: nat, rows: nat): nat {
    Minus(view, Minus(rows, 1))
  }

  /** The lines drawn by `render`: `lines[first..end]`. */
  function WindowEnd(lines: nat, view: nat): nat {
    Minus(lines, view)
  }

  function WindowFirst(lines: nat, view: nat, rows: nat, full: bool): nat {
    Minus(WindowEnd(lines, view), if full then Minus(rows, 1) else rows)
  }

  predicate Shows(line: nat, lines: nat, view: nat, rows: nat, full: bool) {
    WindowFirst(lines, view, rows, full) <= line < WindowEnd(lines, view)
  }

  /** The slice taken by `render` is always in range and fits the page. */
  lemma WindowInRange(lines: nat, view: nat, rows: nat, full: bool)
    ensures WindowFirst(lines, view, rows, full) <= WindowEnd(lines, view) <= lines
    ensures WindowEnd(lines, view) - WindowFirst(lines, view, rows, full) <= rows
  {}

  /** Which lines are drawn, in plain arithmetic: as many as there are rows, the last of them `view` from the end. */
  lemma ShowsExact(line: nat, lines: nat, view: nat, rows: nat, full: bool)
    ensures Shows(line, lines, view, rows, full)
       <==> line + view < lines && if full then lines < line + view + rows else lines <= line + view + rows
  {}

  /**
   A press of PageUp goes back by one page less a line: the new page ends with the first line of the old
   one, or, on a full scroll, just before it; or it is the topmost page.
   */
  lemma PageUpOverlaps(view: nat, lines: nat, rows: nat)
    requires rows >= 2 && (view == 0 || view + rows <= lines)
    ensures var up := PageUp(view, lines, rows);
            || (up + rows <= lines
                && WindowEnd(lines, up) == WindowFirst(lines, view, rows, false) + 1
                && WindowEnd(lines, up) == WindowFirst(lines, view, rows, true))
            || (WindowFirst(lines, up, rows, false) == 0 && (up == 0 || up + rows == lines))
  {}

  /** And a press of PageDown forward by as much: the new page starts with the last line of the old one, or is last. */
  lemma PageDownOverlaps(view: nat, lines: nat, rows: nat)
    requires rows >= 2 && (view == 0 || view + rows <= lines)
    ensures var down := PageDown(view, rows);
            || down == 0
            || (&& WindowFirst(lines, down, rows, false) + 1 == WindowEnd(lines, view)
                && WindowFirst(lines, down, rows, true) == WindowEnd(lines, view))
  {}

  /** The offset after `k` presses of PageUp from the live end. */
  function Ups(k: nat, lines: nat, rows: nat): nat {
    if k == 0 then 0 else PageUp(Ups(k - 1, lines, rows), lines, rows)
  }

  /** The offset after `k` presses of PageDown. */
  function Downs(k: nat, view: nat, rows: nat): nat {
    if k == 0 then view else PageDown(Downs(k - 1, view, rows), rows)
  }

  ghost predicate Reachable(line: nat, lines: nat, rows: nat, full: bool) {
    exists k: nat :: Shows(line, lines, Ups(k, lines, rows), rows, full)
  }

  lemma {:induction false} UpsBounded(k: nat, lines: nat, rows: nat)
    ensures Ups(k, lines, rows) <= MaxView(lines, rows)
    ensures rows <= 1 ==> Ups(k, lines, rows) == 0
    ensures rows >= 2 ==> Ups(k, lines, rows) >= if k < MaxView(lines, rows) then k else MaxView(lines, rows)
  {
    if k > 0 {
      UpsBounded(k - 1, lines, rows);
    }
  }

  /** Every line passed on the way up was shown. */
  lemma {:induction false} PassedShown(k: nat, line: nat, lines: nat, rows: nat, full: bool)
    requires line < lines && rows >= 2
    requires WindowFirst(lines, Ups(k, lines, rows), rows, full) <= line
    ensures Reachable(line, lines, rows, full)
  {
    if Shows(line, lines, Ups(k, lines, rows), rows, full) {
    } else {
      assert k > 0;
      PassedShown(k - 1, line, lines, rows, full);
    }
  }

  /** On a scroll with room left, PageUp reaches every line, except on a one-row page. */
  lemma OpenScrollReachable(lines: nat, rows: nat)
    ensures (forall line: nat :: line < lines ==> Reachable(line, lines, rows, false)) <==> rows >= 2 || lines <= rows
  {
    if rows >= 2 {
      var k := MaxView(lines, rows);
      UpsBounded(k, lines, rows);
      forall line: nat | line < lines
        ensures Reachable(line, lines, rows, false)
      {
        PassedShown(k, line, lines, rows, false);
      }
    } else if lines <= rows {
      forall line: nat | line < lines
        ensures Reachable(line, lines, rows, false)
      {
        assert Shows(line, lines, Ups(0, lines, rows), rows, false);
      }
    } else {
      forall k: nat
        ensures !Shows(0, lines, Ups(k, lines, rows), rows, false)
      {
        UpsBounded(k, lines, rows);
      }
      assert !Reachable(0, lines, rows, false);
    }
  }

  /**
   On a full scroll the last row is taken by the closing message, but PageUp still stops as if it
   were not: the first line can be read exactly when the whole scroll fits above the message.
   */
  lemma FullScrollReachable(lines: nat, rows: nat, line: nat)
    requires line < lines && rows >= 2
    ensures Reachable(line, lines, rows, true) <==> line > 0 || lines < rows
  {
    var k := MaxView(lines, rows);
    UpsBounded(k, lines, rows);
    if line > 0 || lines < rows {
      PassedShown(k, line, lines, rows, true);
    } else {
      forall j: nat
        ensures !Shows(0, lines, Ups(j, lines, rows), rows, true)
      {
        UpsBounded(j, lines, rows);
      }
    }
  }

  /** PageDown returns to the live end from anywhere. */
  lemma {:induction false} DownsReachZero(k: nat, view: nat, rows: nat)
    requires rows >= 2
    ensures Downs(k, view, rows) <= Minus(view, k)
    ensures k >= view ==> Downs(k, view, rows) == 0
  {
    if k > 0 {
      DownsReachZero(k - 1, view, rows);
    }
  }

  lemma PagingBounded(view: nat, lines: nat, rows: nat)
    requires view <= MaxView(lines, rows)
    ensures PageUp(view, lines, rows) <= MaxView(lines, rows)
    ensures PageDown(view, rows) <= view <= PageUp(view, lines, rows)
  {}
}
