/**
 The boot-separator marker 0x1E, in bytes and in text. The writer's promise is that it only ever
 stands first on a line; the layout relies on it.
 */
module Markers {
  import opened Bytes
  import opened Utf8

  const MARKER: char := '\U{1E}'
  const NEWLINE: char := '\n'
  const MARKER_BYTE: byte := 0x1E
  const NEWLINE_BYTE: byte := 0x0A

  /** Every `mark` in `s` is first or follows a `newline`. */
  ghost predicate Leads<T(!new)>(s: seq<T>, mark: T, newline: T) {
    forall i {:trigger s[i]} :: 0 <= i < |s| && s[i] == mark ==> i == 0 || s[i - 1] == newline
  }

  ghost predicate MarkedText(s: string) {
    Leads(s, MARKER, NEWLINE)
  }

  ghost predicate MarkedBytes(bs: seq<byte>) {
    Leads(bs, MARKER_BYTE, NEWLINE_BYTE)
  }

  /** May `b` follow `a`? Yes, unless it opens with a marker and `a` leaves a line open. */
  ghost predicate Closes<T(!new)>(a: seq<T>, b: seq<T>, mark: T, newline: T) {
    a == [] || b == [] || b[0] != mark || a[|a| - 1] == newline
  }

  lemma LeadsConcat<T(!new)>(a: seq<T>, b: seq<T>, mark: T, newline: T)
    ensures Leads(a, mark, newline) && Leads(b, mark, newline) && Closes(a, b, mark, newline)
       <==> Leads(a + b, mark, newline)
  {
    var ab := a + b;
    if Leads(a, mark, newline) && Leads(b, mark, newline) && Closes(a, b, mark, newline) {
      forall i | 0 <= i < |ab| && ab[i] == mark
        ensures i == 0 || ab[i - 1] == newline
      {
        if i >= |a| {
          assert ab[i] == b[i - |a|];
        }
      }
    }
    if Leads(ab, mark, newline) {
      if a != [] && b != [] {
        assert ab[|a|] == b[0] && ab[|a| - 1] == a[|a| - 1];
      }
      forall i | 0 <= i < |a| && a[i] == mark
        ensures i == 0 || a[i - 1] == newline
      {
        assert ab[i] == a[i];
      }
      forall i | 0 <= i < |b| && b[i] == mark
        ensures i == 0 || b[i - 1] == newline
      {
        assert ab[|a| + i] == b[i];
      }
    }
  }

  /** A truncated stream keeps the promise. */
  lemma LeadsPrefix<T(!new)>(a: seq<T>, n: nat, mark: T, newline: T)
    requires n <= |a| && Leads(a, mark, newline)
    ensures Leads(a[..n], mark, newline) && Leads(a[n..], mark, newline)
  {
    assert a == a[..n] + a[n..];
    LeadsConcat(a[..n], a[n..], mark, newline);
  }

  /** ASCII bytes never hide inside a longer character. */
  lemma CharAscii(c: char)
    ensures var bs := EncodeChar(c);
            && (forall k :: 0 <= k < |bs| && bs[k] < 0x80 ==> |bs| == 1 && bs[0] == c as int)
            && (|bs| == 1 <==> c as int < 0x80)
  {}

  lemma {:induction false} EncodeEnds(s: string)
    ensures s == "" <==> AsBytes(s) == []
    ensures s != "" ==> (AsBytes(s)[0] == MARKER_BYTE <==> s[0] == MARKER)
    ensures s != "" ==> (AsBytes(s)[|AsBytes(s)| - 1] == NEWLINE_BYTE <==> s[|s| - 1] == NEWLINE)
    decreases |s|
  {
    if s != "" {
      CharAscii(s[0]);
      EncodeEnds(s[1..]);
      if |s| > 1 {
        assert s[1..][|s| - 2] == s[|s| - 1];
      }
    }
  }

  /** Marked text encodes to marked bytes, and only marked text does. */
  lemma {:induction false} EncodeMarked(s: string)
    ensures MarkedText(s) <==> MarkedBytes(AsBytes(s))
    decreases |s|
  {
    if s != "" {
      var c, rest := s[..1], s[1..];
      assert s == c + rest;
      EncodeMarked(rest);
      CharAscii(s[0]);
      EncodeEnds(rest);
      var bs := EncodeChar(s[0]);
      assert MarkedBytes(bs) && MarkedText(c);
      assert Closes(c, rest, MARKER, NEWLINE) <==> Closes(bs, AsBytes(rest), MARKER_BYTE, NEWLINE_BYTE);
      LeadsConcat(c, rest, MARKER, NEWLINE);
      LeadsConcat(bs, AsBytes(rest), MARKER_BYTE, NEWLINE_BYTE);
    }
  }

  /** A piece holding an ASCII byte is that byte, and only such a piece decodes to an ASCII character. */
  lemma PieceAscii(piece: seq<byte>)
    requires Grown(piece)
    ensures Value(piece) as int < 0x80 <==> |piece| == 1 && piece[0] < 0x80
    ensures |piece| == 1 && piece[0] < 0x80 ==> Value(piece) as int == piece[0]
    ensures forall k :: 0 <= k < |piece| && piece[k] < 0x80 ==> |piece| == 1
  {
    if |piece| == Announced(piece[0]) {
      ValueFits(piece);
    }
    forall k | 0 <= k < |piece| && piece[k] < 0x80
      ensures |piece| == 1
    {
      if k > 0 {
        ExtendedIsContinuation(piece, k);
      }
    }
  }

  lemma {:induction false} LossyEnds(bs: seq<byte>)
    ensures bs == [] <==> Lossy(bs) == ""
    ensures bs != [] ==> (bs[0] == MARKER_BYTE <==> Lossy(bs)[0] == MARKER)
    ensures bs != [] ==> (bs[|bs| - 1] == NEWLINE_BYTE <==> Lossy(bs)[|Lossy(bs)| - 1] == NEWLINE)
    decreases |bs|
  {
    if bs != [] {
      var n := Piece(bs);
      PieceAscii(bs[..n]);
      LossyEnds(bs[n..]);
      if n == |bs| {
        assert bs[..n] == bs;
      }
    }
  }

  /** A marked byte stream decodes to marked text. */
  lemma {:induction false} LossyMarked(bs: seq<byte>)
    requires MarkedBytes(bs)
    ensures MarkedText(Lossy(bs))
    decreases |bs|
  {
    if bs != [] {
      var n := Piece(bs);
      var piece, rest := bs[..n], bs[n..];
      assert bs == piece + rest;
      LeadsConcat(piece, rest, MARKER_BYTE, NEWLINE_BYTE);
      LossyMarked(rest);
      PieceAscii(piece);
      LossyEnds(rest);
      var c := [Value(piece)];
      LeadsConcat(c, Lossy(rest), MARKER, NEWLINE);
    }
  }
}
