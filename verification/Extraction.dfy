/**
 Getting text out: the extraction script strips marker bytes from the disk, the serial dump strips
 marker characters from memory.
 */
module Extraction {
  import opened Bytes
  import opened Utf8
  import opened Markers

  /** `replace(b"\x1e", b"")` */
  function StripBytes(bs: seq<byte>): seq<byte> {
    if bs == [] then [] else (if bs[0] == MARKER_BYTE then [] else [bs[0]]) + StripBytes(bs[1..])
  }

  /** The characters the dump prints. */
  function StripText(s: string): string {
    if s == "" then "" else (if s[0] == MARKER then "" else [s[0]]) + StripText(s[1..])
  }

  /** The loop that prints them. */
  method Dump(text: string) returns (printed: string)
    ensures printed == StripText(text)
  {
    printed := "";
    assert text[..0] == "";
    for i := 0 to |text|
      invariant printed == StripText(text[..i])
    {
      StripNext(text[..i], text[i]);
      assert text[..i + 1] == text[..i] + [text[i]];
      if text[i] != MARKER {
        printed := printed + [text[i]];
      }
    }
    assert text[..|text|] == text;
  }

  lemma StripNext(s: string, c: char)
    ensures StripText(s + [c]) == StripText(s) + if c == MARKER then "" else [c]
  {
    StripTextConcat(s, [c]);
    assert [c][1..] == "";
  }

  lemma {:induction false} StripTextConcat(s: string, t: string)
    ensures StripText(s + t) == StripText(s) + StripText(t)
    decreases |s|
  {
    if s == "" {
      assert s + t == t;
    } else {
      assert (s + t)[1..] == s[1..] + t;
      StripTextConcat(s[1..], t);
    }
  }

  lemma {:induction false} StripBytesConcat(a: seq<byte>, b: seq<byte>)
    ensures StripBytes(a + b) == StripBytes(a) + StripBytes(b)
    decreases |a|
  {
    if a == [] {
      assert a + b == b;
    } else {
      assert (a + b)[1..] == a[1..] + b;
      StripBytesConcat(a[1..], b);
    }
  }

  lemma {:induction false} StripPlainBytes(bs: seq<byte>)
    requires MARKER_BYTE !in bs
    ensures StripBytes(bs) == bs
    decreases |bs|
  {
    if bs != [] {
      StripPlainBytes(bs[1..]);
      assert bs == [bs[0]] + bs[1..];
    }
  }

  /** A stream that is empty or ends a line has no character open at its end. */
  lemma {:induction false} ClosedCut(a: seq<byte>, b: seq<byte>)
    requires a == [] || a[|a| - 1] < 0x80
    ensures !CutInside(a, b)
    decreases |a|
  {
    if a != [] {
      var n := Piece(a);
      if n < |a| {
        ClosedCut(a[n..], b);
      } else {
        assert a[..n] == a;
        PieceAscii(a);
      }
    }
  }

  /** Position of the first marker byte, or the end. */
  function FirstMarker(bs: seq<byte>): (k: nat)
    ensures k <= |bs| && (k < |bs| ==> bs[k] == MARKER_BYTE)
    ensures MARKER_BYTE !in bs[..k]
  {
    if bs == [] || bs[0] == MARKER_BYTE then 0 else FirstMarker(bs[1..]) + 1
  }

  lemma {:induction false} NoMarkerDecoded(bs: seq<byte>)
    requires MARKER_BYTE !in bs
    ensures StripText(Lossy(bs)) == Lossy(bs)
    decreases |bs|
  {
    if bs != [] {
      var n := Piece(bs);
      PieceAscii(bs[..n]);
      NoMarkerDecoded(bs[n..]);
      assert Lossy(bs)[1..] == Lossy(bs[n..]);
    }
  }

  lemma MarkerAlone()
    ensures Lossy([MARKER_BYTE]) == [MARKER] && StripText([MARKER]) == "" && StripBytes([MARKER_BYTE]) == []
  {
    PieceUnique([MARKER_BYTE], 1);
    assert [MARKER_BYTE][1..] == [] && [MARKER][1..] == "" && [MARKER_BYTE][..1] == [MARKER_BYTE];
  }

  /** One marked line boundary: text before it that needs no stripping, a marker, and the rest. */
  lemma StripStep(a: seq<byte>, b: seq<byte>)
    requires StripBytes(a) == a && StripText(Lossy(a)) == Lossy(a)
    requires a == [] || a[|a| - 1] < 0x80
    requires Lossy(StripBytes(b)) == StripText(Lossy(b))
    ensures Lossy(StripBytes(a + ([MARKER_BYTE] + b))) == StripText(Lossy(a + ([MARKER_BYTE] + b)))
  {
    hide Lossy, StripText, StripBytes, CutInside;
    ClosedCut(a, [MARKER_BYTE] + b);
    ClosedCut(a, StripBytes(b));
    ClosedCut([MARKER_BYTE], b);
    SpliceExact(a, [MARKER_BYTE] + b);
    SpliceExact([MARKER_BYTE], b);
    SpliceExact(a, StripBytes(b));
    MarkerAlone();
    StripBytesConcat(a, [MARKER_BYTE] + b);
    StripBytesConcat([MARKER_BYTE], b);
    StripTextConcat(Lossy(a), [MARKER] + Lossy(b));
    StripTextConcat([MARKER], Lossy(b));
    assert [] + StripBytes(b) == StripBytes(b) && "" + StripText(Lossy(b)) == StripText(Lossy(b));
  }

  /**
   On a stream whose markers lead their lines, stripping before decoding and after decoding give the
   same text: the script and the serial dump agree, crash-damaged characters included.
   */
  lemma {:induction false} DumpIsExtraction(bs: seq<byte>)
    requires MarkedBytes(bs)
    ensures Lossy(StripBytes(bs)) == StripText(Lossy(bs))
    decreases |bs|
  {
    hide Lossy, StripText, StripBytes, FirstMarker;
    var k := FirstMarker(bs);
    var a := bs[..k];
    StripPlainBytes(a);
    NoMarkerDecoded(a);
    if k == |bs| {
      assert a == bs;
    } else {
      var b := bs[k + 1..];
      assert bs == a + ([MARKER_BYTE] + b);
      LeadsPrefix(bs, k + 1, MARKER_BYTE, NEWLINE_BYTE);
      DumpIsExtraction(b);
      assert a == [] || a[|a| - 1] == bs[k - 1] == NEWLINE_BYTE;
      StripStep(a, b);
    }
  }

  lemma StripOne(a: seq<byte>, b: seq<byte>)
    requires MARKER_BYTE !in a && MARKER_BYTE !in b
    ensures StripBytes(a + ([MARKER_BYTE] + b)) == a + b
  {
    hide StripBytes;
    StripPlainBytes(a);
    StripPlainBytes(b);
    MarkerAlone();
    StripBytesConcat([MARKER_BYTE], b);
    StripBytesConcat(a, [MARKER_BYTE] + b);
    assert [] + b == b;
  }

  /** Without that promise they differ: a marker inside a character. */
  lemma DumpNeedsMarks()
    ensures var bs: seq<byte> := [0xE2] + ([MARKER_BYTE] + [0x80, 0x94]);
            Lossy(StripBytes(bs)) != StripText(Lossy(bs))
  {
    var bs: seq<byte> := [0xE2] + ([MARKER_BYTE] + [0x80, 0x94]);
    StripOne([0xE2], [0x80, 0x94]);
    CutDashIsLost();
    PieceUnique(bs, 1);
    PieceAscii(bs[..1]);
    assert Lossy(bs)[0] == REPLACEMENT;
    assert StripText(Lossy(bs))[0] == REPLACEMENT;
  }

  // ------------------------------------------------- a cut shows in the dump

  function Count<T(==)>(s: seq<T>, x: T): nat {
    if s == [] then 0 else (if s[0] == x then 1 else 0) + Count(s[1..], x)
  }

  lemma {:induction false} CountConcat<T>(s: seq<T>, t: seq<T>, x: T)
    ensures Count(s + t, x) == Count(s, x) + Count(t, x)
    decreases |s|
  {
    if s == [] {
      assert s + t == t;
    } else {
      assert (s + t)[1..] == s[1..] + t;
      CountConcat(s[1..], t, x);
    }
  }

  lemma {:induction false} CountNone<T>(s: seq<T>, x: T)
    requires x !in s
    ensures Count(s, x) == 0
    decreases |s|
  {
    if s != [] {
      CountNone(s[1..], x);
    }
  }

  lemma {:induction false} StripLength(s: string)
    ensures |StripText(s)| + Count(s, MARKER) == |s|
    decreases |s|
  {
    if s != "" {
      StripLength(s[1..]);
    }
  }

  /** Decoding neither adds nor loses a marker. */
  lemma {:induction false} MarksDecoded(bs: seq<byte>)
    ensures Count(Lossy(bs), MARKER) == Count(bs, MARKER_BYTE)
    decreases |bs|
  {
    if bs != [] {
      var n := Piece(bs);
      var piece, rest := bs[..n], bs[n..];
      assert bs == piece + rest;
      PieceAscii(piece);
      if |piece| == 1 {
        assert piece[1..] == [];
      } else {
        assert MARKER_BYTE !in piece;
        CountNone(piece, MARKER_BYTE);
      }
      CountConcat(piece, rest, MARKER_BYTE);
      MarksDecoded(rest);
      assert Lossy(bs) == [Value(piece)] + Lossy(rest);
      CountOne(piece);
    }
  }

  lemma CountOne(piece: seq<byte>)
    requires Grown(piece)
    ensures forall rest: string ::
              Count([Value(piece)] + rest, MARKER) == (if Value(piece) == MARKER then 1 else 0) + Count(rest, MARKER)
  {
    forall rest: string
      ensures Count([Value(piece)] + rest, MARKER) == (if Value(piece) == MARKER then 1 else 0) + Count(rest, MARKER)
    {
      assert ([Value(piece)] + rest)[1..] == rest;
    }
  }

  /** Stripped of its markers, text decoded in two parts still tells whether the cut was inside a character. */
  lemma StripSplice(a: seq<byte>, b: seq<byte>)
    ensures StripText(Lossy(a) + Lossy(b)) == StripText(Lossy(a + b)) <==> !CutInside(a, b)
  {
    hide Lossy, StripText, CutInside, Count;
    SpliceExact(a, b);
    if CutInside(a, b) {
      SpliceLength(a, b);
      MarksDecoded(a);
      MarksDecoded(b);
      MarksDecoded(a + b);
      CountConcat(a, b, MARKER_BYTE);
      CountConcat(Lossy(a), Lossy(b), MARKER);
      StripLength(Lossy(a) + Lossy(b));
      StripLength(Lossy(a + b));
    }
  }
}
