/**
 UTF-8 as the scroll uses it: `char::encode_utf8`, and `String::from_utf8_lossy` with its
 replacement of every maximal ill-formed piece by one U+FFFD (section 3.9 of the Unicode Standard).
 */
module Utf8 {
  import opened Bytes

  const REPLACEMENT: char := '\U{FFFD}'

  /** `char::len_utf8` */
  function Width(c: char): (n: nat)
    ensures 1 <= n <= 4
  {
    var n := c as int;
    if n < 0x80 then 1 else if n < 0x800 then 2 else if n < 0x10000 then 3 else 4
  }

  /** `char::encode_utf8` */
  function EncodeChar(c: char): (bs: seq<byte>)
    ensures |bs| == Width(c)
  {
    var n := c as int;
    if n < 0x80 then [n]
    else if n < 0x800 then [0xC0 + n / 0x40, 0x80 + n % 0x40]
    else if n < 0x10000 then [0xE0 + n / 0x1000, 0x80 + n / 0x40 % 0x40, 0x80 + n % 0x40]
    else [0xF0 + n / 0x40000, 0x80 + n / 0x1000 % 0x40, 0x80 + n / 0x40 % 0x40, 0x80 + n % 0x40]
  }

  /** The bytes of a `String`. */
  function AsBytes(s: string): seq<byte> {
    if s == "" then [] else EncodeChar(s[0]) + AsBytes(s[1..])
  }

  /** How many bytes a lead byte announces; 0 for a byte that cannot start a character. */
  function Announced(b: byte): (n: nat)
    ensures n <= 4
  {
    if b < 0x80 then 1
    else if 0xC2 <= b <= 0xDF then 2
    else if 0xE0 <= b <= 0xEF then 3
    else if 0xF0 <= b <= 0xF4 then 4
    else 0
  }

  predicate Continuation(b: byte) {
    0x80 <= b <= 0xBF
  }

  /** The second bytes a lead byte accepts (no overlong forms, no surrogates, nothing past U+10FFFF). */
  predicate SecondOk(lead: byte, b: byte) {
    if lead == 0xE0 then 0xA0 <= b <= 0xBF
    else if lead == 0xED then 0x80 <= b <= 0x9F
    else if lead == 0xF0 then 0x90 <= b <= 0xBF
    else if lead == 0xF4 then 0x80 <= b <= 0x8F
    else Continuation(b)
  }

  /** May `b` follow the well-formed start `piece` of a character? */
  predicate Extends(piece: seq<byte>, b: byte)
    requires piece != []
  {
    |piece| < Announced(piece[0]) && if |piece| == 1 then SecondOk(piece[0], b) else Continuation(b)
  }

  /** Every byte after the first extends what came before it. */
  ghost predicate Grown(piece: seq<byte>) {
    piece != [] && forall k {:trigger piece[k]} :: 1 <= k < |piece| ==> Extends(piece[..k], piece[k])
  }

  /** The longest start of a character at the head of `bs`, grown from a start of `k` bytes. */
  function PieceFrom(bs: seq<byte>, k: nat): (n: nat)
    requires 1 <= k <= |bs|
    requires Grown(bs[..k])
    ensures k <= n <= |bs|
    ensures Grown(bs[..n])
    ensures n < |bs| ==> !Extends(bs[..n], bs[n])
    decreases |bs| - k
  {
    if k < |bs| && Extends(bs[..k], bs[k]) then
      GrowPiece(bs, k);
      PieceFrom(bs, k + 1)
    else k
  }

  lemma GrowPiece(bs: seq<byte>, k: nat)
    requires 1 <= k < |bs| && Grown(bs[..k]) && Extends(bs[..k], bs[k])
    ensures Grown(bs[..k + 1])
  {
    var piece := bs[..k + 1];
    forall j | 1 <= j < |piece|
      ensures Extends(piece[..j], piece[j])
    {
      assert piece[..j] == bs[..k][..j] || j == k;
      assert j < k ==> piece[j] == bs[..k][j];
      assert j == k ==> piece[..j] == bs[..k];
    }
  }

  /** The number of bytes the next character, or the next U+FFFD, stands for. */
  function Piece(bs: seq<byte>): (n: nat)
    requires bs != []
    ensures 1 <= n <= |bs|
    ensures Grown(bs[..n])
    ensures n < |bs| ==> !Extends(bs[..n], bs[n])
  {
    PieceFrom(bs, 1)
  }

  /** The character of a piece as long as its lead byte announced; U+FFFD for any other piece. */
  function Value(piece: seq<byte>): char
    requires Grown(piece)
  {
    if |piece| != Announced(piece[0]) then REPLACEMENT
    else
      ValueFits(piece);
      Scalar(piece) as char
  }

  function Scalar(piece: seq<byte>): (n: int)
    requires 1 <= |piece| <= 4
  {
    var b: seq<int> := piece;
    if |b| == 1 then b[0]
    else if |b| == 2 then (b[0] - 0xC0) * 0x40 + (b[1] - 0x80)
    else if |b| == 3 then (b[0] - 0xE0) * 0x1000 + (b[1] - 0x80) * 0x40 + (b[2] - 0x80)
    else (b[0] - 0xF0) * 0x40000 + (b[1] - 0x80) * 0x1000 + (b[2] - 0x80) * 0x40 + (b[3] - 0x80)
  }

  /** A complete piece is a Unicode scalar value, and only one byte long below 0x80. */
  lemma ValueFits(piece: seq<byte>)
    requires Grown(piece) && |piece| == Announced(piece[0])
    ensures 0 <= Scalar(piece) < 0xD800 || 0xE000 <= Scalar(piece) < 0x110000
    ensures Scalar(piece) < 0x80 <==> |piece| == 1
  {
    assert |piece| > 1 ==> Extends(piece[..1], piece[1]) && piece[..1] == [piece[0]];
    assert |piece| > 2 ==> Extends(piece[..2], piece[2]);
    assert |piece| > 3 ==> Extends(piece[..3], piece[3]);
  }

  /** `String::from_utf8_lossy` */
  function Lossy(bs: seq<byte>): string {
    if bs == [] then "" else [Value(bs[..Piece(bs)])] + Lossy(bs[Piece(bs)..])
  }

  // ------------------------------------------------- encoding is undone by decoding

  lemma EncodeConcat(s: string, t: string)
    ensures AsBytes(s + t) == AsBytes(s) + AsBytes(t)
  {
    if s == "" {
      assert s + t == t;
    } else {
      assert (s + t)[1..] == s[1..] + t;
      EncodeConcat(s[1..], t);
    }
  }

  lemma CharBytes(c: char)
    ensures var bs := EncodeChar(c);
            && Announced(bs[0]) == |bs|
            && (|bs| > 1 ==> SecondOk(bs[0], bs[1]))
            && (forall k :: 2 <= k < |bs| ==> Continuation(bs[k]))
            && Scalar(bs) == c as int
            && !Continuation(bs[0])
  {
    var n := c as int;
    if n < 0x80 {
    } else if n < 0x800 {
      TwoBytes(n);
      assert EncodeChar(c) == [0xC0 + n / 0x40, 0x80 + n % 0x40];
    } else if n < 0x10000 {
      ThreeBytes(n);
      assert EncodeChar(c) == [0xE0 + n / 0x1000, 0x80 + n / 0x40 % 0x40, 0x80 + n % 0x40];
    } else {
      FourBytes(n);
      assert EncodeChar(c) == [0xF0 + n / 0x40000, 0x80 + n / 0x1000 % 0x40, 0x80 + n / 0x40 % 0x40, 0x80 + n % 0x40];
    }
  }

  lemma TwoBytes(n: nat)
    requires 0x80 <= n < 0x800
    ensures n == n / 0x40 * 0x40 + n % 0x40 && 2 <= n / 0x40 < 0x20
  {}

  lemma ThreeBytes(n: nat)
    requires 0x800 <= n < 0xD800 || 0xE000 <= n < 0x10000
    ensures n == n / 0x1000 * 0x1000 + n / 0x40 % 0x40 * 0x40 + n % 0x40 && n / 0x1000 < 0x10
    ensures n / 0x1000 == 0 ==> n / 0x40 % 0x40 >= 0x20
    ensures n / 0x1000 == 0xD ==> n / 0x40 % 0x40 < 0x20
  {
    var m := n / 0x40;
    assert n == m * 0x40 + n % 0x40;
    assert m / 0x40 == n / 0x1000;
    assert m == m / 0x40 * 0x40 + m % 0x40;
  }

  lemma FourBytes(n: nat)
    requires 0x10000 <= n < 0x110000
    ensures n == n / 0x40000 * 0x40000 + n / 0x1000 % 0x40 * 0x1000 + n / 0x40 % 0x40 * 0x40 + n % 0x40
    ensures n / 0x40000 <= 4
    ensures n / 0x40000 == 0 ==> n / 0x1000 % 0x40 >= 0x10
    ensures n / 0x40000 == 4 ==> n / 0x1000 % 0x40 < 0x10
  {
    var m := n / 0x40;
    assert n == m * 0x40 + n % 0x40;
    var l := m / 0x40;
    assert l == n / 0x1000;
    assert m == l * 0x40 + m % 0x40;
    assert l / 0x40 == n / 0x40000;
    assert l == l / 0x40 * 0x40 + l % 0x40;
  }

  lemma CharGrown(c: char)
    ensures Grown(EncodeChar(c)) && Value(EncodeChar(c)) == c
  {
    CharBytes(c);
    var bs := EncodeChar(c);
    forall k | 1 <= k < |bs|
      ensures Extends(bs[..k], bs[k])
    {}
  }

  /** Nothing extends a complete piece, and any other byte string is cut where growth stops. */
  lemma {:induction false} PieceIs(bs: seq<byte>, k: nat, n: nat)
    requires 1 <= k <= n <= |bs| && Grown(bs[..n]) && Grown(bs[..k])
    requires n == |bs| || !Extends(bs[..n], bs[n])
    ensures PieceFrom(bs, k) == n
    decreases n - k
  {
    if k < n {
      assert bs[..n][..k] == bs[..k] && bs[..n][k] == bs[k];
      GrowPiece(bs, k);
      PieceIs(bs, k + 1, n);
    }
  }

  lemma PieceUnique(bs: seq<byte>, n: nat)
    requires 1 <= n <= |bs| && Grown(bs[..n])
    requires n == |bs| || !Extends(bs[..n], bs[n])
    ensures Piece(bs) == n
  {
    PieceIs(bs, 1, n);
  }

  lemma {:induction false} LossyEncode(s: string)
    ensures Lossy(AsBytes(s)) == s
  {
    if s != "" {
      var bs, head := AsBytes(s), EncodeChar(s[0]);
      CharGrown(s[0]);
      CharBytes(s[0]);
      assert bs[..|head|] == head && bs[|head|..] == AsBytes(s[1..]);
      PieceUnique(bs, |head|);
      LossyEncode(s[1..]);
    }
  }

  // ------------------------------------------------- decoding is undone by encoding

  lemma LastDigit(x: nat, y: nat)
    requires y < 0x40
    ensures (0x40 * x + y) / 0x40 == x && (0x40 * x + y) % 0x40 == y
  {}

  lemma TwoDigits64(x: nat, y: nat, z: nat)
    requires y < 0x40 && z < 0x40
    ensures var n := 0x1000 * x + 0x40 * y + z;
            n / 0x1000 == x && n / 0x40 % 0x40 == y && n % 0x40 == z
  {
    LastDigit(0x40 * x + y, z);
    LastDigit(x, y);
  }

  lemma ThreeDigits64(w: nat, x: nat, y: nat, z: nat)
    requires x < 0x40 && y < 0x40 && z < 0x40
    ensures var n := 0x40000 * w + 0x1000 * x + 0x40 * y + z;
            n / 0x40000 == w && n / 0x1000 % 0x40 == x && n / 0x40 % 0x40 == y && n % 0x40 == z
  {
    TwoDigits64(0x40 * w + x, y, z);
    LastDigit(w, x);
  }

  /** Where the pieces of each length lie: no overlong forms. */
  lemma PieceBytes(piece: seq<byte>)
    requires Grown(piece) && |piece| == Announced(piece[0])
    ensures |piece| > 1 ==> SecondOk(piece[0], piece[1]) && 0x80 <= piece[1] <= 0xBF
    ensures |piece| > 2 ==> 0x80 <= piece[2] <= 0xBF
    ensures |piece| > 3 ==> 0x80 <= piece[3] <= 0xBF
  {
    assert |piece| > 1 ==> Extends(piece[..1], piece[1]) && piece[..1] == [piece[0]];
    assert |piece| > 2 ==> Extends(piece[..2], piece[2]);
    assert |piece| > 3 ==> Extends(piece[..3], piece[3]);
  }

  /** A complete piece is the encoding of its character. */
  lemma EncodeValue(piece: seq<byte>)
    requires Grown(piece) && |piece| == Announced(piece[0])
    ensures EncodeChar(Value(piece)) == piece
  {
    ValueFits(piece);
    PieceBytes(piece);
    hide Grown, Extends;
    var b: seq<int> := piece;
    if |piece| == 2 {
      LastDigit(b[0] - 0xC0, b[1] - 0x80);
    } else if |piece| == 3 {
      TwoDigits64(b[0] - 0xE0, b[1] - 0x80, b[2] - 0x80);
    } else if |piece| == 4 {
      ThreeDigits64(b[0] - 0xF0, b[1] - 0x80, b[2] - 0x80, b[3] - 0x80);
    }
  }

  /** Bytes whose decoding shows no U+FFFD are the encoding of what they decode to. */
  lemma {:induction false} EncodeLossy(bs: seq<byte>)
    requires REPLACEMENT !in Lossy(bs)
    ensures AsBytes(Lossy(bs)) == bs
    decreases |bs|
  {
    hide *;
    if bs == [] {
      NothingDecoded();
    } else {
      var n := Piece(bs);
      var c, rest := Value(bs[..n]), Lossy(bs[n..]);
      LossyHead(bs, c, rest);
      EncodeLossy(bs[n..]);
      WholePiece(bs[..n]);
      EncodeValue(bs[..n]);
      EncodeHead(c, rest);
    }
  }

  lemma NothingDecoded()
    ensures AsBytes(Lossy([])) == []
  {}

  lemma LossyHead(bs: seq<byte>, c: char, rest: string)
    requires bs != [] && c == Value(bs[..Piece(bs)]) && rest == Lossy(bs[Piece(bs)..])
    ensures Lossy(bs) == [c] + rest && bs == bs[..Piece(bs)] + bs[Piece(bs)..]
    ensures REPLACEMENT !in Lossy(bs) ==> REPLACEMENT !in rest && REPLACEMENT != c
  {
    hide Value, Piece;
    assert c in [c] + rest && forall x <- rest :: x in [c] + rest;
  }

  lemma EncodeHead(c: char, rest: string)
    ensures AsBytes([c] + rest) == EncodeChar(c) + AsBytes(rest)
  {
    assert ([c] + rest)[1..] == rest;
  }

  lemma WholePiece(piece: seq<byte>)
    requires Grown(piece) && Value(piece) != REPLACEMENT
    ensures |piece| == Announced(piece[0])
  {
    hide Grown;
  }

  // ------------------------------------------------- cutting a byte stream in two

  /** The last piece the decoder sees in `a`: the character still open at its end, if one is. */
  ghost function LastPiece(a: seq<byte>): (piece: seq<byte>)
    requires a != []
    ensures piece != []
  {
    if Piece(a) == |a| then a else LastPiece(a[Piece(a)..])
  }

  /** The cut between `a` and `b` falls inside a character: the byte after it continues the last piece before it. */
  ghost predicate CutInside(a: seq<byte>, b: seq<byte>) {
    a != [] && b != [] && Extends(LastPiece(a), b[0])
  }

  lemma PieceAcross(a: seq<byte>, b: seq<byte>)
    requires a != []
    ensures Piece(a) < |a| || b == [] || !Extends(a, b[0]) ==> Piece(a + b) == Piece(a)
    ensures Piece(a) == |a| && b != [] && Extends(a, b[0]) ==> Piece(a + b) > |a|
  {
    var n := Piece(a);
    var ab := a + b;
    assert ab[..n] == a[..n];
    if n < |a| || b == [] || !Extends(a, b[0]) {
      PieceUnique(ab, n);
    } else if n == |a| {
      assert ab[..n] == a && ab[n] == b[0];
    }
  }

  /** Bytes that only continue a character are one U+FFFD each when they come first. */
  lemma {:induction false} StrayContinuations(b: seq<byte>, m: nat)
    requires m <= |b| && forall k :: 0 <= k < m ==> Continuation(b[k])
    ensures |Lossy(b)| == m + |Lossy(b[m..])|
  {
    if m == 0 {
      assert b[0..] == b;
    } else {
      assert !Extends(b[..1], if |b| > 1 then b[1] else 0);
      PieceUnique(b, 1);
      StrayContinuations(b[1..], m - 1);
      assert b[1..][m - 1..] == b[m..];
    }
  }

  lemma ExtendedIsContinuation(piece: seq<byte>, k: nat)
    requires Grown(piece) && 1 <= k < |piece|
    ensures Continuation(piece[k])
  {
    assert Extends(piece[..k], piece[k]);
  }

  lemma StrayBytes(a: seq<byte>, b: seq<byte>, m: nat)
    requires a != [] && m <= |b| && Grown((a + b)[..|a| + m])
    ensures forall k :: 0 <= k < m ==> Continuation(b[k])
  {
    hide Extends, Grown, Continuation;
    forall k | 0 <= k < m
      ensures Continuation(b[k])
    {
      ExtendedIsContinuation((a + b)[..|a| + m], |a| + k);
      assert (a + b)[..|a| + m][|a| + k] == b[k];
    }
  }

  lemma DropConcat<T>(a: seq<T>, b: seq<T>, m: nat)
    requires m <= |b|
    ensures (a + b)[|a| + m..] == b[m..]
  {}

  /** A character that reaches past the cut leaves its last bytes stray behind it. */
  lemma StrayHalf(a: seq<byte>, b: seq<byte>) returns (m: nat)
    requires a != [] && Piece(a) == |a| && b != [] && Extends(a, b[0])
    ensures 1 <= m <= |b|
    ensures |Lossy(a + b)| == 1 + |Lossy(b[m..])| && |Lossy(b)| == m + |Lossy(b[m..])|
  {
    hide *;
    PieceAcross(a, b);
    m := Piece(a + b) - |a|;
    StrayBytes(a, b, m);
    StrayContinuations(b, m);
    LossyLength(a + b);
    DropConcat(a, b, m);
  }

  /** A character cut in two decodes to fewer characters than its halves. */
  lemma SplitCharacter(a: seq<byte>, b: seq<byte>)
    requires a != [] && Piece(a) == |a| && b != [] && Extends(a, b[0])
    ensures |Lossy(a + b)| < |Lossy(a)| + |Lossy(b)|
  {
    var m := StrayHalf(a, b);
    LossyLength(a);
    hide *;
  }

  lemma LossyLength(bs: seq<byte>)
    requires bs != []
    ensures |Lossy(bs)| == 1 + |Lossy(bs[Piece(bs)..])|
  {}

  /** Decoding distributes over a cut exactly when the cut is not inside a character. */
  lemma {:induction false} SpliceExact(a: seq<byte>, b: seq<byte>)
    ensures Lossy(a + b) == Lossy(a) + Lossy(b) <==> !CutInside(a, b)
    decreases |a|
  {
    if a == [] {
      assert a + b == b;
    } else {
      var n := Piece(a);
      PieceAcross(a, b);
      if n == |a| && b != [] && Extends(a, b[0]) {
        SplitCharacter(a, b);
      } else {
        SpliceStep(a, b, n);
        SpliceExact(a[n..], b);
      }
    }
  }

  lemma CancelHead(c: char, x: string, y: string, z: string)
    ensures [c] + x == ([c] + y) + z <==> x == y + z
  {
    assert ([c] + y) + z == [c] + (y + z);
    assert ([c] + x)[1..] == x && ([c] + (y + z))[1..] == y + z;
  }

  /** Peeling the first piece changes neither side of the equivalence. */
  lemma SpliceStep(a: seq<byte>, b: seq<byte>, n: nat)
    requires a != [] && n == Piece(a) == Piece(a + b)
    requires !(n == |a| && b != [] && Extends(a, b[0]))
    ensures Lossy(a + b) == Lossy(a) + Lossy(b) <==> Lossy(a[n..] + b) == Lossy(a[n..]) + Lossy(b)
    ensures CutInside(a, b) <==> CutInside(a[n..], b)
  {
    assert (a + b)[..n] == a[..n] && (a + b)[n..] == a[n..] + b;
    assert Lossy(a + b) == [Value(a[..n])] + Lossy(a[n..] + b);
    assert Lossy(a) == [Value(a[..n])] + Lossy(a[n..]);
    hide Lossy, Piece, Extends, Value;
    CancelHead(Value(a[..n]), Lossy(a[n..] + b), Lossy(a[n..]), Lossy(b));
  }

  lemma SpliceLengthStep(a: seq<byte>, b: seq<byte>, n: nat)
    requires a != [] && n == Piece(a) == Piece(a + b)
    ensures |Lossy(a)| == 1 + |Lossy(a[n..])| && |Lossy(a + b)| == 1 + |Lossy(a[n..] + b)|
  {
    hide *;
    LossyLength(a);
    LossyLength(a + b);
    DropInside(a, b, n);
  }

  lemma DropInside<T>(a: seq<T>, b: seq<T>, n: nat)
    requires n <= |a|
    ensures (a + b)[n..] == a[n..] + b
  {}

  /** A cut inside a character makes the decoded text longer. */
  lemma {:induction false} SpliceLength(a: seq<byte>, b: seq<byte>)
    requires CutInside(a, b)
    ensures |Lossy(a + b)| < |Lossy(a)| + |Lossy(b)|
    decreases |a|
  {
    hide Lossy, Extends;
    var n := Piece(a);
    PieceAcross(a, b);
    if n == |a| && Extends(a, b[0]) {
      SplitCharacter(a, b);
    } else {
      hide Piece;
      SpliceStep(a, b, n);
      hide CutInside;
      SpliceLengthStep(a, b, n);
      SpliceLength(a[n..], b);
    }
  }

  /** Text appended to a byte stream never joins what came before: its first byte starts a character. */
  lemma SpliceText(a: seq<byte>, s: string)
    ensures Lossy(a + AsBytes(s)) == Lossy(a) + s
  {
    if s != "" {
      CharBytes(s[0]);
      assert AsBytes(s)[0] == EncodeChar(s[0])[0];
    }
    SpliceExact(a, AsBytes(s));
    LossyEncode(s);
  }

  /** A cut inside an em dash: three replacement characters instead of the dash. */
  lemma CutDashIsLost()
    ensures CutInside([0xE2], [0x80, 0x94])
    ensures Lossy([0xE2] + [0x80, 0x94]) == "\U{2014}"
    ensures Lossy([0xE2]) + Lossy([0x80, 0x94]) == [REPLACEMENT, REPLACEMENT, REPLACEMENT]
  {
    var dash := "\U{2014}";
    assert dash[1..] == "";
    assert AsBytes(dash) == [0xE2, 0x80, 0x94] == [0xE2] + [0x80, 0x94];
    LossyEncode(dash);
    PieceUnique([0xE2], 1);
    PieceUnique([0x80, 0x94], 1);
    var tail: seq<byte> := [0x80, 0x94];
    assert tail[1..] == [0x94];
    PieceUnique([0x94], 1);
  }
}
