/** Bytes, sectors and little-endian numbers: the vocabulary every other module shares. */
module Bytes {

  type byte = x: int | 0 <= x < 256

  datatype Option<+T> = None | Some(value: T)

  /** One disk sector (`SECTOR_SIZE`). */
  const SECTOR_SIZE: nat := 512

  type Sector = s: seq<byte> | |s| == SECTOR_SIZE witness seq(SECTOR_SIZE, i => 0)

  function Zeros(n: nat): (z: seq<byte>)
    ensures |z| == n
    ensures forall i :: 0 <= i < n ==> z[i] == 0
  {
    seq(n, i => 0)
  }

  function Min(a: int, b: int): int {
    if a < b then a else b
  }

  /** `n.to_le_bytes()` for an unsigned integer of `width` bytes. */
  function ToLe(n: nat, width: nat): (bs: seq<byte>)
    ensures |bs| == width
  {
    if width == 0 then [] else [n % 256] + ToLe(n / 256, width - 1)
  }

  /** `from_le_bytes`. */
  function FromLe(bs: seq<byte>): nat {
    if bs == [] then 0 else bs[0] + 256 * FromLe(bs[1..])
  }

  /** 256 to the power `width`: the first number that does not fit. */
  function Range(width: nat): (r: nat)
    ensures r >= 1
  {
    if width == 0 then 1 else 256 * Range(width - 1)
  }

  lemma {:induction false} FromToLe(n: nat, width: nat)
    requires n < Range(width)
    ensures FromLe(ToLe(n, width)) == n
  {
    if width != 0 {
      FromToLe(n / 256, width - 1);
      assert ToLe(n, width)[1..] == ToLe(n / 256, width - 1);
    }
  }

  lemma {:induction false} ToFromLe(bs: seq<byte>)
    ensures ToLe(FromLe(bs), |bs|) == bs
    ensures FromLe(bs) < Range(|bs|)
  {
    if bs != [] {
      var high := FromLe(bs[1..]);
      DivMod256(bs[0], high);
      ToFromLe(bs[1..]);
      assert bs == [bs[0]] + bs[1..];
    }
  }

  lemma DivMod256(low: byte, high: nat)
    ensures (low + 256 * high) % 256 == low && (low + 256 * high) / 256 == high
  {}

  /** The two directions of the codec in one equivalence. */
  lemma LeExact(bs: seq<byte>, n: nat)
    requires n < Range(|bs|)
    ensures FromLe(bs) == n <==> bs == ToLe(n, |bs|)
  {
    FromToLe(n, |bs|);
    ToFromLe(bs);
  }

  // ------------------------------------------------- bytes inside 32-bit words

  /** Bit `k` of a byte, as a truth value. */
  predicate Bit(b: nat, p: nat)
    requires p > 0
  {
    b / p % 2 == 1
  }

  /** The word whose low eight bits are these, lowest first. */
  function Word(b0: bool, b1: bool, b2: bool, b3: bool, b4: bool, b5: bool, b6: bool, b7: bool): bv32 {
    (if b0 then 1 else 0) | (if b1 then 2 else 0) | (if b2 then 4 else 0) | (if b3 then 8 else 0)
    | (if b4 then 16 else 0) | (if b5 then 32 else 0) | (if b6 then 64 else 0) | (if b7 then 128 else 0)
  }

  /** `byte as u32`. */
  function Widen(b: byte): bv32 {
    Spread(b, 8)
  }

  /** The low `k` binary digits of `n` as a word. */
  function Spread(n: nat, k: nat): bv32 {
    if k == 0 then 0 else Binary(n % 2 == 1, Spread(n / 2, k - 1))
  }

  function Binary(low: bool, high: bv32): bv32 {
    (if low then 1 else 0) | (high << 1)
  }

  function Unit(c: bv32, mask: bv32, p: nat): nat {
    if c & mask == 0 then 0 else p
  }

  /** `c as u8`: the low eight bits. */
  function Narrow(c: bv32): (b: byte)
  {
    Unit(c, 1, 1) + Unit(c, 2, 2) + Unit(c, 4, 4) + Unit(c, 8, 8)
    + Unit(c, 16, 16) + Unit(c, 32, 32) + Unit(c, 64, 64) + Unit(c, 128, 128)
  }

  lemma WordBits(b0: bool, b1: bool, b2: bool, b3: bool, b4: bool, b5: bool, b6: bool, b7: bool)
    ensures var c := Word(b0, b1, b2, b3, b4, b5, b6, b7);
            && c < 256
            && (c & 1 != 0 <==> b0) && (c & 2 != 0 <==> b1) && (c & 4 != 0 <==> b2) && (c & 8 != 0 <==> b3)
            && (c & 16 != 0 <==> b4) && (c & 32 != 0 <==> b5) && (c & 64 != 0 <==> b6) && (c & 128 != 0 <==> b7)
  {}

  lemma BitsSum(b: byte)
    ensures b == (if Bit(b, 1) then 1 else 0) + (if Bit(b, 2) then 2 else 0) + (if Bit(b, 4) then 4 else 0)
               + (if Bit(b, 8) then 8 else 0) + (if Bit(b, 16) then 16 else 0) + (if Bit(b, 32) then 32 else 0)
               + (if Bit(b, 64) then 64 else 0) + (if Bit(b, 128) then 128 else 0)
  {
    var h1 := Halve(b, 1, b);
    var h2 := Halve(b, 2, h1);
    var h3 := Halve(b, 4, h2);
    var h4 := Halve(b, 8, h3);
    var h5 := Halve(b, 16, h4);
    var h6 := Halve(b, 32, h5);
    var h7 := Halve(b, 64, h6);
    var h8 := Halve(b, 128, h7);
    hide Bit;
    assert h8 == 0;
  }

  lemma Halve(b: nat, p: nat, h: nat) returns (q: nat)
    requires p in {1, 2, 4, 8, 16, 32, 64, 128} && h == b / p
    ensures q == b / (2 * p) && h == 2 * q + (if Bit(b, p) then 1 else 0)
  {
    q := h / 2;
  }

  function Four(b0: bool, b1: bool, b2: bool, b3: bool, high: bv32): bv32 {
    (if b0 then 1 else 0) | (if b1 then 2 else 0) | (if b2 then 4 else 0) | (if b3 then 8 else 0) | (high << 4)
  }

  lemma FourDigits(b0: bool, b1: bool, b2: bool, b3: bool, high: bv32)
    ensures Binary(b0, Binary(b1, Binary(b2, Binary(b3, high)))) == Four(b0, b1, b2, b3, high)
  {}

  lemma EightDigits(b0: bool, b1: bool, b2: bool, b3: bool, b4: bool, b5: bool, b6: bool, b7: bool)
    ensures Four(b0, b1, b2, b3, Four(b4, b5, b6, b7, 0)) == Word(b0, b1, b2, b3, b4, b5, b6, b7)
  {}

  lemma NestedDigits(b0: bool, b1: bool, b2: bool, b3: bool, b4: bool, b5: bool, b6: bool, b7: bool)
    ensures Binary(b0, Binary(b1, Binary(b2, Binary(b3, Binary(b4, Binary(b5, Binary(b6, Binary(b7, 0))))))))
         == Word(b0, b1, b2, b3, b4, b5, b6, b7)
  {
    hide *;
    FourDigits(b4, b5, b6, b7, 0);
    FourDigits(b0, b1, b2, b3, Four(b4, b5, b6, b7, 0));
    EightDigits(b0, b1, b2, b3, b4, b5, b6, b7);
  }

  lemma SpreadDigit(b: byte, p: nat, h: nat, k: nat) returns (q: nat)
    requires p in {1, 2, 4, 8, 16, 32, 64, 128} && h == b / p && k > 0
    ensures q == b / (2 * p) && Spread(h, k) == Binary(Bit(b, p), Spread(q, k - 1))
  {
    hide Bit, Binary;
    q := Halve(b, p, h);
  }

  lemma SpreadFour(b: byte, p: nat, h: nat, k: nat) returns (q: nat)
    requires (p == 1 || p == 16) && h == b / p && k >= 4
    ensures q == b / (16 * p)
    ensures Spread(h, k)
         == Binary(Bit(b, p), Binary(Bit(b, 2 * p), Binary(Bit(b, 4 * p), Binary(Bit(b, 8 * p), Spread(q, k - 4)))))
  {
    hide Bit, Binary, Spread;
    var h1 := SpreadDigit(b, p, h, k);
    var h2 := SpreadDigit(b, 2 * p, h1, k - 1);
    var h3 := SpreadDigit(b, 4 * p, h2, k - 2);
    q := SpreadDigit(b, 8 * p, h3, k - 3);
  }

  lemma SpreadEight(b: byte)
    ensures Widen(b) == Binary(Bit(b, 1), Binary(Bit(b, 2), Binary(Bit(b, 4), Binary(Bit(b, 8),
                        Binary(Bit(b, 16), Binary(Bit(b, 32), Binary(Bit(b, 64), Binary(Bit(b, 128), 0))))))))
  {
    hide Bit, Binary;
    var h4 := SpreadFour(b, 1, b, 8);
    var h8 := SpreadFour(b, 16, h4, 4);
    assert Spread(h8, 0) == 0;
    hide Spread;
  }

  /** The same word, written out bit by bit. */
  lemma WidenBits(b: byte)
    ensures Widen(b)
         == Word(Bit(b, 1), Bit(b, 2), Bit(b, 4), Bit(b, 8), Bit(b, 16), Bit(b, 32), Bit(b, 64), Bit(b, 128))
  {
    hide *;
    SpreadEight(b);
    NestedDigits(Bit(b, 1), Bit(b, 2), Bit(b, 4), Bit(b, 8), Bit(b, 16), Bit(b, 32), Bit(b, 64), Bit(b, 128));
  }

  lemma WidenSmall(b: byte)
    ensures Widen(b) < 256
  {
    hide Word, Bit, Widen;
    WidenBits(b);
    WordBits(Bit(b, 1), Bit(b, 2), Bit(b, 4), Bit(b, 8), Bit(b, 16), Bit(b, 32), Bit(b, 64), Bit(b, 128));
  }

  lemma NarrowWord(b0: bool, b1: bool, b2: bool, b3: bool, b4: bool, b5: bool, b6: bool, b7: bool)
    ensures Narrow(Word(b0, b1, b2, b3, b4, b5, b6, b7))
         == (if b0 then 1 else 0) + (if b1 then 2 else 0) + (if b2 then 4 else 0) + (if b3 then 8 else 0)
          + (if b4 then 16 else 0) + (if b5 then 32 else 0) + (if b6 then 64 else 0) + (if b7 then 128 else 0)
  {
    hide Word;
    WordBits(b0, b1, b2, b3, b4, b5, b6, b7);
  }

  lemma NarrowWiden(b: byte)
    ensures Narrow(Widen(b)) == b
  {
    hide Word, Bit, Narrow, Widen;
    WidenBits(b);
    NarrowWord(Bit(b, 1), Bit(b, 2), Bit(b, 4), Bit(b, 8), Bit(b, 16), Bit(b, 32), Bit(b, 64), Bit(b, 128));
    BitsSum(b);
  }

  lemma WidenInjective(a: byte, b: byte)
    requires Widen(a) == Widen(b)
    ensures a == b
  {
    hide Widen, Narrow;
    NarrowWiden(a);
    NarrowWiden(b);
  }

  /** The bits of a sum of distinct powers of two. */
  lemma SumBits(n: nat, b0: bool, b1: bool, b2: bool, b3: bool, b4: bool, b5: bool, b6: bool, b7: bool)
    requires n == (if b0 then 1 else 0) + (if b1 then 2 else 0) + (if b2 then 4 else 0) + (if b3 then 8 else 0)
                + (if b4 then 16 else 0) + (if b5 then 32 else 0) + (if b6 then 64 else 0) + (if b7 then 128 else 0)
    ensures Bit(n, 1) == b0 && Bit(n, 2) == b1 && Bit(n, 4) == b2 && Bit(n, 8) == b3
    ensures Bit(n, 16) == b4 && Bit(n, 32) == b5 && Bit(n, 64) == b6 && Bit(n, 128) == b7
  {
    hide Bit;
    var m7 := if b7 then 1 else 0;
    var m6 := 2 * m7 + if b6 then 1 else 0;
    var m5 := 2 * m6 + if b5 then 1 else 0;
    var m4 := 2 * m5 + if b4 then 1 else 0;
    var m3 := 2 * m4 + if b3 then 1 else 0;
    var m2 := 2 * m3 + if b2 then 1 else 0;
    var m1 := 2 * m2 + if b1 then 1 else 0;
    Peel(n, 1, n, b0, m1);
    Peel(n, 2, m1, b1, m2);
    Peel(n, 4, m2, b2, m3);
    Peel(n, 8, m3, b3, m4);
    Peel(n, 16, m4, b4, m5);
    Peel(n, 32, m5, b5, m6);
    Peel(n, 64, m6, b6, m7);
    Peel(n, 128, m7, b7, 0);
  }

  lemma Peel(n: nat, p: nat, h: nat, b: bool, m: nat)
    requires p in {1, 2, 4, 8, 16, 32, 64, 128} && h == n / p
    requires h == 2 * m + if b then 1 else 0
    ensures Bit(n, p) == b && m == n / (2 * p)
  {}

  lemma LowBits(c: bv32)
    ensures Word(c & 1 != 0, c & 2 != 0, c & 4 != 0, c & 8 != 0, c & 16 != 0, c & 32 != 0, c & 64 != 0, c & 128 != 0)
         == c & 0xFF
  {}

  lemma WidenNarrow(c: bv32)
    ensures Widen(Narrow(c)) == c & 0xFF
  {
    hide Word, Bit, Widen;
    LowBits(c);
    WidenBits(Narrow(c));
    SumBits(Narrow(c), c & 1 != 0, c & 2 != 0, c & 4 != 0, c & 8 != 0, c & 16 != 0, c & 32 != 0, c & 64 != 0,
            c & 128 != 0);
  }

  /** `u32::to_le_bytes`. */
  function ToLe32(c: bv32): (bs: seq<byte>)
    ensures |bs| == 4
  {
    [Narrow(c), Narrow(c >> 8), Narrow(c >> 16), Narrow(c >> 24)]
  }

  /** `u32::from_le_bytes`. */
  function FromLe32(bs: seq<byte>): bv32
    requires |bs| == 4
  {
    Join(Widen(bs[0]), Widen(bs[1]), Widen(bs[2]), Widen(bs[3]))
  }

  function Join(a: bv32, b: bv32, c: bv32, d: bv32): bv32 {
    a | (b << 8) | (c << 16) | (d << 24)
  }

  lemma JoinSplit(c: bv32)
    ensures Join(c & 0xFF, (c >> 8) & 0xFF, (c >> 16) & 0xFF, (c >> 24) & 0xFF) == c
  {}

  lemma JoinInjective(a: bv32, b: bv32, c: bv32, d: bv32, a': bv32, b': bv32, c': bv32, d': bv32)
    requires a < 256 && b < 256 && c < 256 && d < 256 && a' < 256 && b' < 256 && c' < 256 && d' < 256
    requires Join(a, b, c, d) == Join(a', b', c', d')
    ensures a == a' && b == b' && c == c' && d == d'
  {}

  lemma FromToLe32(c: bv32)
    ensures FromLe32(ToLe32(c)) == c
  {
    hide Widen, Narrow, Join;
    JoinSplit(c);
    WidenNarrow(c);
    WidenNarrow(c >> 8);
    WidenNarrow(c >> 16);
    WidenNarrow(c >> 24);
  }

  lemma FromLe32Injective(a: seq<byte>, b: seq<byte>)
    requires |a| == |b| == 4 && FromLe32(a) == FromLe32(b)
    ensures a == b
  {
    hide Widen, Join;
    forall k | 0 <= k < 4
      ensures Widen(a[k]) < 256 && Widen(b[k]) < 256
    {
      WidenSmall(a[k]);
      WidenSmall(b[k]);
    }
    JoinInjective(Widen(a[0]), Widen(a[1]), Widen(a[2]), Widen(a[3]),
                  Widen(b[0]), Widen(b[1]), Widen(b[2]), Widen(b[3]));
    WidenInjective(a[0], b[0]);
    WidenInjective(a[1], b[1]);
    WidenInjective(a[2], b[2]);
    WidenInjective(a[3], b[3]);
  }

  lemma Le32Exact(bs: seq<byte>, c: bv32)
    requires |bs| == 4
    ensures FromLe32(bs) == c <==> bs == ToLe32(c)
  {
    hide FromLe32, ToLe32;
    FromToLe32(c);
    if FromLe32(bs) == c {
      FromLe32Injective(bs, ToLe32(c));
    }
  }
}
