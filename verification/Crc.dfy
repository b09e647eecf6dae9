/**
 CRC-32 of the scroll records: the bitwise loop, the algebra of its step, the changes it is
 certain to detect, and its agreement with the byte-table form of section 8 of RFC 1952.
 */
module Crc {
  import opened Bytes

  /** One bit: `mask = (crc & 1).wrapping_neg()`, then `(crc >> 1) ^ (0xEDB8_8320 & mask)`. */
  function Step(s: bv32): bv32 {
    (s >> 1) ^ (0xEDB8_8320 & (0 - (s & 1)))
  }

  function Step8(s: bv32): bv32 {
    Step(Step(Step(Step(Step(Step(Step(Step(s))))))))
  }

  /** One byte of the outer loop: `crc ^= byte`, then eight steps. */
  function Feed(s: bv32, b: byte): bv32 {
    Mix(s, Widen(b))
  }

  function Mix(s: bv32, w: bv32): bv32 {
    Step8(s ^ w)
  }

  /** The register after reading `data`, starting from register `s`. */
  function Register(s: bv32, data: seq<byte>): bv32
    decreases |data|
  {
    if data == [] then s else Register(Feed(s, data[0]), data[1..])
  }

  const INITIAL: bv32 := 0xFFFF_FFFF

  function Crc32(data: seq<byte>): bv32 {
    Inverted(Register(INITIAL, data))
  }

  function Inverted(s: bv32): bv32 {
    !s
  }

  /** The steps still to run on one byte of the inner loop. */
  function Steps(s: bv32, n: nat): bv32
    decreases n
  {
    if n == 0 then s else Steps(Step(s), n - 1)
  }

  lemma EightSteps(s: bv32)
    ensures Steps(s, 8) == Step8(s)
  {
    hide Step;
    var s4 := Step(Step(Step(Step(s))));
    calc {
      Steps(s, 8);
      Steps(Step(Step(s)), 6);
      Steps(s4, 4);
      Steps(Step(Step(s4)), 2);
      Step8(s);
    }
  }

  /** The nested loops of `crc32`. */
  method ComputeCrc32(data: seq<byte>) returns (r: bv32)
    ensures r == Crc32(data)
  {
    hide Feed, Inverted;
    var crc := INITIAL;
    for k := 0 to |data|
      invariant Register(crc, data[k..]) == Register(INITIAL, data)
    {
      ghost var rest := data[k..];
      assert rest[0] == data[k] && rest[1..] == data[k + 1..];
      crc := ReadByte(crc, data[k]);
    }
    assert data[|data|..] == [];
    r := Finish(crc);
  }

  method Finish(crc: bv32) returns (r: bv32)
    ensures r == Inverted(crc)
  {
    r := !crc;
  }

  /** The inner loop, `for _ in 0..8`. */
  method ReadByte(s: bv32, b: byte) returns (crc: bv32)
    ensures crc == Feed(s, b)
  {
    hide Step8, Widen;
    crc := s ^ Widen(b);
    ghost var start := crc;
    for i := 0 to 8
      invariant Steps(crc, 8 - i) == Steps(start, 8)
    {
      var mask := 0 - (crc & 1);
      crc := (crc >> 1) ^ (0xEDB8_8320 & mask);
    }
    EightSteps(start);
  }

  // ------------------------------------------------- algebra of the step

  lemma StepCases(s: bv32)
    ensures s & 1 == 0 ==> Step(s) == s >> 1
    ensures s & 1 != 0 ==> s & 1 == 1 && Step(s) == (s >> 1) ^ 0xEDB8_8320
  {}

  /** `c` is the exclusive or of `a` and `b`. */
  ghost predicate Sum(c: bv32, a: bv32, b: bv32) {
    c == a ^ b
  }

  lemma XorShift(a: bv32, b: bv32)
    ensures (a ^ b) >> 1 == (a >> 1) ^ (b >> 1)
    ensures (a ^ b) & 1 == (a & 1) ^ (b & 1)
  {}

  lemma XorCancels(a: bv32, b: bv32, p: bv32)
    ensures (a ^ p) ^ (b ^ p) == a ^ b
    ensures (a ^ b) ^ p == (a ^ p) ^ b
    ensures (a ^ b) ^ p == a ^ (b ^ p)
  {}

  /** The step distributes over exclusive or: the CRC is linear. */
  lemma StepLinear(a: bv32, b: bv32)
    ensures Sum(Step(a ^ b), Step(a), Step(b))
  {
    StepCases(a);
    StepCases(b);
    StepCases(a ^ b);
    XorShift(a, b);
    XorCancels(a >> 1, b >> 1, 0xEDB8_8320);
  }

  lemma SumStep(c: bv32, a: bv32, b: bv32)
    requires Sum(c, a, b)
    ensures Sum(Step(c), Step(a), Step(b))
  {
    StepLinear(a, b);
  }

  lemma Step8Linear(c: bv32, a: bv32, b: bv32)
    requires Sum(c, a, b)
    ensures Sum(Step8(c), Step8(a), Step8(b))
  {
    SumStep(c, a, b);
    var c1, a1, b1 := Step(c), Step(a), Step(b);
    SumStep(c1, a1, b1);
    var c2, a2, b2 := Step(c1), Step(a1), Step(b1);
    SumStep(c2, a2, b2);
    var c3, a3, b3 := Step(c2), Step(a2), Step(b2);
    SumStep(c3, a3, b3);
    var c4, a4, b4 := Step(c3), Step(a3), Step(b3);
    SumStep(c4, a4, b4);
    var c5, a5, b5 := Step(c4), Step(a4), Step(b4);
    SumStep(c5, a5, b5);
    var c6, a6, b6 := Step(c5), Step(a5), Step(b5);
    SumStep(c6, a6, b6);
    SumStep(Step(c6), Step(a6), Step(b6));
  }

  /** The inverse of the step: the polynomial has its top bit set, so that bit tells the branch. */
  function Unstep(s: bv32): bv32 {
    if s >= 0x8000_0000 then ((s ^ 0xEDB8_8320) << 1) | 1 else s << 1
  }

  lemma EvenHalves(s: bv32)
    requires s & 1 == 0
    ensures (s >> 1) << 1 == s && (s >> 1) < 0x8000_0000
  {}

  lemma OddHalves(s: bv32)
    requires s & 1 == 1
    ensures ((s >> 1) << 1) | 1 == s
    ensures (s >> 1) ^ 0xEDB8_8320 >= 0x8000_0000
    ensures ((s >> 1) ^ 0xEDB8_8320) ^ 0xEDB8_8320 == s >> 1
  {}

  lemma UnstepStep(s: bv32)
    ensures Unstep(Step(s)) == s
  {
    StepCases(s);
    if s & 1 == 0 {
      EvenHalves(s);
    } else {
      OddHalves(s);
    }
  }

  lemma Step8Injective(a: bv32, b: bv32)
    requires Step8(a) == Step8(b)
    ensures a == b
  {
    var a1, b1 := Step(a), Step(b);
    var a2, b2 := Step(a1), Step(b1);
    var a3, b3 := Step(a2), Step(b2);
    var a4, b4 := Step(a3), Step(b3);
    var a5, b5 := Step(a4), Step(b4);
    var a6, b6 := Step(a5), Step(b5);
    var a7, b7 := Step(a6), Step(b6);
    UnstepStep(a7); UnstepStep(b7);
    UnstepStep(a6); UnstepStep(b6);
    UnstepStep(a5); UnstepStep(b5);
    UnstepStep(a4); UnstepStep(b4);
    UnstepStep(a3); UnstepStep(b3);
    UnstepStep(a2); UnstepStep(b2);
    UnstepStep(a1); UnstepStep(b1);
    UnstepStep(a); UnstepStep(b);
  }

  /** `y` is `x` moved up one place, nothing lost. */
  ghost predicate Twice(y: bv32, x: bv32) {
    y == x << 1 && x < 0x8000_0000
  }

  lemma StepTwice(y: bv32, x: bv32)
    requires Twice(y, x)
    ensures Step(y) == x
  {
    StepCases(y);
    DoubleHalved(x);
  }

  lemma DoubleHalved(x: bv32)
    requires x < 0x8000_0000
    ensures (x << 1) >> 1 == x && (x << 1) & 1 == 0
  {}

  lemma Shifts(x: bv32)
    requires x < 0x100_0000
    ensures Twice(x << 8, x << 7) && Twice(x << 7, x << 6) && Twice(x << 6, x << 5) && Twice(x << 5, x << 4)
    ensures Twice(x << 4, x << 3) && Twice(x << 3, x << 2) && Twice(x << 2, x << 1) && Twice(x << 1, x)
  {}

  /** Eight steps on a register whose low byte is clear only shift. */
  lemma Step8Shifted(x: bv32)
    requires x < 0x100_0000
    ensures Step8(x << 8) == x
  {
    hide Step, Twice;
    Shifts(x);
    StepTwice(x << 8, x << 7);
    StepTwice(x << 7, x << 6);
    StepTwice(x << 6, x << 5);
    StepTwice(x << 5, x << 4);
    StepTwice(x << 4, x << 3);
    StepTwice(x << 3, x << 2);
    StepTwice(x << 2, x << 1);
    StepTwice(x << 1, x);
  }

  // ------------------------------------------------- reading messages

  lemma {:induction false} RegisterConcat(s: bv32, a: seq<byte>, b: seq<byte>)
    ensures Register(s, a + b) == Register(Register(s, a), b)
    decreases |a|
  {
    hide Feed;
    if a == [] {
      assert a + b == b;
    } else {
      assert (a + b)[1..] == a[1..] + b;
      RegisterConcat(Feed(s, a[0]), a[1..], b);
    }
  }

  lemma XorInjective(a: bv32, b: bv32, p: bv32)
    requires a ^ p == b ^ p
    ensures a == b
  {}

  lemma MixInjective(s: bv32, s': bv32, w: bv32)
    requires Mix(s, w) == Mix(s', w)
    ensures s == s'
  {
    hide Step8;
    Step8Injective(s ^ w, s' ^ w);
    XorInjective(s, s', w);
  }

  /** A common suffix never hides a difference. */
  lemma {:induction false} RegisterInjective(s: bv32, s': bv32, data: seq<byte>)
    requires Register(s, data) == Register(s', data)
    ensures s == s'
    decreases |data|
  {
    hide Mix, Widen;
    if data != [] {
      RegisterInjective(Feed(s, data[0]), Feed(s', data[0]), data[1..]);
      MixInjective(s, s', Widen(data[0]));
    }
  }

  /** The two registers differ at most in their low `k` bytes, `k <= 3`. */
  ghost predicate LowBytes(s: bv32, s': bv32, k: nat) {
    s ^ s' < (if k == 0 then 1 else if k == 1 then 0x100 else if k == 2 then 0x1_0000 else 0x100_0000)
  }

  lemma GrowDifference(y: bv32, x: bv32, d: bv32)
    requires y < 0x100_0000 && x == y << 8 && d < 256
    ensures y < 1 ==> x ^ d < 0x100
    ensures y < 0x100 ==> x ^ d < 0x1_0000
    ensures y < 0x1_0000 ==> x ^ d < 0x100_0000
    ensures x ^ d == 0 ==> y == 0 && d == 0
  {}

  lemma DifferenceOfBytes(s: bv32, s': bv32, w: bv32, w': bv32, x: bv32)
    requires w < 256 && w' < 256
    requires Sum(x, s ^ w, s' ^ w')
    ensures s ^ s' == x ^ (w ^ w') && w ^ w' < 256
  {}

  /** One byte run backwards: registers close after it were close before it. */
  lemma MixBack(s: bv32, s': bv32, w: bv32, w': bv32) returns (x: bv32, y: bv32)
    requires w < 256 && w' < 256
    requires Mix(s, w) ^ Mix(s', w') < 0x100_0000
    ensures y == Mix(s, w) ^ Mix(s', w') && s ^ s' == x ^ (w ^ w')
    ensures x == y << 8 && w ^ w' < 256
  {
    hide Step8, Mix;
    x := (s ^ w) ^ (s' ^ w');
    y := Step8(x);
    MixDifference(s, s', w, w');
    DifferenceOfBytes(s, s', w, w', x);
    ShiftBack(x, y);
  }

  lemma MixDifference(s: bv32, s': bv32, w: bv32, w': bv32)
    ensures Step8((s ^ w) ^ (s' ^ w')) == Mix(s, w) ^ Mix(s', w')
  {
    hide Step8;
    Step8Linear((s ^ w) ^ (s' ^ w'), s ^ w, s' ^ w');
  }

  lemma ShiftBack(x: bv32, y: bv32)
    requires y == Step8(x) && y < 0x100_0000
    ensures x == y << 8
  {
    hide Step8;
    Step8Shifted(y);
    Step8Injective(x, y << 8);
  }

  lemma LowBytesBack(s: bv32, s': bv32, b: byte, b': byte, k: nat)
    requires k <= 2 && LowBytes(Feed(s, b), Feed(s', b'), k)
    ensures LowBytes(s, s', k + 1)
  {
    hide Mix, Widen;
    WidenSmall(b);
    WidenSmall(b');
    var x, y := MixBack(s, s', Widen(b), Widen(b'));
    GrowDifference(y, x, Widen(b) ^ Widen(b'));
  }

  lemma SelfXor(a: bv32, b: bv32)
    ensures a == b <==> a ^ b == 0
    ensures a == b <==> LowBytes(a, b, 0)
  {}

  /** Registers that meet after k <= 3 more bytes differ only in their low k bytes. */
  lemma {:induction false} DifferenceBound(s: bv32, s': bv32, m: seq<byte>, m': seq<byte>)
    requires |m| == |m'| <= 3
    requires Register(s, m) == Register(s', m')
    ensures LowBytes(s, s', |m|)
    decreases |m|
  {
    hide Feed, LowBytes;
    if m == [] {
      SelfXor(s, s');
    } else {
      DifferenceBound(Feed(s, m[0]), Feed(s', m'[0]), m[1..], m'[1..]);
      LowBytesBack(s, s', m[0], m'[0], |m| - 1);
    }
  }

  /** Equal registers that end up close read the same byte, and stay equal. */
  lemma SameByte(s: bv32, b: byte, b': byte, k: nat)
    requires k <= 3 && LowBytes(Feed(s, b), Feed(s, b'), k)
    ensures b == b'
  {
    hide Mix, Widen;
    WidenSmall(b);
    WidenSmall(b');
    var x, y := MixBack(s, s, Widen(b), Widen(b'));
    SelfXor(s, s);
    GrowDifference(y, x, Widen(b) ^ Widen(b'));
    SelfXor(Widen(b), Widen(b'));
    WidenInjective(b, b');
  }

  /** From one register, no two windows of at most four bytes lead to the same register. */
  lemma {:induction false} WindowInjective(s: bv32, m: seq<byte>, m': seq<byte>)
    requires |m| == |m'| <= 4
    requires Register(s, m) == Register(s, m')
    ensures m == m'
    decreases |m|
  {
    hide Feed, LowBytes;
    if m != [] {
      DifferenceBound(Feed(s, m[0]), Feed(s, m'[0]), m[1..], m'[1..]);
      SameByte(s, m[0], m'[0], |m| - 1);
      WindowInjective(Feed(s, m[0]), m[1..], m'[1..]);
      assert m == [m[0]] + m[1..] && m' == [m'[0]] + m'[1..];
    }
  }

  /** `m` and `m'` agree outside one window of four consecutive bytes. */
  ghost predicate WithinBurst(m: seq<byte>, m': seq<byte>, at: nat) {
    |m| == |m'| && forall i :: 0 <= i < |m| && !(at <= i < at + 4) ==> m[i] == m'[i]
  }

  /** The common prefix, the two windows and the common suffix. */
  lemma SplitBurst(m: seq<byte>, m': seq<byte>, at: nat)
    returns (p: seq<byte>, w: seq<byte>, w': seq<byte>, q: seq<byte>)
    requires WithinBurst(m, m', at)
    ensures m == p + (w + q) && m' == p + (w' + q) && |w| == |w'| <= 4
  {
    var lo, hi := Min(at, |m|), Min(at + 4, |m|);
    p, w, w', q := m[..lo], m[lo..hi], m'[lo..hi], m[hi..];
  }

  /** Between a common prefix and a common suffix, different windows are told apart. */
  lemma WindowDetected(p: seq<byte>, w: seq<byte>, w': seq<byte>, q: seq<byte>)
    requires |w| == |w'| <= 4 && Crc32(p + (w + q)) == Crc32(p + (w' + q))
    ensures w == w'
  {
    hide Inverted, Feed, Register;
    InvertedInjective(Register(INITIAL, p + (w + q)), Register(INITIAL, p + (w' + q)));
    RegisterConcat(INITIAL, p, w + q);
    RegisterConcat(INITIAL, p, w' + q);
    var s := Register(INITIAL, p);
    RegisterConcat(s, w, q);
    RegisterConcat(s, w', q);
    RegisterInjective(Register(s, w), Register(s, w'), q);
    WindowInjective(s, w, w');
  }

  /**
   Burst detection, for messages of any length: a change confined to four consecutive bytes
   always changes the CRC.
   */
  lemma BurstDetected(m: seq<byte>, m': seq<byte>, at: nat)
    requires WithinBurst(m, m', at)
    ensures Crc32(m) == Crc32(m') <==> m == m'
  {
    var p, w, w', q := SplitBurst(m, m', at);
    hide Crc32, WithinBurst;
    if Crc32(m) == Crc32(m') {
      WindowDetected(p, w, w', q);
    }
  }

  lemma InvertedInjective(a: bv32, b: bv32)
    requires Inverted(a) == Inverted(b)
    ensures a == b
  {}

  lemma EmptyCrc()
    ensures Crc32([]) == 0
  {}

  // ------------------------------------------------- the table form

  /** One entry of the table of section 8 of RFC 1952: eight branches on the low bit. */
  function TableEntry(c: bv32, k: nat): bv32
    decreases k
  {
    if k == 0 then c
    else if c & 1 == 1 then TableEntry(0xEDB8_8320 ^ (c >> 1), k - 1)
    else TableEntry(c >> 1, k - 1)
  }

  /** `update_crc` of section 8 of RFC 1952 without its conditioning: one table look-up a byte. */
  function TableRegister(c: bv32, data: seq<byte>): bv32
    decreases |data|
  {
    if data == [] then c
    else TableRegister(Lookup(c, Widen(data[0])), data[1..])
  }

  /** `crc_table[(c ^ byte) & 0xff] ^ (c >> 8)`. */
  function Lookup(c: bv32, w: bv32): bv32 {
    Xor(TableEntry(LowByte(Xor(c, w)), 8), HighBytes(c))
  }

  function Xor(a: bv32, b: bv32): bv32 {
    a ^ b
  }

  function LowByte(c: bv32): bv32 {
    c & 0xFF
  }

  function HighBytes(c: bv32): bv32 {
    c >> 8
  }

  lemma {:induction false} EntryIsSteps(c: bv32, k: nat)
    ensures TableEntry(c, k) == Steps(c, k)
    decreases k
  {
    hide Step;
    if k != 0 {
      StepCases(c);
      XorCommutes(0xEDB8_8320, c >> 1);
      EntryIsSteps(Step(c), k - 1);
    }
  }

  lemma XorCommutes(a: bv32, b: bv32)
    ensures a ^ b == b ^ a
  {}

  lemma SplitLowByte(s: bv32)
    ensures s == Xor(LowByte(s), HighBytes(s) << 8)
    ensures HighBytes(s) < 0x100_0000
  {}

  lemma Step8Xor(a: bv32, b: bv32)
    ensures Step8(Xor(a, b)) == Xor(Step8(a), Step8(b))
  {
    hide Step8;
    Step8Linear(a ^ b, a, b);
  }

  lemma HighBytesKept(s: bv32, w: bv32)
    requires w < 256
    ensures HighBytes(Xor(s, w)) == HighBytes(s)
  {}

  /** Only the low byte meets the polynomial; the other three move down. */
  lemma Step8ByByte(s: bv32)
    ensures Step8(s) == Xor(Step8(LowByte(s)), HighBytes(s))
  {
    hide Step8, Xor, LowByte, HighBytes;
    SplitLowByte(s);
    Step8Xor(LowByte(s), HighBytes(s) << 8);
    Step8Shifted(HighBytes(s));
  }

  lemma MixIsTable(s: bv32, w: bv32)
    requires w < 256
    ensures Mix(s, w) == Lookup(s, w)
  {
    MixIsXor(s, w);
    hide Step8, TableEntry, Steps, Xor, LowByte, HighBytes, Mix;
    var x := Xor(s, w);
    Step8ByByte(x);
    EntryIsSteps(LowByte(x), 8);
    EightSteps(LowByte(x));
    HighBytesKept(s, w);
  }

  lemma MixIsXor(s: bv32, w: bv32)
    ensures Mix(s, w) == Step8(Xor(s, w))
  {}

  /** The bitwise loop and the table form agree on every message. */
  lemma {:induction false} BitwiseIsTable(s: bv32, data: seq<byte>)
    ensures Register(s, data) == TableRegister(s, data)
    decreases |data|
  {
    hide Mix, Widen, Lookup;
    if data != [] {
      WidenSmall(data[0]);
      MixIsTable(s, Widen(data[0]));
      BitwiseIsTable(Feed(s, data[0]), data[1..]);
    }
  }

  lemma InvertedIsXor(s: bv32)
    ensures Inverted(s) == Xor(s, 0xFFFF_FFFF)
  {}

  /** The kernel's CRC of any message is the `crc` of section 8 of RFC 1952, conditioning included. */
  lemma Crc32IsTable(data: seq<byte>)
    ensures Crc32(data) == Xor(TableRegister(0xFFFF_FFFF, data), 0xFFFF_FFFF)
  {
    BitwiseIsTable(0xFFFF_FFFF, data);
    InvertedIsXor(Register(0xFFFF_FFFF, data));
    hide Inverted, Xor, Register, TableRegister;
  }

  // ------------------------------------------------- the standard check value

  const DIGITS: seq<byte> := [0x31, 0x32, 0x33, 0x34, 0x35, 0x36, 0x37, 0x38, 0x39]

  lemma NarrowedDigits()
    ensures Narrow(0x31) == 0x31 && (0x31 as bv32) & 0xFF == 0x31
    ensures Narrow(0x32) == 0x32 && (0x32 as bv32) & 0xFF == 0x32
    ensures Narrow(0x33) == 0x33 && (0x33 as bv32) & 0xFF == 0x33
    ensures Narrow(0x34) == 0x34 && (0x34 as bv32) & 0xFF == 0x34
    ensures Narrow(0x35) == 0x35 && (0x35 as bv32) & 0xFF == 0x35
    ensures Narrow(0x36) == 0x36 && (0x36 as bv32) & 0xFF == 0x36
    ensures Narrow(0x37) == 0x37 && (0x37 as bv32) & 0xFF == 0x37
    ensures Narrow(0x38) == 0x38 && (0x38 as bv32) & 0xFF == 0x38
    ensures Narrow(0x39) == 0x39 && (0x39 as bv32) & 0xFF == 0x39
  {}

  lemma WidenedDigits()
    ensures Widen(0x31) == 0x31 && Widen(0x32) == 0x32 && Widen(0x33) == 0x33 && Widen(0x34) == 0x34
    ensures Widen(0x35) == 0x35
    ensures Widen(0x36) == 0x36 && Widen(0x37) == 0x37 && Widen(0x38) == 0x38 && Widen(0x39) == 0x39
  {
    hide Widen, Narrow;
    NarrowedDigits();
    WidenNarrow(0x31);
    WidenNarrow(0x32);
    WidenNarrow(0x33);
    WidenNarrow(0x34);
    WidenNarrow(0x35);
    WidenNarrow(0x36);
    WidenNarrow(0x37);
    WidenNarrow(0x38);
    WidenNarrow(0x39);
  }

  lemma DigitsMix()
    ensures Mix(0xFFFF_FFFF, 0x31) == 0x7C23_1048
    ensures Mix(0x7C23_1048, 0x32) == 0xB0AC_BB32
    ensures Mix(0xB0AC_BB32, 0x33) == 0x77B7_9C2D
    ensures Mix(0x77B7_9C2D, 0x34) == 0x641C_1F5C
    ensures Mix(0x641C_1F5C, 0x35) == 0x340A_C5E3
    ensures Mix(0x340A_C5E3, 0x36) == 0xF68D_2C9E
    ensures Mix(0xF68D_2C9E, 0x37) == 0xAFFC_9660
    ensures Mix(0xAFFC_9660, 0x38) == 0x651F_2550
    ensures Mix(0x651F_2550, 0x39) == 0x340B_C6D9
  {}

  lemma DigitsFed()
    ensures Feed(0xFFFF_FFFF, 0x31) == 0x7C23_1048
    ensures Feed(0x7C23_1048, 0x32) == 0xB0AC_BB32
    ensures Feed(0xB0AC_BB32, 0x33) == 0x77B7_9C2D
    ensures Feed(0x77B7_9C2D, 0x34) == 0x641C_1F5C
    ensures Feed(0x641C_1F5C, 0x35) == 0x340A_C5E3
    ensures Feed(0x340A_C5E3, 0x36) == 0xF68D_2C9E
    ensures Feed(0xF68D_2C9E, 0x37) == 0xAFFC_9660
    ensures Feed(0xAFFC_9660, 0x38) == 0x651F_2550
    ensures Feed(0x651F_2550, 0x39) == 0x340B_C6D9
  {
    hide Mix, Widen;
    WidenedDigits();
    DigitsMix();
  }

  /** One byte of a message, and the rest of it. */
  lemma Fed(s: bv32, data: seq<byte>, k: nat, b: byte, next: bv32)
    requires k < |data| && data[k] == b && Feed(s, b) == next
    ensures Register(s, data[k..]) == Register(next, data[k + 1..])
  {
    hide Feed;
    assert data[k..][1..] == data[k + 1..];
  }

  /** "123456789" has the check value every CRC-32 of this kind must give. */
  lemma CheckValue()
    ensures Crc32(DIGITS) == 0xCBF4_3926
  {
    DigitsFed();
    hide Feed;
    assert DIGITS[0..] == DIGITS && DIGITS[9..] == [];
    Fed(0xFFFF_FFFF, DIGITS, 0, 0x31, 0x7C23_1048);
    Fed(0x7C23_1048, DIGITS, 1, 0x32, 0xB0AC_BB32);
    Fed(0xB0AC_BB32, DIGITS, 2, 0x33, 0x77B7_9C2D);
    Fed(0x77B7_9C2D, DIGITS, 3, 0x34, 0x641C_1F5C);
    Fed(0x641C_1F5C, DIGITS, 4, 0x35, 0x340A_C5E3);
    Fed(0x340A_C5E3, DIGITS, 5, 0x36, 0xF68D_2C9E);
    Fed(0xF68D_2C9E, DIGITS, 6, 0x37, 0xAFFC_9660);
    Fed(0xAFFC_9660, DIGITS, 7, 0x38, 0x651F_2550);
    Fed(0x651F_2550, DIGITS, 8, 0x39, 0x340B_C6D9);
  }
}
