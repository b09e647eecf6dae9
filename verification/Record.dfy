/**
 The 512-byte record: magic, sequence number, payload length, payload CRC, payload.
 `Encode` and `Decode` are the format; the second half says what a half-finished write of a
 record can leave behind.
 */
module Record {
  import opened Bytes
  import Crc

  const PAYLOAD_CAPACITY: nat := 494

  /** "ETYP" */
  const MAGIC: seq<byte> := [0x45, 0x54, 0x59, 0x50]

  /** Sector numbers are 28 bits wide on the wire (LBA28). */
  const MAX_SECTORS: nat := 0x1000_0000

  type Lba = n: nat | n < 0x1_0000_0000_0000_0000

  /** The first twelve bytes: what every record of one sector starts with. */
  function Header(lba: Lba): (h: seq<byte>)
    ensures |h| == 12
  {
    MAGIC + ToLe(lba, 8)
  }

  /** The six bytes that describe a payload: its length and its CRC. */
  function Description(payload: seq<byte>): (d: seq<byte>)
    ensures |d| == 6
  {
    ToLe(|payload|, 2) + ToLe32(Crc.Crc32(payload))
  }

  function Encode(lba: Lba, payload: seq<byte>): Sector
    requires |payload| <= PAYLOAD_CAPACITY
  {
    Header(lba) + Description(payload) + payload + Zeros(PAYLOAD_CAPACITY - |payload|)
  }

  function Decode(sector: Sector, lba: Lba): Option<seq<byte>> {
    if sector[0..4] != MAGIC then None
    else if FromLe(sector[4..12]) != lba then None
    else
      var length := FromLe(sector[12..14]);
      if length > PAYLOAD_CAPACITY then None
      else
        var payload := sector[18..18 + length];
        if Crc.Crc32(payload) != FromLe32(sector[14..18]) then None else Some(payload)
  }

  // ------------------------------------------------- the printer, in place

  /** `sector[at..at + src.len()].copy_from_slice(src)` */
  method CopyInto(sector: array<byte>, at: nat, src: seq<byte>)
    requires at + |src| <= sector.Length
    modifies sector
    ensures sector[..] == old(sector[..at]) + src + old(sector[at + |src|..])
  {
    for k := 0 to |src|
      invariant sector[..at] == old(sector[..at])
      invariant sector[at..at + k] == src[..k]
      invariant sector[at + k..] == old(sector[at + k..])
    {
      sector[at + k] := src[k];
      assert sector[at..at + k + 1] == sector[at..at + k] + [src[k]];
      assert src[..k + 1] == src[..k] + [src[k]];
      assert sector[at + k + 1..] == old(sector[at + k..])[1..];
    }
    assert sector[..] == sector[..at] + sector[at..at + |src|] + sector[at + |src|..];
    assert src[..|src|] == src;
  }

  /** A buffer filled up to somewhere, and zero after that. */
  function Padded(bytes: seq<byte>): seq<byte>
    requires |bytes| <= SECTOR_SIZE
  {
    bytes + Zeros(SECTOR_SIZE - |bytes|)
  }

  lemma PaddedFill(bytes: seq<byte>, src: seq<byte>)
    requires |bytes| + |src| <= SECTOR_SIZE
    ensures Padded(bytes)[..|bytes|] + src + Padded(bytes)[|bytes| + |src|..] == Padded(bytes + src)
  {}

  /** The next slice of the buffer. */
  method FillNext(sector: array<byte>, ghost bytes: seq<byte>, at: nat, src: seq<byte>)
    requires sector.Length == SECTOR_SIZE && at == |bytes| && at + |src| <= SECTOR_SIZE
    requires sector[..] == Padded(bytes)
    modifies sector
    ensures sector[..] == Padded(bytes + src)
  {
    PaddedFill(bytes, src);
    hide Padded;
    assert sector[..at] == sector[..][..at] && sector[at + |src|..] == sector[..][at + |src|..];
    CopyInto(sector, at, src);
  }

  /** `encode`: a zeroed buffer filled slice by slice. */
  method EncodeSector(lba: Lba, payload: seq<byte>) returns (sector: array<byte>)
    requires |payload| <= PAYLOAD_CAPACITY
    ensures fresh(sector) && sector[..] == Encode(lba, payload)
  {
    hide Crc.Crc32, ToLe32, ToLe;
    sector := new byte[SECTOR_SIZE](i => 0);
    assert sector[..] == Padded([]);
    PaddedIsEncode(lba, payload);
    hide Padded, Encode;
    FillNext(sector, [], 0, MAGIC);
    FillNext(sector, [] + MAGIC, 4, ToLe(lba, 8));
    FillNext(sector, [] + MAGIC + ToLe(lba, 8), 12, ToLe(|payload|, 2));
    var crc := Crc.ComputeCrc32(payload);
    FillNext(sector, [] + MAGIC + ToLe(lba, 8) + ToLe(|payload|, 2), 14, ToLe32(crc));
    FillNext(sector, [] + MAGIC + ToLe(lba, 8) + ToLe(|payload|, 2) + ToLe32(crc), 18, payload);
  }

  lemma Regroup<T>(a: seq<T>, b: seq<T>, c: seq<T>, d: seq<T>, e: seq<T>)
    ensures [] + a + b + c + d + e == (a + b) + (c + d) + e
  {}

  lemma PaddedIsEncode(lba: Lba, payload: seq<byte>)
    requires |payload| <= PAYLOAD_CAPACITY
    ensures Padded([] + MAGIC + ToLe(lba, 8) + ToLe(|payload|, 2) + ToLe32(Crc.Crc32(payload)) + payload)
         == Encode(lba, payload)
  {
    hide Crc.Crc32, ToLe32, ToLe, Zeros;
    Regroup(MAGIC, ToLe(lba, 8), ToLe(|payload|, 2), ToLe32(Crc.Crc32(payload)), payload);
  }

  // ------------------------------------------------- the codec is exact

  lemma Ranges()
    ensures Range(8) == 0x1_0000_0000_0000_0000 && Range(2) == 0x1_0000
  {
    assert Range(4) == 0x1_0000_0000 by {
      assert Range(2) == 0x1_0000;
    }
    assert Range(6) == 0x1_0000_0000_0000;
  }

  lemma HeaderExact(sector: Sector, lba: Lba)
    ensures sector[..12] == Header(lba) <==> sector[0..4] == MAGIC && FromLe(sector[4..12]) == lba
  {
    hide ToLe, FromLe, Range;
    Ranges();
    LeExact(sector[4..12], lba);
    assert sector[..12] == sector[0..4] + sector[4..12];
    assert Header(lba)[..4] == MAGIC && Header(lba)[4..] == ToLe(lba, 8);
  }

  lemma DescriptionExact(sector: Sector, p: seq<byte>)
    requires |p| <= PAYLOAD_CAPACITY
    ensures sector[12..18] == Description(p)
       <==> FromLe(sector[12..14]) == |p| && FromLe32(sector[14..18]) == Crc.Crc32(p)
  {
    hide ToLe, FromLe, Range, Crc.Crc32, ToLe32, FromLe32;
    Ranges();
    LeExact(sector[12..14], |p|);
    Le32Exact(sector[14..18], Crc.Crc32(p));
    assert sector[12..18] == sector[12..14] + sector[14..18];
    assert Description(p)[..2] == ToLe(|p|, 2) && Description(p)[2..] == ToLe32(Crc.Crc32(p));
  }

  /** A sector carries `p` for `lba`: right header, right description, right bytes. */
  ghost predicate Carries(sector: Sector, lba: Lba, p: seq<byte>) {
    && |p| <= PAYLOAD_CAPACITY
    && sector[..12] == Header(lba)
    && sector[12..18] == Description(p)
    && sector[18..18 + |p|] == p
  }

  /** `Decode` accepts exactly the sectors that carry their payload. */
  lemma DecodeCarries(sector: Sector, lba: Lba, p: seq<byte>)
    ensures Decode(sector, lba) == Some(p) <==> Carries(sector, lba, p)
  {
    hide ToLe, FromLe, Crc.Crc32, ToLe32, FromLe32, Header, Description;
    HeaderExact(sector, lba);
    if |p| <= PAYLOAD_CAPACITY {
      DescriptionExact(sector, p);
    }
  }

  lemma DecodeSome(sector: Sector, lba: Lba) returns (p: seq<byte>)
    requires Decode(sector, lba).Some?
    ensures Decode(sector, lba) == Some(p) && Carries(sector, lba, p)
  {
    p := Decode(sector, lba).value;
    DecodeCarries(sector, lba, p);
  }

  lemma EncodeParts(lba: Lba, p: seq<byte>)
    requires |p| <= PAYLOAD_CAPACITY
    ensures Carries(Encode(lba, p), lba, p)
    ensures Encode(lba, p)[18 + |p|..] == Zeros(PAYLOAD_CAPACITY - |p|)
  {
    hide Header, Description;
    var e := Encode(lba, p);
    assert e[..12] == Header(lba);
    assert e[12..18] == Description(p);
    assert e[18..18 + |p|] == p;
  }

  /** The number in `width` bytes from `at` on, the least significant first: `<Q` and `<H` of `struct`. */
  function Unpacked(sector: Sector, at: nat, width: nat): nat
    requires at + width <= SECTOR_SIZE
    decreases width
  {
    if width == 0 then 0 else sector[at] + 256 * Unpacked(sector, at + 1, width - 1)
  }

  lemma {:induction false} UnpackedIs(sector: Sector, at: nat, width: nat)
    requires at + width <= SECTOR_SIZE
    ensures FromLe(sector[at..at + width]) == Unpacked(sector, at, width)
    decreases width
  {
    if width > 0 {
      UnpackedIs(sector, at + 1, width - 1);
      assert sector[at..at + width][1..] == sector[at + 1..at + width];
    }
  }

  lemma MagicBytes(sector: Sector)
    ensures sector[0..4] == MAGIC <==> sector[0] == 0x45 && sector[1] == 0x54 && sector[2] == 0x59 && sector[3] == 0x50
  {
    assert sector[0..4] == [sector[0], sector[1], sector[2], sector[3]];
  }

  /**
   The format on the wire, as an outside reader unpacks it: a sector decodes to `p` if and only if it
   starts with "ETYP", then come its sector number in eight bytes, the length of `p` in two and the CRC
   of `p` in four, all with the least significant byte first, and then `p`.
   */
  lemma WireFormat(sector: Sector, lba: Lba, p: seq<byte>)
    ensures Decode(sector, lba) == Some(p)
       <==> && sector[0] == 0x45 && sector[1] == 0x54 && sector[2] == 0x59 && sector[3] == 0x50
            && Unpacked(sector, 4, 8) == lba && Unpacked(sector, 12, 2) == |p| <= 494
            && Joined(sector[14], sector[15], sector[16], sector[17]) == Crc.Crc32(p) && sector[18..18 + |p|] == p
  {
    MagicBytes(sector);
    UnpackedIs(sector, 4, 8);
    UnpackedIs(sector, 12, 2);
    JoinedIs(sector);
    hide Crc.Crc32, FromLe, Unpacked, FromLe32, Joined;
  }

  /** The same of a 32-bit word. */
  function Joined(a: byte, b: byte, c: byte, d: byte): bv32 {
    Widen(a) | (Widen(b) << 8) | (Widen(c) << 16) | (Widen(d) << 24)
  }

  lemma JoinedIs(sector: Sector)
    ensures FromLe32(sector[14..18]) == Joined(sector[14], sector[15], sector[16], sector[17])
  {
    hide Widen;
  }

  /** Any sector that decodes to `p` agrees with `Encode(lba, p)` on its first 18 + |p| bytes, and only those do. */
  lemma DecodeExact(sector: Sector, lba: Lba, p: seq<byte>)
    requires |p| <= PAYLOAD_CAPACITY
    ensures Decode(sector, lba) == Some(p) <==> sector[..18 + |p|] == Encode(lba, p)[..18 + |p|]
  {
    hide Header, Description, Decode, Encode;
    DecodeCarries(sector, lba, p);
    EncodeParts(lba, p);
    var e := Encode(lba, p);
    forall s: Sector
      ensures s[..18 + |p|] == s[..12] + s[12..18] + s[18..18 + |p|]
    {}
    if sector[..18 + |p|] == e[..18 + |p|] {
      assert sector[..12] == sector[..18 + |p|][..12] && e[..12] == e[..18 + |p|][..12];
      assert sector[12..18] == sector[..18 + |p|][12..18] && e[12..18] == e[..18 + |p|][12..18];
      assert sector[18..18 + |p|] == sector[..18 + |p|][18..] && e[18..18 + |p|] == e[..18 + |p|][18..];
    }
  }

  lemma HeaderInjective(m: Lba, n: Lba)
    requires Header(m) == Header(n)
    ensures m == n
  {
    Ranges();
    hide ToLe, FromLe, Range;
    assert Header(m)[4..] == ToLe(m, 8) && Header(n)[4..] == ToLe(n, 8);
    FromToLe(m, 8);
    FromToLe(n, 8);
  }

  /** Encoding then decoding gives the payload back, at its own sector and nowhere else. */
  lemma RoundTrip(n: Lba, p: seq<byte>, m: Lba)
    requires |p| <= PAYLOAD_CAPACITY
    ensures Decode(Encode(n, p), m) == if m == n then Some(p) else None
  {
    hide Header, Description, Decode, Encode;
    EncodeParts(n, p);
    if m == n {
      DecodeCarries(Encode(n, p), n, p);
    } else if Decode(Encode(n, p), m).Some? {
      var q := DecodeSome(Encode(n, p), m);
      HeaderInjective(m, n);
    }
  }

  lemma ZeroSectorInvalid(lba: Lba)
    ensures Decode(Zeros(SECTOR_SIZE), lba) == None
  {
    assert Zeros(SECTOR_SIZE)[0..4][0] != MAGIC[0];
  }

  /** What the sector reads as, an invalid one as nothing. */
  function Reading(sector: Sector, lba: Lba): seq<byte> {
    match Decode(sector, lba)
    case Some(p) => p
    case None => []
  }

  // ------------------------------------------------- half-finished writes

  /** A write stopped after `t` bytes: new before, old after. `t == 0` wrote nothing, `t == 512` everything. */
  function Tear(old_: Sector, new_: Sector, t: nat): Sector
    requires t <= SECTOR_SIZE
  {
    new_[..t] + old_[t..]
  }

  /** Two attempts at the same write leave what the longer one would have left alone. */
  lemma TearTwice(old_: Sector, new_: Sector, t: nat, u: nat)
    requires t <= SECTOR_SIZE && u <= SECTOR_SIZE
    ensures Tear(Tear(old_, new_, t), new_, u) == Tear(old_, new_, if t < u then u else t)
  {
    if t < u {
      SliceOfConcat(new_[..t], old_[t..], u, SECTOR_SIZE);
      SliceOfSlice(old_, t, u, SECTOR_SIZE);
      assert Tear(old_, new_, t)[u..SECTOR_SIZE] == Tear(old_, new_, t)[u..] && old_[u..SECTOR_SIZE] == old_[u..];
    } else {
      var once := Tear(old_, new_, t);
      SliceOfConcat(new_[..t], old_[t..], 0, u);
      SliceOfSlice(new_, t, 0, u);
      assert once[..u] == once[0..u] == new_[0..u] == new_[..u];
      assert once == once[..u] + once[u..];
    }
  }

  /**
   What the rewritable sector can hold: a right header (a record, or a record torn further on),
   or an untouched description (a blank sector, perhaps with a partly written header).
   */
  ghost predicate Remnant(sector: Sector, lba: Lba) {
    sector[..12] == Header(lba) || sector[12..18] == Zeros(6)
  }

  /** `p` differs from the bytes already in the payload area only inside four consecutive bytes. */
  ghost predicate BurstOver(sector: Sector, p: seq<byte>) {
    exists at: nat :: BurstOverAt(sector, p, at)
  }

  ghost predicate BurstOverAt(sector: Sector, p: seq<byte>, at: nat) {
    |p| <= PAYLOAD_CAPACITY && Crc.WithinBurst(sector[18..18 + |p|], p, at)
  }

  /** A slice of a concatenation that stays on one side. */
  lemma SliceOfConcat<T>(a: seq<T>, b: seq<T>, i: nat, j: nat)
    requires i <= j <= |a| + |b|
    ensures j <= |a| ==> (a + b)[i..j] == a[i..j]
    ensures |a| <= i ==> (a + b)[i..j] == b[i - |a|..j - |a|]
  {}

  lemma SliceOfSlice<T>(s: seq<T>, t: nat, i: nat, j: nat)
    requires t <= |s| && i <= j
    ensures j <= t ==> s[..t][i..j] == s[i..j]
    ensures t <= i && j <= |s| ==> s[t..][i - t..j - t] == s[i..j]
  {}

  /** A slice of a torn sector on one side of the tear. */
  lemma TornSlice(old_: Sector, new_: Sector, t: nat, i: nat, j: nat)
    requires t <= SECTOR_SIZE && i <= j <= SECTOR_SIZE
    ensures j <= t ==> Tear(old_, new_, t)[i..j] == new_[i..j]
    ensures t <= i ==> Tear(old_, new_, t)[i..j] == old_[i..j]
  {
    SliceOfConcat(new_[..t], old_[t..], i, j);
    SliceOfSlice(new_, t, i, j);
    SliceOfSlice(old_, t, i, j);
  }

  lemma TearIsPrefix(old_: Sector, new_: Sector, t: nat)
    requires t <= SECTOR_SIZE
    ensures t <= 12 ==> Tear(old_, new_, t)[12..18] == old_[12..18]
    ensures t <= 12 ==> Tear(old_, new_, t)[18..] == old_[18..]
    ensures t <= 12 && old_[..12] == new_[..12] ==> Tear(old_, new_, t) == old_
    ensures t >= 12 ==> Tear(old_, new_, t)[..12] == new_[..12]
    ensures t >= 18 ==> Tear(old_, new_, t)[12..18] == new_[12..18]
  {
    var out := Tear(old_, new_, t);
    TornSlice(old_, new_, t, 0, 12);
    TornSlice(old_, new_, t, 12, 18);
    TornSlice(old_, new_, t, 18, SECTOR_SIZE);
    if t <= 12 && old_[..12] == new_[..12] {
      assert old_[..t] == old_[..12][..t] == new_[..12][..t] == new_[..t];
      assert old_ == old_[..t] + old_[t..];
    }
  }

  lemma EmptyDescription()
    ensures Description([]) == Zeros(6)
  {
    Crc.EmptyCrc();
    assert Narrow(0) == 0 && (0 as bv32) >> 8 == 0 && (0 as bv32) >> 16 == 0 && (0 as bv32) >> 24 == 0;
    assert ToLe32(0) == [0, 0, 0, 0];
    assert ToLe(0, 2) == [0, 0];
  }

  /** A blank description under any header reads as nothing or as an empty record. */
  lemma BlankReads(sector: Sector, lba: Lba)
    requires sector[12..18] == Zeros(6)
    ensures Decode(sector, lba) == if sector[..12] == Header(lba) then Some([]) else None
  {
    hide Header, Description, Decode;
    EmptyDescription();
    DecodeCarries(sector, lba, []);
    if Decode(sector, lba).Some? {
      var q := DecodeSome(sector, lba);
    }
  }

  /** Stopped inside the header: the old record, or on a blank sector nothing or an empty record. */
  lemma TearInHeader(lba: Lba, old_: Sector, p: seq<byte>, t: nat)
    requires |p| <= PAYLOAD_CAPACITY && t <= 12
    requires Remnant(old_, lba)
    ensures var out := Tear(old_, Encode(lba, p), t);
            && Remnant(out, lba)
            && (out == old_ || (Decode(old_, lba) == None && Decode(out, lba) in {None, Some([])}))
  {
    hide Header, Description, Decode, Encode, Tear;
    EncodeParts(lba, p);
    TearIsPrefix(old_, Encode(lba, p), t);
    if old_[..12] != Header(lba) {
      BlankReads(old_, lba);
      BlankReads(Tear(old_, Encode(lba, p), t), lba);
    }
  }

  /** Stopped inside the payload, over a burst: the CRC lets nothing through but the new record. */
  lemma TearInPayload(lba: Lba, old_: Sector, p: seq<byte>, t: nat)
    requires |p| <= PAYLOAD_CAPACITY && 18 <= t <= SECTOR_SIZE
    requires BurstOver(old_, p)
    ensures var out := Tear(old_, Encode(lba, p), t);
            && Remnant(out, lba)
            && Decode(out, lba) == if out[18..18 + |p|] == p then Some(p) else None
  {
    hide Header, Description, Decode, Encode, Tear, Crc.Crc32, FromLe, ToLe, FromLe32, ToLe32;
    var new_ := Encode(lba, p);
    var out := Tear(old_, new_, t);
    EncodeParts(lba, p);
    TearIsPrefix(old_, new_, t);
    DecodeCarries(out, lba, p);
    if Decode(out, lba).Some? {
      var q := DecodeSome(out, lba);
      DescriptionExact(out, p);
      DescriptionExact(out, q);
      var at: nat :| BurstOverAt(old_, p, at);
      TornPayload(old_, p, new_, t, at);
      Crc.BurstDetected(q, p, at);
    }
  }

  lemma TornPayload(old_: Sector, p: seq<byte>, new_: Sector, t: nat, at: nat)
    requires |p| <= PAYLOAD_CAPACITY && 18 <= t <= SECTOR_SIZE
    requires new_[18..18 + |p|] == p
    requires Crc.WithinBurst(old_[18..18 + |p|], p, at)
    ensures Crc.WithinBurst(Tear(old_, new_, t)[18..18 + |p|], p, at)
  {
    var out := Tear(old_, new_, t);
    var q, was := out[18..18 + |p|], old_[18..18 + |p|];
    forall i | 0 <= i < |p| && !(at <= i < at + 4)
      ensures q[i] == p[i]
    {
      if 18 + i < t {
        assert out[18 + i] == new_[18 + i] == new_[18..18 + |p|][i];
      } else {
        assert out[18 + i] == old_[18 + i] == was[i];
      }
    }
  }

  /** One keystroke changes at most four bytes of the payload area, whatever the sector held. */
  lemma KeystrokeIsBurst(lba: Lba, old_: Sector, p: seq<byte>, d: seq<byte>)
    requires |p| + |d| <= PAYLOAD_CAPACITY && |d| <= 4
    requires Decode(old_, lba) == Some(p) || p == []
    ensures BurstOver(old_, p + d)
  {
    hide Header, Description, Decode;
    if Decode(old_, lba) == Some(p) {
      DecodeCarries(old_, lba, p);
    }
    var q := p + d;
    var was := old_[18..18 + |q|];
    assert was[..|p|] == p by {
      assert was[..|p|] == old_[18..18 + |p|];
    }
    forall i | 0 <= i < |q| && !(|p| <= i < |p| + 4)
      ensures was[i] == q[i]
    {
      assert was[..|p|][i] == was[i];
    }
    assert BurstOverAt(old_, q, |p|);
  }

  /**
   A keystroke's rewrite torn anywhere outside the six description bytes. Over the record it
   extends it leaves that record, the new one, or nothing; over a zeroed sector, additionally,
   an empty record.
   */
  lemma TornKeystroke(lba: Lba, p: seq<byte>, d: seq<byte>, t: nat)
    requires |p| + |d| <= PAYLOAD_CAPACITY && |d| <= 4
    requires t <= 12 || 18 <= t <= SECTOR_SIZE
    ensures var out := Tear(Encode(lba, p), Encode(lba, p + d), t);
            && (t <= 12 ==> Decode(out, lba) == Some(p))
            && (t >= 18 ==> Decode(out, lba) == if out[18..18 + |p + d|] == p + d then Some(p + d) else None)
    ensures var out := Tear(Zeros(SECTOR_SIZE), Encode(lba, d), t);
            && (t <= 12 ==> Decode(out, lba) in {None, Some([])})
            && (t >= 18 ==> Decode(out, lba) == if out[18..18 + |d|] == d then Some(d) else None)
  {
    hide Header, Description, Decode, Encode, Tear;
    EncodeParts(lba, p);
    RoundTrip(lba, p, lba);
    ZeroSectorInvalid(lba);
    assert Zeros(SECTOR_SIZE)[12..18] == Zeros(6);
    if t <= 12 {
      TearInHeader(lba, Encode(lba, p), p + d, t);
      TearInHeader(lba, Zeros(SECTOR_SIZE), d, t);
    } else {
      KeystrokeIsBurst(lba, Encode(lba, p), p, d);
      TearInPayload(lba, Encode(lba, p), p + d, t);
      KeystrokeIsBurst(lba, Zeros(SECTOR_SIZE), [], d);
      assert [] + d == d;
      TearInPayload(lba, Zeros(SECTOR_SIZE), d, t);
    }
  }
}
