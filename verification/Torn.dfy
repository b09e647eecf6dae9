/**
 Which half-finished writes are harmful: the exact condition, on what is in the sector, what is
 being written and where the write stops, under which a torn record is read back as something that
 was never written.
 */
module Torn {
  import opened Bytes
  import opened Record
  import Crc

  /** The description a tear at `t` leaves: the new bytes before it, the old ones after. */
  function MixedDescription(old_: Sector, p: seq<byte>, t: nat): (d: seq<byte>)
    requires 12 <= t <= 18
    ensures |d| == 6
  {
    Description(p)[..t - 12] + old_[t..18]
  }

  /** What a tear at `t` behind the description leaves where `p` was to go. */
  function MixedPayload(old_: Sector, p: seq<byte>, t: nat): (q: seq<byte>)
    requires |p| <= PAYLOAD_CAPACITY && 18 <= t <= SECTOR_SIZE
    ensures |q| == |p|
  {
    if 18 + |p| <= t then p else p[..t - 18] + old_[t..18 + |p|]
  }

  /**
   A forgery: stopped inside the description, the mixed description happens to fit the old bytes
   behind it; stopped inside the payload, the mixed payload happens to have the new CRC; and what is
   read then is not the beginning of what was being written. All of it is known before the write starts.
   */
  predicate Forges(old_: Sector, p: seq<byte>, t: nat)
    requires |p| <= PAYLOAD_CAPACITY && t <= SECTOR_SIZE
  {
    if t <= 12 then false
    else if t < 18 then
      var d := MixedDescription(old_, p, t);
      var length := FromLe(d[..2]);
      && length <= PAYLOAD_CAPACITY
      && Crc.Crc32(old_[18..18 + length]) == FromLe32(d[2..])
      && !(old_[18..18 + length] <= p)
    else
      var q := MixedPayload(old_, p, t);
      Crc.Crc32(q) == Crc.Crc32(p) && q != p
  }

  lemma MixedBytes(lba: Lba, old_: Sector, p: seq<byte>, t: nat)
    requires |p| <= PAYLOAD_CAPACITY && 12 <= t <= 18
    ensures var out, d := Tear(old_, Encode(lba, p), t), MixedDescription(old_, p, t);
            out[..12] == Header(lba) && out[12..14] == d[..2] && out[14..18] == d[2..]
  {
    EncodeParts(lba, p);
    hide Encode, Header, Description, Decode, Tear;
    var new_ := Encode(lba, p);
    var out, d := Tear(old_, new_, t), MixedDescription(old_, p, t);
    TornSlice(old_, new_, t, 0, 12);
    TornSlice(old_, new_, t, 12, t);
    TornSlice(old_, new_, t, t, 18);
    SliceOfSlice(new_[..18], 18, 12, t);
    assert new_[12..t] == new_[12..18][..t - 12];
    assert out[12..18] == out[12..t] + out[t..18];
    assert out[12..14] == out[12..18][..2] && out[14..18] == out[12..18][2..];
  }

  /** Under its right header a sector is judged by its description alone. */
  lemma Described(sector: Sector, lba: Lba)
    requires sector[0..4] == MAGIC && FromLe(sector[4..12]) == lba
    ensures var length := FromLe(sector[12..14]);
            && (length > PAYLOAD_CAPACITY ==> Decode(sector, lba) == None)
            && (length <= PAYLOAD_CAPACITY ==>
                  var there := sector[18..18 + length];
                  Decode(sector, lba) == if Crc.Crc32(there) == FromLe32(sector[14..18]) then Some(there) else None)
  {
    hide FromLe, FromLe32, Crc.Crc32;
  }

  /** A tear inside the description: the old payload area, as far as the mixed length says. */
  lemma TornDescription(lba: Lba, old_: Sector, p: seq<byte>, t: nat)
    requires |p| <= PAYLOAD_CAPACITY && 12 <= t <= 18
    ensures var d := MixedDescription(old_, p, t);
            var length := FromLe(d[..2]);
            Decode(Tear(old_, Encode(lba, p), t), lba)
            == if length <= PAYLOAD_CAPACITY && Crc.Crc32(old_[18..18 + length]) == FromLe32(d[2..])
               then Some(old_[18..18 + length]) else None
  {
    hide Encode, Header, Description, Tear, Decode, MixedDescription, FromLe, FromLe32, Crc.Crc32;
    var out, d := Tear(old_, Encode(lba, p), t), MixedDescription(old_, p, t);
    MixedBytes(lba, old_, p, t);
    HeaderExact(out, lba);
    Described(out, lba);
    var length := FromLe(d[..2]);
    if length <= PAYLOAD_CAPACITY {
      TornSlice(old_, Encode(lba, p), t, 18, 18 + length);
    }
  }

  lemma MixedArea(lba: Lba, old_: Sector, p: seq<byte>, t: nat)
    requires |p| <= PAYLOAD_CAPACITY && 18 <= t <= SECTOR_SIZE
    ensures Tear(old_, Encode(lba, p), t)[18..18 + |p|] == MixedPayload(old_, p, t)
  {
    EncodeParts(lba, p);
    hide Encode, Header, Description, Decode, Tear;
    var new_ := Encode(lba, p);
    var out := Tear(old_, new_, t);
    if 18 + |p| <= t {
      TornSlice(old_, new_, t, 18, 18 + |p|);
    } else {
      TornSlice(old_, new_, t, 18, t);
      TornSlice(old_, new_, t, t, 18 + |p|);
      assert new_[18..t] == new_[18..18 + |p|][..t - 18];
      assert out[18..18 + |p|] == out[18..t] + out[t..18 + |p|];
    }
  }

  /** A tear behind the description: the mixed payload, if and only if it has the new CRC. */
  lemma TornPayloadExact(lba: Lba, old_: Sector, p: seq<byte>, t: nat)
    requires |p| <= PAYLOAD_CAPACITY && 18 <= t <= SECTOR_SIZE
    ensures var q := MixedPayload(old_, p, t);
            Decode(Tear(old_, Encode(lba, p), t), lba) == if Crc.Crc32(q) == Crc.Crc32(p) then Some(q) else None
  {
    hide Encode, Header, Description, Tear, Decode, MixedPayload, FromLe, FromLe32, Crc.Crc32;
    var out := Tear(old_, Encode(lba, p), t);
    EncodeParts(lba, p);
    TearIsPrefix(old_, Encode(lba, p), t);
    MixedArea(lba, old_, p, t);
    HeaderExact(out, lba);
    DescriptionExact(out, p);
    Described(out, lba);
  }

  /** However a write is torn, it leaves a sector the writer may rewrite. */
  lemma TearRemnant(lba: Lba, old_: Sector, p: seq<byte>, t: nat)
    requires |p| <= PAYLOAD_CAPACITY && t <= SECTOR_SIZE && Remnant(old_, lba)
    ensures Remnant(Tear(old_, Encode(lba, p), t), lba)
  {
    if t <= 12 {
      TearInHeader(lba, old_, p, t);
    } else {
      EncodeParts(lba, p);
      TearIsPrefix(old_, Encode(lba, p), t);
    }
    hide Encode, Tear, Header;
  }

  lemma SameLengthPrefix(q: seq<byte>, p: seq<byte>)
    requires |q| == |p|
    ensures q <= p <==> q == p
  {}

  /**
   Any rewrite of a sector the writer may rewrite, torn at any byte whatever, is read as a beginning of
   what was being written if and only if the tear is no forgery.
   */
  lemma ForgesExact(lba: Lba, old_: Sector, p: seq<byte>, t: nat)
    requires |p| <= PAYLOAD_CAPACITY && t <= SECTOR_SIZE
    requires Remnant(old_, lba) && Reading(old_, lba) <= p
    ensures Remnant(Tear(old_, Encode(lba, p), t), lba)
    ensures Reading(Tear(old_, Encode(lba, p), t), lba) <= p <==> !Forges(old_, p, t)
  {
    hide Encode, Decode, Tear, MixedDescription, MixedPayload, FromLe, FromLe32, Crc.Crc32, Header;
    if t <= 12 {
      TearInHeader(lba, old_, p, t);
    } else {
      EncodeParts(lba, p);
      TearIsPrefix(old_, Encode(lba, p), t);
      if t < 18 {
        TornDescription(lba, old_, p, t);
      } else {
        TornPayloadExact(lba, old_, p, t);
        SameLengthPrefix(MixedPayload(old_, p, t), p);
      }
    }
  }

  /** Over at most four changed bytes nothing torn outside the description is a forgery. */
  lemma BurstForgesNot(lba: Lba, old_: Sector, p: seq<byte>, t: nat)
    requires |p| <= PAYLOAD_CAPACITY && t <= SECTOR_SIZE && (t <= 12 || t >= 18)
    requires BurstOver(old_, p)
    ensures !Forges(old_, p, t)
  {
    if t >= 18 {
      TearInPayload(lba, old_, p, t);
      TornPayloadExact(lba, old_, p, t);
      MixedArea(lba, old_, p, t);
      hide Decode, Encode, Tear, MixedPayload, Crc.Crc32;
    }
  }

  // ------------------------------------------------- what a power cut can cost

  lemma LengthByte(a: nat, b: nat)
    requires a <= PAYLOAD_CAPACITY && b <= PAYLOAD_CAPACITY && ToLe(a, 2)[0] == ToLe(b, 2)[0]
    ensures a == b || a + 256 <= b || b + 256 <= a
  {}

  lemma LengthBytes(a: nat, b: nat)
    requires a <= PAYLOAD_CAPACITY && b <= PAYLOAD_CAPACITY && ToLe(a, 2) == ToLe(b, 2)
    ensures a == b
  {
    Ranges();
    FromToLe(a, 2);
    FromToLe(b, 2);
  }

  /** Once the length has begun to arrive, what is read has the new length, or one 256 or more away. */
  lemma TornLength(lba: Lba, old_: Sector, q: seq<byte>, t: nat, read: seq<byte>)
    requires |q| <= PAYLOAD_CAPACITY && 12 < t <= SECTOR_SIZE
    requires Decode(Tear(old_, Encode(lba, q), t), lba) == Some(read)
    ensures |read| == |q| || |read| + 256 <= |q| || |q| + 256 <= |read|
    ensures t >= 14 ==> |read| == |q|
  {
    EncodeParts(lba, q);
    hide Encode, Header, Decode, Tear, Crc.Crc32, ToLe32, ToLe;
    var new_ := Encode(lba, q);
    var out := Tear(old_, new_, t);
    DecodeCarries(out, lba, read);
    TornSlice(old_, new_, t, 12, 13);
    assert out[12..13][0] == out[12..18][0] == ToLe(|read|, 2)[0];
    assert out[12..13][0] == new_[12..18][0] == ToLe(|q|, 2)[0];
    LengthByte(|read|, |q|);
    if t >= 14 {
      TornSlice(old_, new_, t, 12, 14);
      assert out[12..14] == out[12..18][..2] == ToLe(|read|, 2);
      assert new_[12..14] == new_[12..18][..2] == ToLe(|q|, 2);
      LengthBytes(|read|, |q|);
    }
  }

  /** What the write did not reach was there already. */
  predicate Arrived(old_: Sector, lba: Lba, q: seq<byte>, t: nat)
    requires |q| <= PAYLOAD_CAPACITY && t <= SECTOR_SIZE
  {
    18 + |q| <= t || old_[t..18 + |q|] == Encode(lba, q)[t..18 + |q|]
  }

  /** A torn write is read as the new record if and only if all of it arrived or was there. */
  lemma ArrivedExact(lba: Lba, old_: Sector, q: seq<byte>, t: nat)
    requires |q| <= PAYLOAD_CAPACITY && t <= SECTOR_SIZE
    ensures Decode(Tear(old_, Encode(lba, q), t), lba) == Some(q) <==> Arrived(old_, lba, q, t)
  {
    hide Encode, Decode, Tear;
    var new_, end := Encode(lba, q), 18 + |q|;
    var out := Tear(old_, new_, t);
    DecodeExact(out, lba, q);
    if end <= t {
      TornSlice(old_, new_, t, 0, end);
    } else {
      TornSlice(old_, new_, t, 0, t);
      TornSlice(old_, new_, t, t, end);
      assert out[..end] == out[0..t] + out[t..end] && new_[..end] == new_[0..t] + new_[t..end];
      assert out[t..end] == out[..end][t..] && new_[t..end] == new_[..end][t..];
    }
  }

  /** Where the place of the last new byte is still blank, all of it must have been written. */
  lemma ArrivedBlank(lba: Lba, old_: Sector, q: seq<byte>, t: nat)
    requires 0 < |q| <= PAYLOAD_CAPACITY && t <= SECTOR_SIZE
    requires old_[17 + |q|] == 0 && q[|q| - 1] != 0
    ensures Arrived(old_, lba, q, t) <==> 18 + |q| <= t
  {
    EncodeParts(lba, q);
    hide Encode, Header, Description;
    var end := 18 + |q|;
    assert Encode(lba, q)[18..end][|q| - 1] == Encode(lba, q)[end - 1];
    if t < end {
      assert old_[t..end][end - 1 - t] == old_[end - 1];
      assert Encode(lba, q)[t..end][end - 1 - t] == Encode(lba, q)[end - 1];
    }
  }

  /**
   What becomes of a rewrite that adds up to 255 bytes and is torn, at any byte whatever, in any sector
   the writer may rewrite: the new text survives exactly when all of it arrived or was there, the old
   text alone exactly when the write stopped inside the header.
   */
  lemma KeystrokeSurvives(lba: Lba, old_: Sector, p: seq<byte>, d: seq<byte>, t: nat)
    requires 1 <= |d| < 256 && |p| + |d| <= PAYLOAD_CAPACITY && t <= SECTOR_SIZE && Remnant(old_, lba)
    ensures var read := Decode(Tear(old_, Encode(lba, p + d), t), lba);
            && (read == Some(p + d) <==> Arrived(old_, lba, p + d, t))
            && (Decode(old_, lba) == Some(p) ==> (read == Some(p) <==> t <= 12))
  {
    hide Encode, Header, Description, Decode, Tear, Remnant, Arrived;
    var q := p + d;
    ArrivedExact(lba, old_, q, t);
    if t <= 12 {
      TearInHeader(lba, old_, q, t);
    } else if Decode(Tear(old_, Encode(lba, q), t), lba) == Some(p) {
      TornLength(lba, old_, q, t, p);
    }
  }

  /**
   So a power cut during the rewrite of a record costs at most the keystroke in flight if and only if
   it comes within the first twelve bytes or after the last new one.
   */
  lemma CutCost(lba: Lba, p: seq<byte>, d: seq<byte>, t: nat)
    requires 1 <= |d| < 256 && d[|d| - 1] != 0 && |p| + |d| <= PAYLOAD_CAPACITY && t <= SECTOR_SIZE
    ensures Decode(Tear(Encode(lba, p), Encode(lba, p + d), t), lba) in {Some(p), Some(p + d)}
       <==> t <= 12 || t >= 18 + |p| + |d|
  {
    hide Encode, Header, Description, Decode, Tear, Arrived;
    RoundTrip(lba, p, lba);
    EncodeParts(lba, p);
    assert Encode(lba, p)[17 + |p| + |d|] == Encode(lba, p)[18 + |p|..][|d| - 1] == 0;
    KeystrokeSurvives(lba, Encode(lba, p), p, d, t);
    ArrivedBlank(lba, Encode(lba, p), p + d, t);
  }
}
