/**
 A concrete prose for which a tear inside the six description bytes is read back as text nobody
 typed: the forgeries excluded by `Torn.Forges` exist.
 */
module TornHeader {
  import opened Bytes
  import opened Record
  import opened Torn
  import Crc

  /** "ejffhau": typing it brings the CRC register to zero, where further zero bytes leave it. */
  const PROSE: seq<byte> := [0x65, 0x6a, 0x66, 0x66, 0x68, 0x61, 0x75]

  lemma NarrowedProse()
    ensures Narrow(0x65) == 0x65 && (0x65 as bv32) & 0xFF == 0x65
    ensures Narrow(0x6a) == 0x6a && (0x6a as bv32) & 0xFF == 0x6a
    ensures Narrow(0x66) == 0x66 && (0x66 as bv32) & 0xFF == 0x66
    ensures Narrow(0x68) == 0x68 && (0x68 as bv32) & 0xFF == 0x68
    ensures Narrow(0x61) == 0x61 && (0x61 as bv32) & 0xFF == 0x61
    ensures Narrow(0x75) == 0x75 && (0x75 as bv32) & 0xFF == 0x75
    ensures Narrow(0) == 0 && (0 as bv32) & 0xFF == 0
  {}

  lemma WidenedProse()
    ensures Widen(0x65) == 0x65 && Widen(0x6a) == 0x6a && Widen(0x66) == 0x66 && Widen(0x68) == 0x68
    ensures Widen(0x61) == 0x61 && Widen(0x75) == 0x75 && Widen(0) == 0
  {
    hide Widen, Narrow;
    NarrowedProse();
    WidenNarrow(0x65);
    WidenNarrow(0x6a);
    WidenNarrow(0x66);
    WidenNarrow(0x68);
    WidenNarrow(0x61);
    WidenNarrow(0x75);
    WidenNarrow(0);
  }

  lemma MixesToZero()
    ensures Crc.Mix(0xFFFF_FFFF, 0x65) == 0x1025_85A5
    ensures Crc.Mix(0x1025_85A5, 0x6a) == 0x0BCB_FAA4
    ensures Crc.Mix(0x0BCB_FAA4, 0x66) == 0x7561_6866
    ensures Crc.Mix(0x7561_6866, 0x66) == 0x0075_6168
    ensures Crc.Mix(0x0075_6168, 0x68) == 0x7561
    ensures Crc.Mix(0x7561, 0x61) == 0x75
    ensures Crc.Mix(0x75, 0x75) == 0
    ensures Crc.Mix(0, 0) == 0
  {}

  lemma FeedsToZero()
    ensures Crc.Feed(0xFFFF_FFFF, 0x65) == 0x1025_85A5
    ensures Crc.Feed(0x1025_85A5, 0x6a) == 0x0BCB_FAA4
    ensures Crc.Feed(0x0BCB_FAA4, 0x66) == 0x7561_6866
    ensures Crc.Feed(0x7561_6866, 0x66) == 0x0075_6168
    ensures Crc.Feed(0x0075_6168, 0x68) == 0x7561
    ensures Crc.Feed(0x7561, 0x61) == 0x75
    ensures Crc.Feed(0x75, 0x75) == 0
    ensures Crc.Feed(0, 0) == 0
  {
    hide Crc.Mix, Widen;
    WidenedProse();
    MixesToZero();
  }

  lemma ProseRegister()
    ensures Crc.Register(Crc.INITIAL, PROSE) == 0
  {
    FeedsToZero();
    hide Crc.Feed;
    assert PROSE[0..] == PROSE && PROSE[7..] == [];
    Crc.Fed(0xFFFF_FFFF, PROSE, 0, 0x65, 0x1025_85A5);
    Crc.Fed(0x1025_85A5, PROSE, 1, 0x6a, 0x0BCB_FAA4);
    Crc.Fed(0x0BCB_FAA4, PROSE, 2, 0x66, 0x7561_6866);
    Crc.Fed(0x7561_6866, PROSE, 3, 0x66, 0x0075_6168);
    Crc.Fed(0x0075_6168, PROSE, 4, 0x68, 0x7561);
    Crc.Fed(0x7561, PROSE, 5, 0x61, 0x75);
    Crc.Fed(0x75, PROSE, 6, 0x75, 0);
  }

  /** One more zero byte does not change the CRC of this prose. */
  lemma SameCrc()
    ensures Crc.Crc32(PROSE + [0]) == Crc.Crc32(PROSE)
  {
    ProseRegister();
    FeedsToZero();
    hide Crc.Feed, Crc.Inverted;
    Crc.RegisterConcat(Crc.INITIAL, PROSE, [0]);
    assert Crc.Register(0, [0]) == Crc.Register(Crc.Feed(0, 0), [0][1..]);
  }

  /**
   At any sector, any one-byte keystroke after this prose, torn between the length and the CRC,
   is accepted by `Decode` as the prose followed by a zero byte: neither the old text nor the new.
   */
  lemma TornDescriptionForges(lba: Lba, d: byte)
    requires d != 0
    ensures Decode(Tear(Encode(lba, PROSE), Encode(lba, PROSE + [d]), 14), lba) == Some(PROSE + [0])
    ensures PROSE + [0] != PROSE && PROSE + [0] != PROSE + [d]
    ensures Forges(Encode(lba, PROSE), PROSE + [d], 14)
  {
    hide Header, Decode, Crc.Crc32, ToLe, ToLe32, Forges;
    var old_, new_ := Encode(lba, PROSE), Encode(lba, PROSE + [d]);
    var out := Tear(old_, new_, 14);
    SameCrc();
    EncodeParts(lba, PROSE);
    EncodeParts(lba, PROSE + [d]);
    assert out[..12] == new_[..12];
    assert out[12..14] == new_[12..18][..2] == ToLe(8, 2);
    assert out[14..18] == old_[12..18][2..] == ToLe32(Crc.Crc32(PROSE));
    assert out[12..18] == out[12..14] + out[14..18];
    assert out[18..26] == PROSE + [0] by {
      assert out[18..26] == old_[18..25] + old_[25..][..1];
    }
    DecodeCarries(out, lba, PROSE + [0]);
    assert (PROSE + [0])[7] != (PROSE + [d])[7];
    RoundTrip(lba, PROSE, lba);
    ForgesExact(lba, old_, PROSE + [d], 14);
  }
}
