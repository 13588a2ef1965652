/** A slugid pinned to its exact characters: the slugid of 16 zero bytes.
    The shape lemmas of module Slugid say which class each character is in;
    this one fixes every character for one input, so a symbol swapped for
    another of the same class would show here. */
module PinnedSlugs {
  import opened Base64Url
  import opened Slugid

  /** The slugid of 16 zero bytes: only the version (`Q`, value 16) and the
      variant (`C`, value 2) show. It is the same in both modes, since byte 0
      is already below 128. */
  lemma ZeroSlug()
    ensures V4Slug(seq(16, _ => 0)) == "AAAAAAAAQACAAAAAAAAAAA"
    ensures NiceSlug(seq(16, _ => 0)) == "AAAAAAAAQACAAAAAAAAAAA"
  {
    var raw: Block := seq(16, _ => 0);
    var b := V4Bytes(raw);
    assert NiceBytes(raw) == b;
    assert forall i :: 0 <= i < 16 && i != 6 && i != 8 ==> b[i] == 0;
    assert b[6] == 64 && b[8] == 128;
    BlockGroups(b);
    var zero, stamps, last := Split(0, 0, 0), Split(64, 0, 128), Split(0, 0, 0)[..2];
    assert Sextets(b) == zero + zero + stamps + zero + zero + last;
    StampedZeroSymbols(zero, stamps, last);
  }

  /** The 6-bit values of 16 bytes, group by group. */
  lemma BlockGroups(b: Block)
    ensures Sextets(b) == Split(b[0], b[1], b[2]) + Split(b[3], b[4], b[5]) + Split(b[6], b[7], b[8])
                        + Split(b[9], b[10], b[11]) + Split(b[12], b[13], b[14]) + Split(b[15], 0, 0)[..2]
  {
    assert b[0..] == b;
    SextetsFrom(b, 0);
    SextetsFrom(b, 3);
    SextetsFrom(b, 6);
    SextetsFrom(b, 9);
    SextetsFrom(b, 12);
    assert Sextets(b[15..]) == Split(b[15], 0, 0)[..2];
  }

  /** The symbols of the values of the stamped zero bytes. */
  lemma StampedZeroSymbols(zero: seq<Sextet>, stamps: seq<Sextet>, last: seq<Sextet>)
    requires zero == [0, 0, 0, 0] && stamps == [16, 0, 2, 0] && last == [0, 0]
    ensures Symbols(zero + zero + stamps + zero + zero + last) == "AAAAAAAAQACAAAAAAAAAAA"
  {
    var vs := zero + zero + stamps + zero + zero + last;
    assert vs == [0, 0, 0, 0, 0, 0, 0, 0, 16, 0, 2, 0, 0, 0, 0, 0, 0, 0, 0, 0, 0, 0];
  }
}
