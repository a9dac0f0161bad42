/** The example of FIPS 180-4's SHA-1: "abc", one block, with the schedule and the registers after every round. It fixes
    the initial state, the constants, the rotations, the byte order of words, padding and digest. */
module Sha1Example {
  import opened Words
  import opened BlockHash
  import opened Sha1Spec

  const Abc: seq<Byte> := [97, 98, 99]
  const Padded: Block := Abc + [0x80] + seq(52, _ => 0) + [0, 0, 0, 0, 0, 0, 0, 24]

  lemma PaddedIs()
    ensures Pad(Abc) == Padded
  {
    assert BigBytes(0) == [0, 0, 0, 0] && BigBytes(24) == [0, 0, 0, 24];
    assert Zeros(3) == 52;
  }

  lemma Words0()
    ensures W(Padded, 0) == 0x61626380 && (forall t :: 1 <= t < 15 ==> W(Padded, t) == 0) && W(Padded, 15) == 24
  {
    forall t | 1 <= t < 15
      ensures W(Padded, t) == 0
    {
      ZeroWord(t);
    }
    assert Padded[..4] == [97, 98, 99, 0x80] && Padded[60..] == [0, 0, 0, 24];
  }

  lemma ZeroWord(t: nat)
    requires 1 <= t < 15
    ensures W(Padded, t) == 0
  {
    assert Padded[4 * t..4 * t + 4] == [0, 0, 0, 0];
  }

  lemma Words16()
    ensures W(Padded, 16) == 0xc2c4c700 && W(Padded, 17) == 0x00000000
    ensures W(Padded, 18) == 0x00000030 && W(Padded, 19) == 0x85898e01
    ensures W(Padded, 20) == 0x00000000 && W(Padded, 21) == 0x00000060
    ensures W(Padded, 22) == 0x0b131c03 && W(Padded, 23) == 0x00000030
    ensures W(Padded, 24) == 0x85898ec1 && W(Padded, 25) == 0x16263806
    ensures W(Padded, 26) == 0x00000000 && W(Padded, 27) == 0x00000180
    ensures W(Padded, 28) == 0x2c4c700c && W(Padded, 29) == 0x000000f0
    ensures W(Padded, 30) == 0x93afb507 && W(Padded, 31) == 0x5898e048
  {
    Words0();
  }

  lemma Words32()
    ensures W(Padded, 32) == 0x8e9a9202 && W(Padded, 33) == 0x00000600
    ensures W(Padded, 34) == 0xb131c0f0 && W(Padded, 35) == 0x16263bc6
    ensures W(Padded, 36) == 0x4ebed41e && W(Padded, 37) == 0x626380a1
    ensures W(Padded, 38) == 0x16263806 && W(Padded, 39) == 0x000018c0
    ensures W(Padded, 40) == 0xd2e138c4 && W(Padded, 41) == 0x00000f00
    ensures W(Padded, 42) == 0x3afb5079 && W(Padded, 43) == 0x898e04e5
    ensures W(Padded, 44) == 0xe2ba3c2b && W(Padded, 45) == 0x000060c0
    ensures W(Padded, 46) == 0x053a37cd && W(Padded, 47) == 0x74458547
  {
    Words16();
  }

  lemma Words48()
    ensures W(Padded, 48) == 0xda9415ed && W(Padded, 49) == 0x26380a16
    ensures W(Padded, 50) == 0x626383a1 && W(Padded, 51) == 0x4ebf54de
    ensures W(Padded, 52) == 0x3835b44b && W(Padded, 53) == 0x0000f600
    ensures W(Padded, 54) == 0x1e84c7a3 && W(Padded, 55) == 0x98e04d98
    ensures W(Padded, 56) == 0x651d16a0 && W(Padded, 57) == 0x62658ca1
    ensures W(Padded, 58) == 0x458544d6 && W(Padded, 59) == 0x44584cb7
    ensures W(Padded, 60) == 0x7ba06619 && W(Padded, 61) == 0x6380aea2
    ensures W(Padded, 62) == 0x0ae55269 && W(Padded, 63) == 0x627b49a1
  {
    Words32();
  }

  lemma Words64()
    ensures W(Padded, 64) == 0x7cd45c9d && W(Padded, 65) == 0x000f0000
    ensures W(Padded, 66) == 0xfb50753a && W(Padded, 67) == 0xec6765e8
    ensures W(Padded, 68) == 0xba3c2be2 && W(Padded, 69) == 0x0060c000
    ensures W(Padded, 70) == 0x3a37cd05 && W(Padded, 71) == 0x458546f4
    ensures W(Padded, 72) == 0xb8599dd6 && W(Padded, 73) == 0x380a1a26
    ensures W(Padded, 74) == 0x01e02203 && W(Padded, 75) == 0xe7cc3456
    ensures W(Padded, 76) == 0xe6e60b69 && W(Padded, 77) == 0x00f60a00
    ensures W(Padded, 78) == 0x5795ef4f && W(Padded, 79) == 0x822e0879
  {
    Words48();
  }

  lemma Rounds10()
    ensures Rounds(Initial, Padded, 10) == State(0x8351f929, 0x4b6ae328, 0x27a301f5, 0x664f8c30, 0x0ff1f290)
  {
    Words0();
    assert Rounds(Initial, Padded, 1) == State(0x0116fc33, 0x67452301, 0x7bf36ae2, 0x98badcfe, 0x10325476);
    assert Rounds(Initial, Padded, 2) == State(0x8990536d, 0x0116fc33, 0x59d148c0, 0x7bf36ae2, 0x98badcfe);
    assert Rounds(Initial, Padded, 3) == State(0xa1390f08, 0x8990536d, 0xc045bf0c, 0x59d148c0, 0x7bf36ae2);
    assert Rounds(Initial, Padded, 4) == State(0xcdd8e11b, 0xa1390f08, 0x626414db, 0xc045bf0c, 0x59d148c0);
    assert Rounds(Initial, Padded, 5) == State(0xcfd499de, 0xcdd8e11b, 0x284e43c2, 0x626414db, 0xc045bf0c);
    assert Rounds(Initial, Padded, 6) == State(0x3fc7ca40, 0xcfd499de, 0xf3763846, 0x284e43c2, 0x626414db);
    assert Rounds(Initial, Padded, 7) == State(0x993e30c1, 0x3fc7ca40, 0xb3f52677, 0xf3763846, 0x284e43c2);
    assert Rounds(Initial, Padded, 8) == State(0x9e8c07d4, 0x993e30c1, 0x0ff1f290, 0xb3f52677, 0xf3763846);
    assert Rounds(Initial, Padded, 9) == State(0x4b6ae328, 0x9e8c07d4, 0x664f8c30, 0x0ff1f290, 0xb3f52677);
    assert Rounds(Initial, Padded, 10) == State(0x8351f929, 0x4b6ae328, 0x27a301f5, 0x664f8c30, 0x0ff1f290);
  }

  lemma Rounds20()
    ensures Rounds(Initial, Padded, 20) == State(0xfd9e1d7d, 0xdc64901d, 0x20aa99ca, 0xd3a49608, 0xc82f758b)
  {
    Rounds10();
    Words0();
    Words16();
    assert Rounds(Initial, Padded, 11) == State(0xfbda9e89, 0x8351f929, 0x12dab8ca, 0x27a301f5, 0x664f8c30);
    assert Rounds(Initial, Padded, 12) == State(0x63188fe4, 0xfbda9e89, 0x60d47e4a, 0x12dab8ca, 0x27a301f5);
    assert Rounds(Initial, Padded, 13) == State(0x4607b664, 0x63188fe4, 0x7ef6a7a2, 0x60d47e4a, 0x12dab8ca);
    assert Rounds(Initial, Padded, 14) == State(0x9128f695, 0x4607b664, 0x18c623f9, 0x7ef6a7a2, 0x60d47e4a);
    assert Rounds(Initial, Padded, 15) == State(0x196bee77, 0x9128f695, 0x1181ed99, 0x18c623f9, 0x7ef6a7a2);
    assert Rounds(Initial, Padded, 16) == State(0x20bdd62f, 0x196bee77, 0x644a3da5, 0x1181ed99, 0x18c623f9);
    assert Rounds(Initial, Padded, 17) == State(0x4e925823, 0x20bdd62f, 0xc65afb9d, 0x644a3da5, 0x1181ed99);
    assert Rounds(Initial, Padded, 18) == State(0x82aa6728, 0x4e925823, 0xc82f758b, 0xc65afb9d, 0x644a3da5);
    assert Rounds(Initial, Padded, 19) == State(0xdc64901d, 0x82aa6728, 0xd3a49608, 0xc82f758b, 0xc65afb9d);
    assert Rounds(Initial, Padded, 20) == State(0xfd9e1d7d, 0xdc64901d, 0x20aa99ca, 0xd3a49608, 0xc82f758b);
  }

  lemma Rounds30()
    ensures Rounds(Initial, Padded, 30) == State(0xc5fbaf5d, 0x8370b52e, 0xd2aa1365, 0x6f8d7ef5, 0x12104ee9)
  {
    Rounds20();
    Words16();
    assert Rounds(Initial, Padded, 21) == State(0x1a37b0ca, 0xfd9e1d7d, 0x77192407, 0x20aa99ca, 0xd3a49608);
    assert Rounds(Initial, Padded, 22) == State(0x33a23bfc, 0x1a37b0ca, 0x7f67875f, 0x77192407, 0x20aa99ca);
    assert Rounds(Initial, Padded, 23) == State(0x21283486, 0x33a23bfc, 0x868dec32, 0x7f67875f, 0x77192407);
    assert Rounds(Initial, Padded, 24) == State(0xd541f12d, 0x21283486, 0x0ce88eff, 0x868dec32, 0x7f67875f);
    assert Rounds(Initial, Padded, 25) == State(0xc7567dc6, 0xd541f12d, 0x884a0d21, 0x0ce88eff, 0x868dec32);
    assert Rounds(Initial, Padded, 26) == State(0x48413ba4, 0xc7567dc6, 0x75507c4b, 0x884a0d21, 0x0ce88eff);
    assert Rounds(Initial, Padded, 27) == State(0xbe35fbd5, 0x48413ba4, 0xb1d59f71, 0x75507c4b, 0x884a0d21);
    assert Rounds(Initial, Padded, 28) == State(0x4aa84d97, 0xbe35fbd5, 0x12104ee9, 0xb1d59f71, 0x75507c4b);
    assert Rounds(Initial, Padded, 29) == State(0x8370b52e, 0x4aa84d97, 0x6f8d7ef5, 0x12104ee9, 0xb1d59f71);
    assert Rounds(Initial, Padded, 30) == State(0xc5fbaf5d, 0x8370b52e, 0xd2aa1365, 0x6f8d7ef5, 0x12104ee9);
  }

  lemma Rounds40()
    ensures Rounds(Initial, Padded, 40) == State(0x32de1cba, 0x4c986405, 0xf718e5cf, 0x03d447f6, 0xf72eec32)
  {
    Rounds30();
    Words16();
    Words32();
    assert Rounds(Initial, Padded, 31) == State(0x1267b407, 0xc5fbaf5d, 0xa0dc2d4b, 0xd2aa1365, 0x6f8d7ef5);
    assert Rounds(Initial, Padded, 32) == State(0x3b845d33, 0x1267b407, 0x717eebd7, 0xa0dc2d4b, 0xd2aa1365);
    assert Rounds(Initial, Padded, 33) == State(0x046faa0a, 0x3b845d33, 0xc499ed01, 0x717eebd7, 0xa0dc2d4b);
    assert Rounds(Initial, Padded, 34) == State(0x2c0ebc11, 0x046faa0a, 0xcee1174c, 0xc499ed01, 0x717eebd7);
    assert Rounds(Initial, Padded, 35) == State(0x21796ad4, 0x2c0ebc11, 0x811bea82, 0xcee1174c, 0xc499ed01);
    assert Rounds(Initial, Padded, 36) == State(0xdcbbb0cb, 0x21796ad4, 0x4b03af04, 0x811bea82, 0xcee1174c);
    assert Rounds(Initial, Padded, 37) == State(0x0f511fd8, 0xdcbbb0cb, 0x085e5ab5, 0x4b03af04, 0x811bea82);
    assert Rounds(Initial, Padded, 38) == State(0xdc63973f, 0x0f511fd8, 0xf72eec32, 0x085e5ab5, 0x4b03af04);
    assert Rounds(Initial, Padded, 39) == State(0x4c986405, 0xdc63973f, 0x03d447f6, 0xf72eec32, 0x085e5ab5);
    assert Rounds(Initial, Padded, 40) == State(0x32de1cba, 0x4c986405, 0xf718e5cf, 0x03d447f6, 0xf72eec32);
  }

  lemma Rounds50()
    ensures Rounds(Initial, Padded, 50) == State(0x120731c5, 0xbaf39337, 0xafab40b2, 0x2806e11b, 0x8714787c)
  {
    Rounds40();
    Words32();
    Words48();
    assert Rounds(Initial, Padded, 41) == State(0xfc87dedf, 0x32de1cba, 0x53261901, 0xf718e5cf, 0x03d447f6);
    assert Rounds(Initial, Padded, 42) == State(0x970a0d5c, 0xfc87dedf, 0x8cb7872e, 0x53261901, 0xf718e5cf);
    assert Rounds(Initial, Padded, 43) == State(0x7f193dc5, 0x970a0d5c, 0xff21f7b7, 0x8cb7872e, 0x53261901);
    assert Rounds(Initial, Padded, 44) == State(0xee1b1aaf, 0x7f193dc5, 0x25c28357, 0xff21f7b7, 0x8cb7872e);
    assert Rounds(Initial, Padded, 45) == State(0x40f28e09, 0xee1b1aaf, 0x5fc64f71, 0x25c28357, 0xff21f7b7);
    assert Rounds(Initial, Padded, 46) == State(0x1c51e1f2, 0x40f28e09, 0xfb86c6ab, 0x5fc64f71, 0x25c28357);
    assert Rounds(Initial, Padded, 47) == State(0xa01b846c, 0x1c51e1f2, 0x503ca382, 0xfb86c6ab, 0x5fc64f71);
    assert Rounds(Initial, Padded, 48) == State(0xbead02ca, 0xa01b846c, 0x8714787c, 0x503ca382, 0xfb86c6ab);
    assert Rounds(Initial, Padded, 49) == State(0xbaf39337, 0xbead02ca, 0x2806e11b, 0x8714787c, 0x503ca382);
    assert Rounds(Initial, Padded, 50) == State(0x120731c5, 0xbaf39337, 0xafab40b2, 0x2806e11b, 0x8714787c);
  }

  lemma Rounds60()
    ensures Rounds(Initial, Padded, 60) == State(0x3f52de5a, 0x09d785fd, 0x3498bfd4, 0xf211824f, 0xd79915ab)
  {
    Rounds50();
    Words48();
    assert Rounds(Initial, Padded, 51) == State(0x641db2ce, 0x120731c5, 0xeebce4cd, 0xafab40b2, 0x2806e11b);
    assert Rounds(Initial, Padded, 52) == State(0x3847ad66, 0x641db2ce, 0x4481cc71, 0xeebce4cd, 0xafab40b2);
    assert Rounds(Initial, Padded, 53) == State(0xe490436d, 0x3847ad66, 0x99076cb3, 0x4481cc71, 0xeebce4cd);
    assert Rounds(Initial, Padded, 54) == State(0x27e9f1d8, 0xe490436d, 0x8e11eb59, 0x99076cb3, 0x4481cc71);
    assert Rounds(Initial, Padded, 55) == State(0x7b71f76d, 0x27e9f1d8, 0x792410db, 0x8e11eb59, 0x99076cb3);
    assert Rounds(Initial, Padded, 56) == State(0x5e6456af, 0x7b71f76d, 0x09fa7c76, 0x792410db, 0x8e11eb59);
    assert Rounds(Initial, Padded, 57) == State(0xc846093f, 0x5e6456af, 0x5edc7ddb, 0x09fa7c76, 0x792410db);
    assert Rounds(Initial, Padded, 58) == State(0xd262ff50, 0xc846093f, 0xd79915ab, 0x5edc7ddb, 0x09fa7c76);
    assert Rounds(Initial, Padded, 59) == State(0x09d785fd, 0xd262ff50, 0xf211824f, 0xd79915ab, 0x5edc7ddb);
    assert Rounds(Initial, Padded, 60) == State(0x3f52de5a, 0x09d785fd, 0x3498bfd4, 0xf211824f, 0xd79915ab);
  }

  lemma Rounds70()
    ensures Rounds(Initial, Padded, 70) == State(0x3f2588c2, 0x497093c0, 0xde37534a, 0x030f7cad, 0x4405957e)
  {
    Rounds60();
    Words48();
    Words64();
    assert Rounds(Initial, Padded, 61) == State(0xd756c147, 0x3f52de5a, 0x4275e17f, 0x3498bfd4, 0xf211824f);
    assert Rounds(Initial, Padded, 62) == State(0x548c9cb2, 0xd756c147, 0x8fd4b796, 0x4275e17f, 0x3498bfd4);
    assert Rounds(Initial, Padded, 63) == State(0xb66c020b, 0x548c9cb2, 0xf5d5b051, 0x8fd4b796, 0x4275e17f);
    assert Rounds(Initial, Padded, 64) == State(0x6b61c9e1, 0xb66c020b, 0x9523272c, 0xf5d5b051, 0x8fd4b796);
    assert Rounds(Initial, Padded, 65) == State(0x19dfa7ac, 0x6b61c9e1, 0xed9b0082, 0x9523272c, 0xf5d5b051);
    assert Rounds(Initial, Padded, 66) == State(0x101655f9, 0x19dfa7ac, 0x5ad87278, 0xed9b0082, 0x9523272c);
    assert Rounds(Initial, Padded, 67) == State(0x0c3df2b4, 0x101655f9, 0x0677e9eb, 0x5ad87278, 0xed9b0082);
    assert Rounds(Initial, Padded, 68) == State(0x78dd4d2b, 0x0c3df2b4, 0x4405957e, 0x0677e9eb, 0x5ad87278);
    assert Rounds(Initial, Padded, 69) == State(0x497093c0, 0x78dd4d2b, 0x030f7cad, 0x4405957e, 0x0677e9eb);
    assert Rounds(Initial, Padded, 70) == State(0x3f2588c2, 0x497093c0, 0xde37534a, 0x030f7cad, 0x4405957e);
  }

  lemma Rounds80()
    ensures Rounds(Initial, Padded, 80) == State(0x42541b35, 0x5738d5e1, 0x21834873, 0x681e6df6, 0xd8fdf6ad)
  {
    Rounds70();
    Words64();
    assert Rounds(Initial, Padded, 71) == State(0xc199f8c7, 0x3f2588c2, 0x125c24f0, 0xde37534a, 0x030f7cad);
    assert Rounds(Initial, Padded, 72) == State(0x39859de7, 0xc199f8c7, 0x8fc96230, 0x125c24f0, 0xde37534a);
    assert Rounds(Initial, Padded, 73) == State(0xedb42de4, 0x39859de7, 0xf0667e31, 0x8fc96230, 0x125c24f0);
    assert Rounds(Initial, Padded, 74) == State(0x11793f6f, 0xedb42de4, 0xce616779, 0xf0667e31, 0x8fc96230);
    assert Rounds(Initial, Padded, 75) == State(0x5ee76897, 0x11793f6f, 0x3b6d0b79, 0xce616779, 0xf0667e31);
    assert Rounds(Initial, Padded, 76) == State(0x63f7dab7, 0x5ee76897, 0xc45e4fdb, 0x3b6d0b79, 0xce616779);
    assert Rounds(Initial, Padded, 77) == State(0xa079b7d9, 0x63f7dab7, 0xd7b9da25, 0xc45e4fdb, 0x3b6d0b79);
    assert Rounds(Initial, Padded, 78) == State(0x860d21cc, 0xa079b7d9, 0xd8fdf6ad, 0xd7b9da25, 0xc45e4fdb);
    assert Rounds(Initial, Padded, 79) == State(0x5738d5e1, 0x860d21cc, 0x681e6df6, 0xd8fdf6ad, 0xd7b9da25);
    assert Rounds(Initial, Padded, 80) == State(0x42541b35, 0x5738d5e1, 0x21834873, 0x681e6df6, 0xd8fdf6ad);
  }

  lemma Compressed()
    ensures Compress(Initial, Padded) == State(0xa9993e36, 0x4706816a, 0xba3e2571, 0x7850c26c, 0x9cd0d89d)
  {
    Rounds80();
  }

  lemma OneBlock(block: Block)
    ensures Fold(Compress, Initial, block) == Compress(Initial, block)
  {
    hide Compress;
    assert block[..0] == [] && block[0..] == block;
  }

  lemma DigestIs()
    ensures Digest(State(0xa9993e36, 0x4706816a, 0xba3e2571, 0x7850c26c, 0x9cd0d89d))
         == [0xa9, 0x99, 0x3e, 0x36,
             0x47, 0x06, 0x81, 0x6a,
             0xba, 0x3e, 0x25, 0x71,
             0x78, 0x50, 0xc2, 0x6c,
             0x9c, 0xd0, 0xd8, 0x9d]
  {
    WordBytes();
    hide Bytes;
  }

  lemma WordBytes()
    ensures Bytes(0xa9993e36) == [0xa9, 0x99, 0x3e, 0x36]
    ensures Bytes(0x4706816a) == [0x47, 0x06, 0x81, 0x6a]
    ensures Bytes(0xba3e2571) == [0xba, 0x3e, 0x25, 0x71]
    ensures Bytes(0x7850c26c) == [0x78, 0x50, 0xc2, 0x6c]
    ensures Bytes(0x9cd0d89d) == [0x9c, 0xd0, 0xd8, 0x9d]
  {
  }

  /** SHA-1 ("abc") */
  lemma AbcDigest()
    ensures Hash(Abc)
         == [0xa9, 0x99, 0x3e, 0x36,
             0x47, 0x06, 0x81, 0x6a,
             0xba, 0x3e, 0x25, 0x71,
             0x78, 0x50, 0xc2, 0x6c,
             0x9c, 0xd0, 0xd8, 0x9d]
  {
    PaddedIs();
    Compressed();
    OneBlock(Padded);
    hide Compress, Pad, Digest, Fold;
    DigestIs();
  }
}

/** The example of RFC 1321, appendix A.5: MD5 ("abc"), with the word, rotation, constant, function value and new
    register of every operation. */
module Md5Example {
  import opened Words
  import opened BlockHash
  import opened Md5Spec

  const Abc: seq<Byte> := [97, 98, 99]
  const Padded: Block := Abc + [0x80] + seq(52, _ => 0) + [24, 0, 0, 0, 0, 0, 0, 0]

  /** The sixteen words of the one block. */
  ghost predicate Example(x: seq<Word>) {
    |x| == 16 && x[0] == 0x80636261 && x[14] == 24 && forall k :: 0 < k < 16 && k != 14 ==> x[k] == 0
  }

  lemma PaddedIs()
    ensures Pad(Abc) == Padded
  {
    assert LittleBytes(0) == [0, 0, 0, 0] && LittleBytes(24) == [24, 0, 0, 0];
    assert Zeros(3) == 52;
  }

  lemma WordsAre()
    ensures Example(seq(16, i requires 0 <= i < 16 => LittleWord(Padded, i)))
  {
  }

  lemma AtStart(x: seq<Word>)
    requires |x| == 16
    ensures Operations(Initial, x, 0) == Initial
  {
  }

  /** Operation `i`: its word of the block, its rotation, its constant, the value of its function and the new register. */
  lemma Next(x: seq<Word>, i: nat, k: nat, r: Word, t: Word, f: Word, now: Word)
    requires |x| == 16 && i < 64 && k == K(i) && r == S(i) && t == Sine(i)
    requires var s := Operations(Initial, x, i);
             f == Mix(i, s.b, s.c, s.d) && now == NewWord(s.a, s.b, f, x[k], t, r)
    ensures var s := Operations(Initial, x, i); Operations(Initial, x, i + 1) == State(s.d, now, s.b, s.c)
  {
    hide NewWord, Sine, Mix, K, S, Operations;
    OneMore(x, i);
  }

  lemma OneMore(x: seq<Word>, i: nat)
    requires |x| == 16 && i < 64
    ensures Operations(Initial, x, i + 1) == Operation(Operations(Initial, x, i), i, x)
  {
  }

  lemma Operations16(x: seq<Word>)
    requires Example(x)
    ensures Operations(Initial, x, 16) == State(0xdda9b9a6, 0x72aff2e0, 0xe396856b, 0xa1051895)
  {
    hide Operations;
    AtStart(x);
    Next(x, 0, 0, 7, 0xd76aa478, 0x98badcfe, 0xd6d117b4);
    Next(x, 1, 1, 12, 0xe8c7b756, 0xceebcbca, 0x344a8432);
    Next(x, 2, 2, 17, 0x242070db, 0xdfc52fb9, 0x2f6fbd72);
    Next(x, 3, 3, 22, 0xc1bdceee, 0xf4da86b6, 0x7ad956f2);
    Next(x, 4, 4, 7, 0xf57c0faf, 0x2e4b9472, 0xc73741ef);
    Next(x, 5, 5, 12, 0x4787c62a, 0x6a59fcf2, 0x8bac3051);
    Next(x, 6, 6, 17, 0xa8304613, 0xf37546e3, 0x207dc67b);
    Next(x, 7, 7, 22, 0xfd469501, 0xc72e01d5, 0x928d99f6);
    Next(x, 8, 8, 7, 0x698098d8, 0x092da073, 0x854b3712);
    Next(x, 9, 9, 12, 0x8b44f7af, 0xa03dd17b, 0x74e2f284);
    Next(x, 10, 10, 17, 0xffff5bb1, 0x864f3b72, 0x3020401c);
    Next(x, 11, 11, 22, 0x895cd7be, 0xb56b7706, 0x5ed49596);
    Next(x, 12, 12, 7, 0x6b901122, 0x30226214, 0xdda9b9a6);
    Next(x, 13, 13, 12, 0xfd987193, 0x7c80d19e, 0xa1051895);
    Next(x, 14, 14, 17, 0xa679438e, 0xdfd19d86, 0xe396856b);
    Next(x, 15, 15, 22, 0x49b40821, 0xbd2d3885, 0x72aff2e0);
  }

  lemma Operations32(x: seq<Word>)
    requires Example(x)
    ensures Operations(Initial, x, 32) == State(0x790a77fb, 0x726342d3, 0xa62884aa, 0x9f47e4f8)
  {
    hide Operations;
    Operations16(x);
    Next(x, 16, 1, 5, 0xf61e2562, 0x629795ea, 0x3e9e9126);
    Next(x, 17, 6, 9, 0xc040b340, 0x32bff3a2, 0x4a1d804e);
    Next(x, 18, 11, 14, 0x265e5a51, 0x4e1d8146, 0xe25e1652);
    Next(x, 19, 0, 20, 0xe9b6c7aa, 0x621f104a, 0xb5b204e4);
    Next(x, 20, 5, 5, 0xd62f105d, 0xa0521654, 0x59a8ffda);
    Next(x, 21, 10, 9, 0x02441453, 0x55a816f6, 0x6d002f1e);
    Next(x, 22, 15, 14, 0xd8a1e681, 0x6d08ff1e, 0xabfc7920);
    Next(x, 23, 4, 20, 0xe7d3fbc8, 0x2da87904, 0x47092c07);
    Next(x, 24, 9, 5, 0x21e1cde6, 0xc7fc7c26, 0xb7f268cf);
    Next(x, 25, 14, 9, 0xc33707d6, 0xe7f16c07, 0x09388eff);
    Next(x, 26, 3, 14, 0xf4d50d87, 0xb1fa4ccf, 0xfe1623b1);
    Next(x, 27, 8, 20, 0x455a14ed, 0xbe1aa6b1, 0x786acb8f);
    Next(x, 28, 13, 5, 0xa9e3e905, 0xfe2eab8f, 0x790a77fb);
    Next(x, 29, 2, 9, 0xfcefa3f8, 0x786aebbf, 0x9f47e4f8);
    Next(x, 30, 7, 14, 0x676f02d9, 0x1942f4f8, 0xa62884aa);
    Next(x, 31, 12, 20, 0x8d2a4c8a, 0xa64d84aa, 0x726342d3);
  }

  lemma Operations48(x: seq<Word>)
    requires Example(x)
    ensures Operations(Initial, x, 48) == State(0x7f2e507b, 0x7beb9700, 0x8fae6399, 0x99d9679d)
  {
    hide Operations;
    Operations32(x);
    Next(x, 32, 5, 4, 0xfffa3942, 0x4b0c2281, 0xb3707ebf);
    Next(x, 33, 8, 11, 0x8771f681, 0x673bb8c6, 0x60127b2e);
    Next(x, 34, 11, 16, 0x6d9d6122, 0xa1014742, 0x8d212ff5);
    Next(x, 35, 14, 23, 0xfde5380c, 0x5e432a64, 0x3b0875c7);
    Next(x, 36, 1, 4, 0xa4beea44, 0xd63b211c, 0x21b117b9);
    Next(x, 37, 4, 11, 0x4bdecfa9, 0x97984d8b, 0x6e7429d5);
    Next(x, 38, 7, 16, 0xf6bb4b60, 0x74cd4bab, 0x3575227e);
    Next(x, 39, 10, 23, 0xbebfbc70, 0x7ab01c12, 0x5a2f5ea5);
    Next(x, 40, 13, 4, 0x289b7ec6, 0x012e550e, 0x11de1779);
    Next(x, 41, 0, 11, 0xeaa127fa, 0x7e846ba2, 0xfadcaa38);
    Next(x, 42, 3, 16, 0xd4ef3085, 0xb12de3e4, 0x31c465ca);
    Next(x, 43, 6, 23, 0x04881d05, 0xdac6d88b, 0x4c6124f4);
    Next(x, 44, 9, 4, 0xd9d4d039, 0x8779eb06, 0x7f2e507b);
    Next(x, 45, 12, 11, 0xe6db99e5, 0x028b1145, 0x99d9679d);
    Next(x, 46, 15, 16, 0x1fa27cf8, 0xaa961312, 0x8fae6399);
    Next(x, 47, 2, 23, 0xc4ac5665, 0x6959547f, 0x7beb9700);
  }

  lemma Operations64(x: seq<Word>)
    requires Example(x)
    ensures Operations(Initial, x, 64) == State(0x310ade8f, 0xc08226b3, 0xe484b9d8, 0x624d8cb2)
  {
    hide Operations;
    Operations48(x);
    Next(x, 48, 0, 6, 0xf4292244, 0xf041fcfb, 0x7b201df8);
    Next(x, 49, 7, 10, 0x432aff97, 0x009a0afe, 0xf4e8e96e);
    Next(x, 50, 14, 15, 0xab9423a7, 0x8fdcf407, 0xb298cefd);
    Next(x, 51, 5, 21, 0xfc93a039, 0x42370791, 0x8bf025c4);
    Next(x, 52, 12, 6, 0x655b59c3, 0x396ff928, 0x06cc5e8a);
    Next(x, 53, 3, 10, 0x8f0ccc92, 0xc41f5a4e, 0x5b0d97aa);
    Next(x, 54, 10, 15, 0xffeff47d, 0x79c38131, 0x7d632dd0);
    Next(x, 55, 1, 21, 0x85845dd1, 0xa67e3a5f, 0x3bfa2c27);
    Next(x, 56, 8, 6, 0x6fa87e4f, 0xc29941a7, 0x7f81cc35);
    Next(x, 57, 15, 10, 0xfe2ce6e0, 0xc467f218, 0x094454ab);
    Next(x, 58, 6, 15, 0xa3014314, 0xb2c41bce, 0x4f9dbe3f);
    Next(x, 59, 13, 21, 0x4e0811a1, 0xc6bbeb54, 0x7327d604);
    Next(x, 60, 4, 6, 0xf7537e82, 0xb822416b, 0x310ade8f);
    Next(x, 61, 11, 10, 0xbd3af235, 0xc24d09cb, 0x624d8cb2);
    Next(x, 62, 2, 15, 0x2ad7d2bb, 0xdfd77374, 0xe484b9d8);
    Next(x, 63, 9, 21, 0xeb86d391, 0x8cb8354a, 0xc08226b3);
  }

  lemma Compressed()
    ensures Compress(Initial, Padded) == State(0x98500190, 0xb04fd23c, 0x7d3f96d6, 0x727fe128)
  {
    WordsAre();
    hide Operations;
    Operations64(seq(16, i requires 0 <= i < 16 => LittleWord(Padded, i)));
  }

  lemma OneBlock(block: Block)
    ensures Fold(Compress, Initial, block) == Compress(Initial, block)
  {
    hide Compress;
    assert block[..0] == [] && block[0..] == block;
  }

  lemma DigestIs()
    ensures Digest(State(0x98500190, 0xb04fd23c, 0x7d3f96d6, 0x727fe128))
         == [0x90, 0x01, 0x50, 0x98,
             0x3c, 0xd2, 0x4f, 0xb0,
             0xd6, 0x96, 0x3f, 0x7d,
             0x28, 0xe1, 0x7f, 0x72]
  {
    WordBytes();
    hide Bytes;
  }

  lemma WordBytes()
    ensures Bytes(0x98500190) == [0x90, 0x01, 0x50, 0x98]
    ensures Bytes(0xb04fd23c) == [0x3c, 0xd2, 0x4f, 0xb0]
    ensures Bytes(0x7d3f96d6) == [0xd6, 0x96, 0x3f, 0x7d]
    ensures Bytes(0x727fe128) == [0x28, 0xe1, 0x7f, 0x72]
  {
  }

  /** MD5 ("abc") */
  lemma AbcDigest()
    ensures Hash(Abc)
         == [0x90, 0x01, 0x50, 0x98,
             0x3c, 0xd2, 0x4f, 0xb0,
             0xd6, 0x96, 0x3f, 0x7d,
             0x28, 0xe1, 0x7f, 0x72]
  {
    PaddedIs();
    Compressed();
    OneBlock(Padded);
    hide Compress, Pad, Digest, Fold;
    DigestIs();
  }
}
