/**
 * What fixes the textbook form: its word operations as arithmetic, and the one-block example that was published
 * with the standard, the message "abc".
 */
module Sha1Example {
  import opened Sha1Standard

  // Arithmetic on words is modulo 2^32: a rotation multiplies and adds what falls out at the top.

  lemma Rotations(x: word)
    ensures Rotl1(x) == 2 * x + x / 0x8000_0000
    ensures Rotl5(x) == 32 * x + x / 0x800_0000
    ensures Rotl30(x) == 0x4000_0000 * x + x / 4
  {
    Rotation1(x);
    Rotation5(x);
    Rotation30(x);
    hide *;
  }

  lemma Rotation1(x: word)
    ensures Rotl1(x) == 2 * x + x / 0x8000_0000
  {}

  lemma Rotation5(x: word)
    ensures Rotl5(x) == 32 * x + x / 0x800_0000
  {}

  lemma Rotation30(x: word)
    ensures Rotl30(x) == 0x4000_0000 * x + x / 4
  {}

  lemma BigEndianSum(p: seq<byte>)
    requires |p| == 4
    ensures BigEndianWord(p) ==
      0x100_0000 * (p[0] as word) + 0x1_0000 * (p[1] as word) + 0x100 * (p[2] as word) + (p[3] as word)
  {}

  /** Where x has ones Ch gives y, where it has zeros z. */
  lemma ChSelects(x: word, y: word, z: word)
    ensures Ch(x, y, z) & x == y & x
    ensures Ch(x, y, z) & !x == z & !x
  {}

  /** Where x has ones Maj gives what y or z has, where it has zeros what both have. */
  lemma MajVotes(x: word, y: word, z: word)
    ensures Maj(x, y, z) & x == (y | z) & x
    ensures Maj(x, y, z) & !x == (y & z) & !x
  {}

  // The example.

  const ABC: seq<byte> := [0x61, 0x62, 0x63]

  // The schedule that the example lists, in five parts.

  ghost predicate Words00(block: seq<byte>)
    requires |block| == 64
  {
    W(block, 0) == 0x61626380 && (forall t :: 1 <= t < 15 ==> W(block, t) == 0) && W(block, 15) == 24
  }

  ghost predicate Words16(block: seq<byte>)
    requires |block| == 64
  {
    && W(block, 16) == 0xC2C4C700 && W(block, 17) == 0x00000000 && W(block, 18) == 0x00000030 && W(block, 19) == 0x85898E01
    && W(block, 20) == 0x00000000 && W(block, 21) == 0x00000060 && W(block, 22) == 0x0B131C03 && W(block, 23) == 0x00000030
    && W(block, 24) == 0x85898EC1 && W(block, 25) == 0x16263806 && W(block, 26) == 0x00000000 && W(block, 27) == 0x00000180
    && W(block, 28) == 0x2C4C700C && W(block, 29) == 0x000000F0 && W(block, 30) == 0x93AFB507 && W(block, 31) == 0x5898E048
  }

  ghost predicate Words32(block: seq<byte>)
    requires |block| == 64
  {
    && W(block, 32) == 0x8E9A9202 && W(block, 33) == 0x00000600 && W(block, 34) == 0xB131C0F0 && W(block, 35) == 0x16263BC6
    && W(block, 36) == 0x4EBED41E && W(block, 37) == 0x626380A1 && W(block, 38) == 0x16263806 && W(block, 39) == 0x000018C0
    && W(block, 40) == 0xD2E138C4 && W(block, 41) == 0x00000F00 && W(block, 42) == 0x3AFB5079 && W(block, 43) == 0x898E04E5
    && W(block, 44) == 0xE2BA3C2B && W(block, 45) == 0x000060C0 && W(block, 46) == 0x053A37CD && W(block, 47) == 0x74458547
  }

  ghost predicate Words48(block: seq<byte>)
    requires |block| == 64
  {
    && W(block, 48) == 0xDA9415ED && W(block, 49) == 0x26380A16 && W(block, 50) == 0x626383A1 && W(block, 51) == 0x4EBF54DE
    && W(block, 52) == 0x3835B44B && W(block, 53) == 0x0000F600 && W(block, 54) == 0x1E84C7A3 && W(block, 55) == 0x98E04D98
    && W(block, 56) == 0x651D16A0 && W(block, 57) == 0x62658CA1 && W(block, 58) == 0x458544D6 && W(block, 59) == 0x44584CB7
    && W(block, 60) == 0x7BA06619 && W(block, 61) == 0x6380AEA2 && W(block, 62) == 0x0AE55269 && W(block, 63) == 0x627B49A1
  }

  ghost predicate Words64(block: seq<byte>)
    requires |block| == 64
  {
    && W(block, 64) == 0x7CD45C9D && W(block, 65) == 0x000F0000 && W(block, 66) == 0xFB50753A && W(block, 67) == 0xEC6765E8
    && W(block, 68) == 0xBA3C2BE2 && W(block, 69) == 0x0060C000 && W(block, 70) == 0x3A37CD05 && W(block, 71) == 0x458546F4
    && W(block, 72) == 0xB8599DD6 && W(block, 73) == 0x380A1A26 && W(block, 74) == 0x01E02203 && W(block, 75) == 0xE7CC3456
    && W(block, 76) == 0xE6E60B69 && W(block, 77) == 0x00F60A00 && W(block, 78) == 0x5795EF4F && W(block, 79) == 0x822E0879
  }

  lemma Word(block: seq<byte>, t: nat, x: word)
    requires |block| == 64 && 16 <= t < 80
    requires x == Rotl1(W(block, t - 3) ^ W(block, t - 8) ^ W(block, t - 14) ^ W(block, t - 16))
    ensures W(block, t) == x
  {
    hide Rotl1;
  }

  lemma Extend16(block: seq<byte>)
    requires |block| == 64 && Words00(block)
    ensures Words16(block)
  {
    hide W;
    Word(block, 16, 0xC2C4C700);
    Word(block, 17, 0x00000000);
    Word(block, 18, 0x00000030);
    Word(block, 19, 0x85898E01);
    Word(block, 20, 0x00000000);
    Word(block, 21, 0x00000060);
    Word(block, 22, 0x0B131C03);
    Word(block, 23, 0x00000030);
    Word(block, 24, 0x85898EC1);
    Word(block, 25, 0x16263806);
    Word(block, 26, 0x00000000);
    Word(block, 27, 0x00000180);
    Word(block, 28, 0x2C4C700C);
    Word(block, 29, 0x000000F0);
    Word(block, 30, 0x93AFB507);
    Word(block, 31, 0x5898E048);
  }

  lemma Extend32(block: seq<byte>)
    requires |block| == 64 && Words16(block)
    ensures Words32(block)
  {
    hide W;
    Word(block, 32, 0x8E9A9202);
    Word(block, 33, 0x00000600);
    Word(block, 34, 0xB131C0F0);
    Word(block, 35, 0x16263BC6);
    Word(block, 36, 0x4EBED41E);
    Word(block, 37, 0x626380A1);
    Word(block, 38, 0x16263806);
    Word(block, 39, 0x000018C0);
    Word(block, 40, 0xD2E138C4);
    Word(block, 41, 0x00000F00);
    Word(block, 42, 0x3AFB5079);
    Word(block, 43, 0x898E04E5);
    Word(block, 44, 0xE2BA3C2B);
    Word(block, 45, 0x000060C0);
    Word(block, 46, 0x053A37CD);
    Word(block, 47, 0x74458547);
  }

  lemma Extend48(block: seq<byte>)
    requires |block| == 64 && Words32(block)
    ensures Words48(block)
  {
    hide W;
    Word(block, 48, 0xDA9415ED);
    Word(block, 49, 0x26380A16);
    Word(block, 50, 0x626383A1);
    Word(block, 51, 0x4EBF54DE);
    Word(block, 52, 0x3835B44B);
    Word(block, 53, 0x0000F600);
    Word(block, 54, 0x1E84C7A3);
    Word(block, 55, 0x98E04D98);
    Word(block, 56, 0x651D16A0);
    Word(block, 57, 0x62658CA1);
    Word(block, 58, 0x458544D6);
    Word(block, 59, 0x44584CB7);
    Word(block, 60, 0x7BA06619);
    Word(block, 61, 0x6380AEA2);
    Word(block, 62, 0x0AE55269);
    Word(block, 63, 0x627B49A1);
  }

  lemma Extend64(block: seq<byte>)
    requires |block| == 64 && Words48(block)
    ensures Words64(block)
  {
    hide W;
    Word(block, 64, 0x7CD45C9D);
    Word(block, 65, 0x000F0000);
    Word(block, 66, 0xFB50753A);
    Word(block, 67, 0xEC6765E8);
    Word(block, 68, 0xBA3C2BE2);
    Word(block, 69, 0x0060C000);
    Word(block, 70, 0x3A37CD05);
    Word(block, 71, 0x458546F4);
    Word(block, 72, 0xB8599DD6);
    Word(block, 73, 0x380A1A26);
    Word(block, 74, 0x01E02203);
    Word(block, 75, 0xE7CC3456);
    Word(block, 76, 0xE6E60B69);
    Word(block, 77, 0x00F60A00);
    Word(block, 78, 0x5795EF4F);
    Word(block, 79, 0x822E0879);
  }

  lemma Round(block: seq<byte>, t: nat, r: Regs, w: word, a: word) returns (next: Regs)
    requires |block| == 64 && t < 80 && r == Rounds(INITIAL, block, t) && w == W(block, t)
    requires a == Sum(Rotl5(r.a), F(t, r.b, r.c, r.d), r.e, K(t), w)
    ensures next == Regs(a, r.a, Rotl30(r.b), r.c, r.d) == Rounds(INITIAL, block, t + 1)
  {
    hide Rotl5, Rotl30, F, K, Sum, W, INITIAL;
    next := Step(r, t, w);
  }

  // The values of the register a that the example lists, in five parts.

  lemma Rounds00(block: seq<byte>)
    requires |block| == 64 && Words00(block)
    requires Rounds(INITIAL, block, 0) == Regs(0x67452301, 0xEFCDAB89, 0x98BADCFE, 0x10325476, 0xC3D2E1F0)
    ensures Rounds(INITIAL, block, 16) == Regs(0x20BDD62F, 0x196BEE77, 0x644A3DA5, 0x1181ED99, 0x18C623F9)
  {
    hide W, Rounds, INITIAL;
    var r := Regs(0x67452301, 0xEFCDAB89, 0x98BADCFE, 0x10325476, 0xC3D2E1F0);
    r := Round(block, 0, r, 0x61626380, 0x0116FC33);
    r := Round(block, 1, r, 0x00000000, 0x8990536D);
    r := Round(block, 2, r, 0x00000000, 0xA1390F08);
    r := Round(block, 3, r, 0x00000000, 0xCDD8E11B);
    r := Round(block, 4, r, 0x00000000, 0xCFD499DE);
    r := Round(block, 5, r, 0x00000000, 0x3FC7CA40);
    r := Round(block, 6, r, 0x00000000, 0x993E30C1);
    r := Round(block, 7, r, 0x00000000, 0x9E8C07D4);
    r := Round(block, 8, r, 0x00000000, 0x4B6AE328);
    r := Round(block, 9, r, 0x00000000, 0x8351F929);
    r := Round(block, 10, r, 0x00000000, 0xFBDA9E89);
    r := Round(block, 11, r, 0x00000000, 0x63188FE4);
    r := Round(block, 12, r, 0x00000000, 0x4607B664);
    r := Round(block, 13, r, 0x00000000, 0x9128F695);
    r := Round(block, 14, r, 0x00000000, 0x196BEE77);
    r := Round(block, 15, r, 0x00000018, 0x20BDD62F);
  }

  lemma Rounds16(block: seq<byte>)
    requires |block| == 64 && Words16(block)
    requires Rounds(INITIAL, block, 16) == Regs(0x20BDD62F, 0x196BEE77, 0x644A3DA5, 0x1181ED99, 0x18C623F9)
    ensures Rounds(INITIAL, block, 32) == Regs(0x3B845D33, 0x1267B407, 0x717EEBD7, 0xA0DC2D4B, 0xD2AA1365)
  {
    hide W, Rounds, INITIAL;
    var r := Regs(0x20BDD62F, 0x196BEE77, 0x644A3DA5, 0x1181ED99, 0x18C623F9);
    r := Round(block, 16, r, 0xC2C4C700, 0x4E925823);
    r := Round(block, 17, r, 0x00000000, 0x82AA6728);
    r := Round(block, 18, r, 0x00000030, 0xDC64901D);
    r := Round(block, 19, r, 0x85898E01, 0xFD9E1D7D);
    r := Round(block, 20, r, 0x00000000, 0x1A37B0CA);
    r := Round(block, 21, r, 0x00000060, 0x33A23BFC);
    r := Round(block, 22, r, 0x0B131C03, 0x21283486);
    r := Round(block, 23, r, 0x00000030, 0xD541F12D);
    r := Round(block, 24, r, 0x85898EC1, 0xC7567DC6);
    r := Round(block, 25, r, 0x16263806, 0x48413BA4);
    r := Round(block, 26, r, 0x00000000, 0xBE35FBD5);
    r := Round(block, 27, r, 0x00000180, 0x4AA84D97);
    r := Round(block, 28, r, 0x2C4C700C, 0x8370B52E);
    r := Round(block, 29, r, 0x000000F0, 0xC5FBAF5D);
    r := Round(block, 30, r, 0x93AFB507, 0x1267B407);
    r := Round(block, 31, r, 0x5898E048, 0x3B845D33);
  }

  lemma Rounds32(block: seq<byte>)
    requires |block| == 64 && Words32(block)
    requires Rounds(INITIAL, block, 32) == Regs(0x3B845D33, 0x1267B407, 0x717EEBD7, 0xA0DC2D4B, 0xD2AA1365)
    ensures Rounds(INITIAL, block, 48) == Regs(0xBEAD02CA, 0xA01B846C, 0x8714787C, 0x503CA382, 0xFB86C6AB)
  {
    hide W, Rounds, INITIAL;
    var r := Regs(0x3B845D33, 0x1267B407, 0x717EEBD7, 0xA0DC2D4B, 0xD2AA1365);
    r := Round(block, 32, r, 0x8E9A9202, 0x046FAA0A);
    r := Round(block, 33, r, 0x00000600, 0x2C0EBC11);
    r := Round(block, 34, r, 0xB131C0F0, 0x21796AD4);
    r := Round(block, 35, r, 0x16263BC6, 0xDCBBB0CB);
    r := Round(block, 36, r, 0x4EBED41E, 0x0F511FD8);
    r := Round(block, 37, r, 0x626380A1, 0xDC63973F);
    r := Round(block, 38, r, 0x16263806, 0x4C986405);
    r := Round(block, 39, r, 0x000018C0, 0x32DE1CBA);
    r := Round(block, 40, r, 0xD2E138C4, 0xFC87DEDF);
    r := Round(block, 41, r, 0x00000F00, 0x970A0D5C);
    r := Round(block, 42, r, 0x3AFB5079, 0x7F193DC5);
    r := Round(block, 43, r, 0x898E04E5, 0xEE1B1AAF);
    r := Round(block, 44, r, 0xE2BA3C2B, 0x40F28E09);
    r := Round(block, 45, r, 0x000060C0, 0x1C51E1F2);
    r := Round(block, 46, r, 0x053A37CD, 0xA01B846C);
    r := Round(block, 47, r, 0x74458547, 0xBEAD02CA);
  }

  lemma Rounds48(block: seq<byte>)
    requires |block| == 64 && Words48(block)
    requires Rounds(INITIAL, block, 48) == Regs(0xBEAD02CA, 0xA01B846C, 0x8714787C, 0x503CA382, 0xFB86C6AB)
    ensures Rounds(INITIAL, block, 64) == Regs(0x6B61C9E1, 0xB66C020B, 0x9523272C, 0xF5D5B051, 0x8FD4B796)
  {
    hide W, Rounds, INITIAL;
    var r := Regs(0xBEAD02CA, 0xA01B846C, 0x8714787C, 0x503CA382, 0xFB86C6AB);
    r := Round(block, 48, r, 0xDA9415ED, 0xBAF39337);
    r := Round(block, 49, r, 0x26380A16, 0x120731C5);
    r := Round(block, 50, r, 0x626383A1, 0x641DB2CE);
    r := Round(block, 51, r, 0x4EBF54DE, 0x3847AD66);
    r := Round(block, 52, r, 0x3835B44B, 0xE490436D);
    r := Round(block, 53, r, 0x0000F600, 0x27E9F1D8);
    r := Round(block, 54, r, 0x1E84C7A3, 0x7B71F76D);
    r := Round(block, 55, r, 0x98E04D98, 0x5E6456AF);
    r := Round(block, 56, r, 0x651D16A0, 0xC846093F);
    r := Round(block, 57, r, 0x62658CA1, 0xD262FF50);
    r := Round(block, 58, r, 0x458544D6, 0x09D785FD);
    r := Round(block, 59, r, 0x44584CB7, 0x3F52DE5A);
    r := Round(block, 60, r, 0x7BA06619, 0xD756C147);
    r := Round(block, 61, r, 0x6380AEA2, 0x548C9CB2);
    r := Round(block, 62, r, 0x0AE55269, 0xB66C020B);
    r := Round(block, 63, r, 0x627B49A1, 0x6B61C9E1);
  }

  lemma Rounds64(block: seq<byte>)
    requires |block| == 64 && Words64(block)
    requires Rounds(INITIAL, block, 64) == Regs(0x6B61C9E1, 0xB66C020B, 0x9523272C, 0xF5D5B051, 0x8FD4B796)
    ensures Rounds(INITIAL, block, 80) == Regs(0x42541B35, 0x5738D5E1, 0x21834873, 0x681E6DF6, 0xD8FDF6AD)
  {
    hide W, Rounds, INITIAL;
    var r := Regs(0x6B61C9E1, 0xB66C020B, 0x9523272C, 0xF5D5B051, 0x8FD4B796);
    r := Round(block, 64, r, 0x7CD45C9D, 0x19DFA7AC);
    r := Round(block, 65, r, 0x000F0000, 0x101655F9);
    r := Round(block, 66, r, 0xFB50753A, 0x0C3DF2B4);
    r := Round(block, 67, r, 0xEC6765E8, 0x78DD4D2B);
    r := Round(block, 68, r, 0xBA3C2BE2, 0x497093C0);
    r := Round(block, 69, r, 0x0060C000, 0x3F2588C2);
    r := Round(block, 70, r, 0x3A37CD05, 0xC199F8C7);
    r := Round(block, 71, r, 0x458546F4, 0x39859DE7);
    r := Round(block, 72, r, 0xB8599DD6, 0xEDB42DE4);
    r := Round(block, 73, r, 0x380A1A26, 0x11793F6F);
    r := Round(block, 74, r, 0x01E02203, 0x5EE76897);
    r := Round(block, 75, r, 0xE7CC3456, 0x63F7DAB7);
    r := Round(block, 76, r, 0xE6E60B69, 0xA079B7D9);
    r := Round(block, 77, r, 0x00F60A00, 0x860D21CC);
    r := Round(block, 78, r, 0x5795EF4F, 0x5738D5E1);
    r := Round(block, 79, r, 0x822E0879, 0x42541B35);
  }

  lemma PaddedBlock(block: seq<byte>)
    requires block == Pad(ABC)
    ensures |block| == 64 && block[..4] == [0x61, 0x62, 0x63, 0x80] && block[60..] == [0, 0, 0, 24]
    ensures forall i :: 4 <= i < 60 ==> block[i] == 0
  {
    assert BitCount(3) == 24 && ZeroCount(3) == 52;
    var field := BigEndian(24, 8);
    assert field == [0, 0, 0, 0, 0, 0, 0, 24];
    assert block == ABC + [0x80] + Zeros(52) + field;
  }

  lemma ZeroWord(p: seq<byte>)
    requires p == [0, 0, 0, 0]
    ensures BigEndianWord(p) == 0
  {}

  lemma EndWords()
    ensures BigEndianWord([0x61, 0x62, 0x63, 0x80]) == 0x61626380 && BigEndianWord([0, 0, 0, 24]) == 24
  {}

  lemma MiddleWord(block: seq<byte>, t: nat)
    requires |block| == 64 && 1 <= t < 15 && forall i :: 4 <= i < 60 ==> block[i] == 0
    ensures W(block, t) == 0
  {
    hide BigEndianWord;
    var p := block[4 * t..4 * t + 4];
    assert p == [0, 0, 0, 0];
    ZeroWord(p);
  }

  lemma FirstWords(block: seq<byte>)
    requires block == Pad(ABC)
    ensures |block| == 64 && Words00(block)
  {
    PaddedBlock(block);
    EndWords();
    hide Pad, BigEndianWord;
    assert block[0..4] == block[..4] && block[60..64] == block[60..];
    assert W(block, 0) == 0x61626380 && W(block, 15) == 24;
    hide W;
    forall t | 1 <= t < 15 ensures W(block, t) == 0 {
      MiddleWord(block, t);
    }
  }

  /** The published digest of "abc". */
  lemma DigestOfAbc()
    ensures Sha1Hash(ABC) == Regs(0xA9993E36, 0x4706816A, 0xBA3E2571, 0x7850C26C, 0x9CD0D89D)
  {
    var block := Pad(ABC);
    FirstWords(block);
    OneBlock(block);
    NoRounds(block);
    assert Sha1Hash(ABC) == Chain(block);
    hide *;
    Extend16(block);
    Extend32(block);
    Extend48(block);
    Extend64(block);
    Rounds00(block);
    Rounds16(block);
    Rounds32(block);
    Rounds48(block);
    Rounds64(block);
    LastSum();
  }

  lemma NoRounds(block: seq<byte>)
    requires |block| == 64
    ensures Rounds(INITIAL, block, 0) == Regs(0x67452301, 0xEFCDAB89, 0x98BADCFE, 0x10325476, 0xC3D2E1F0)
  {}

  lemma OneBlock(block: seq<byte>)
    requires |block| == 64
    ensures Chain(block) == Add(INITIAL, Rounds(INITIAL, block, 80))
  {
    hide Rounds, Add, INITIAL;
    assert block[..0] == [] && block[0..] == block;
    assert Chain([]) == INITIAL;
  }

  lemma LastSum()
    ensures Add(INITIAL, Regs(0x42541B35, 0x5738D5E1, 0x21834873, 0x681E6DF6, 0xD8FDF6AD)) ==
      Regs(0xA9993E36, 0x4706816A, 0xBA3E2571, 0x7850C26C, 0x9CD0D89D)
  {}
}
