/** The S-boxes of section 2.4.4 of RFC 3713 and the vectors of its appendix A, which
    camellia-glue.c checks before first use. */
module CamelliaVectors {
  import opened Rfc3713

  // ---- the constants ----

  /** The digits of the square root of p in base 16, from the second digit after the point on. */
  ghost predicate RootDigits(p: nat, first: nat, s: Half) {
    var n := first * 0x1_0000_0000_0000_0000 + (s.bits as nat);
    n * n <= p * 0x100_0000_0000_0000_0000_0000_0000_0000_0000 < (n + 1) * (n + 1)
  }

  /** The six constants are digits of the square roots of the first six primes, as section 2.2 of RFC 3713
      says. */
  lemma SigmaDigits()
    ensures RootDigits(2, 0x16, SIGMA1) && RootDigits(3, 0x1b, SIGMA2) && RootDigits(5, 0x23, SIGMA3)
    ensures RootDigits(7, 0x2a, SIGMA4) && RootDigits(11, 0x35, SIGMA5) && RootDigits(13, 0x39, SIGMA6)
  {
    assert SIGMA1.bits as nat == 0xA09E667F3BCC908B;
    assert SIGMA2.bits as nat == 0xB67AE8584CAA73B2;
    assert SIGMA3.bits as nat == 0xC6EF372FE94F82BE;
    assert SIGMA4.bits as nat == 0x54FF53A5F1D36F1C;
    assert SIGMA5.bits as nat == 0x10E527FADE682D1D;
    assert SIGMA6.bits as nat == 0xB05688C2B3E6C1FD;
  }

  /** Of a 192-bit key the last 64 bits are followed by their complement. */
  lemma ExtendMeans(right: Half)
    ensures Hi(Extend192(right)) == right && XorBits(Lo(Extend192(right)).bits, right.bits) == 0xffff_ffff_ffff_ffff
  {
  }

  // ---- the S-boxes ----

  /** Sixteen entries of SBOX1, the first in the highest octet. */
  function S1Row(r: bv8): bv128 {
    if r == 0 then 0x70822cecb327c0e5e4855735ea0cae41
    else if r == 1 then 0x23ef6b934519a521ed0e4f4e1d6592bd
    else if r == 2 then 0x86b8af8f7ceb1fce3e30dc5f5ec50b1a
    else if r == 3 then 0xa6e139cad5475d3dd9015ad651566c4d
    else if r == 4 then 0x8b0d9a66fbccb02d74122b20f0b18499
    else if r == 5 then 0xdf4ccbc2347e76056db7a931d11704d7
    else if r == 6 then 0x14583a61de1b111c320f9c165318f222
    else if r == 7 then 0xfe44cfb2c3b57a912408e8a860fc6950
    else if r == 8 then 0xaad0a07da1896297545b1e95e0ff64d2
    else if r == 9 then 0x10c40048a3f775db8a03e6da093fdd94
    else if r == 10 then 0x875c8302cd4a90337367f6f39d7fbfe2
    else if r == 11 then 0x529bd826c837c63b81966f4b13be632e
    else if r == 12 then 0xe979a78c9f6ebc8e29f5f9b62ffdb459
    else if r == 13 then 0x7898066ae74671bad425ab4288a28dfa
    else if r == 14 then 0x7207b955f8eeac0a36492a683c38f1a4
    else 0x4028d37bbbc943c115e3adf477c7809e
  }

  function S1(x: bv8): bv8 {
    ((S1Row(x >> 4) >> (120 - 8 * (x & 0x0f))) & 0xff) as bv8
  }

  function Rol8(x: bv8, n: bv4): bv8
    requires n <= 8
  {
    (x << n) | (x >> (8 - n))
  }

  function Boxes(): SBoxes {
    SBoxes(S1, x => Rol8(S1(x), 1), x => Rol8(S1(x), 7), x => S1(Rol8(x, 1)))
  }

  function F(x: Half): Half {
    SP(Boxes(), x)
  }

  /** A block under a 128-bit key. */
  function Crypt128(key: bv128, m: State): State {
    Encrypt(F, Schedule128(F, key), 3, m)
  }

  /** A block under the 256-bit key left || right. */
  function Crypt256(left: bv128, right: bv128, m: State): State {
    Encrypt(F, Schedule256(F, left, right), 4, m)
  }

  // ---- one evaluation ----

  lemma FIs(x: bv64)
    ensures F(Half(x)) == Half(P(S1((x >> 56) as bv8), Rol8(S1(((x >> 48) & 0xff) as bv8), 1), Rol8(S1(((x >> 40) & 0xff) as bv8), 7),
                                 S1(Rol8(((x >> 32) & 0xff) as bv8, 1)), Rol8(S1(((x >> 24) & 0xff) as bv8), 1),
                                 Rol8(S1(((x >> 16) & 0xff) as bv8), 7), S1(Rol8(((x >> 8) & 0xff) as bv8, 1)), S1((x & 0xff) as bv8)))
  {
    hide S1, Rol8, P;
  }

  // ---- the vectors ----

  function Subkeys128(): Keys {
    Keys(Half(0x0123456789abcdef), Half(0xfedcba9876543210), Half(0x492b5738e1eaadd3), Half(0x5f8e8b492053cafc),
         [Half(0xae71c3d55ba6bf1d), Half(0x169240a795f89256), Half(0xa2b3c4d5e6f7ff6e),
          Half(0x5d4c3b2a19080091), Half(0xe1eaadd35f8e8b49), Half(0x2053cafc492b5738),
          Half(0x79bdffdb97530eca), Half(0x8642002468acf135), Half(0xd7e3a2d24814f2bf),
          Half(0x00123456789abcde), Half(0xd169240a795f8925), Half(0x6ae71c3d55ba6bf1),
          Half(0x1d950c840048d159), Half(0xe26af37bffb72ea6), Half(0xe57e2495ab9c70f5),
          Half(0x56e9afc745a49029), Half(0x19080091a2b3c4d5), Half(0xe6f7ff6e5d4c3b2a)],
         [Half(0x56e9afc745a49029), Half(0xe57e2495ab9c70f5), Half(0x97530eca86420024),
          Half(0x68acf13579bdffdb)])
  }

  lemma First128()
    ensures TwoRounds(F, State(Half(0x0123456789abcdef), Half(0xfedcba9876543210)), SIGMA1, SIGMA2)
         == State(Half(0x3f29dc1e0896313d), Half(0x7c5b3d54e8ee323a))
  {
    hide F;
    FIs(0xa1bd2318b2675d64);
    FIs(0xca21d50ca4444188);
  }

  lemma Second128()
    ensures TwoRounds(F, State(Half(0x3e0a9979813dfcd2), Half(0x828787cc9eba002a)), SIGMA3, SIGMA4)
         == State(Half(0xae71c3d55ba6bf1d), Half(0x169240a795f89256))
  {
    hide F;
    FIs(0xf8e5ae5668727e6c);
    FIs(0x426d1302642bfd4a);
  }

  lemma Shape128()
    ensures Shape(Subkeys128(), 3) && Subkeys128().kw1 == Half(0x0123456789abcdef) && Subkeys128().kw2 == Half(0xfedcba9876543210)
    ensures Subkeys128().kw3 == Half(0x492b5738e1eaadd3) && Subkeys128().kw4 == Half(0x5f8e8b492053cafc)
  {
  }

  lemma KA128()
    ensures KA(F, 0x0123456789abcdeffedcba9876543210, 0) == 0xae71c3d55ba6bf1d169240a795f89256
  {
    hide F, TwoRounds;
    First128();
    Second128();
  }

  lemma Schedule128Is()
    ensures Schedule128(F, 0x0123456789abcdeffedcba9876543210) == Subkeys128()
  {
    hide KA, F;
    KA128();
  }

  lemma Rounds128_1()
    ensures TwoRounds(F, State(Half(0x0000000000000000), Half(0x0000000000000000)), Half(0xae71c3d55ba6bf1d), Half(0x169240a795f89256))
         == State(Half(0xd5bd24691d280080), Half(0x77933e474a99fa36))
  {
    hide F;
    FIs(0xae71c3d55ba6bf1d);
    FIs(0x61017ee0df616860);
  }

  lemma Rounds128_3()
    ensures TwoRounds(F, State(Half(0xd5bd24691d280080), Half(0x77933e474a99fa36)), Half(0xa2b3c4d5e6f7ff6e), Half(0x5d4c3b2a19080091))
         == State(Half(0x9ad158f872902d1e), Half(0xc5d1ae21947baea5))
  {
    hide F;
    FIs(0x770ee0bcfbdfffee);
    FIs(0x989d950b8d73ae34);
  }

  lemma Rounds128_5()
    ensures TwoRounds(F, State(Half(0x9ad158f872902d1e), Half(0xc5d1ae21947baea5)), Half(0xe1eaadd35f8e8b49), Half(0x2053cafc492b5738))
         == State(Half(0x695e2dbc2a7211d1), Half(0x029d886d6c0dfb08))
  {
    hide F;
    FIs(0x7b3bf52b2d1ea657);
    FIs(0x22ce42912526ac30);
  }

  lemma Group128_1()
    ensures SixRounds(F, State(Half(0x0000000000000000), Half(0x0000000000000000)), Subkeys128().k, 0)
         == State(Half(0x695e2dbc2a7211d1), Half(0x029d886d6c0dfb08))
  {
    hide TwoRounds, F;
    Rounds128_1();
    Rounds128_3();
    Rounds128_5();
  }

  lemma Layer128_1()
    ensures FLLayer(State(Half(0x695e2dbc2a7211d1), Half(0x029d886d6c0dfb08)), Half(0x56e9afc745a49029), Half(0xe57e2495ab9c70f5))
         == State(Half(0x86b8f745aae24ad9), Half(0xed007390a60dba29))
  {
  }

  lemma Rounds128_7()
    ensures TwoRounds(F, State(Half(0x86b8f745aae24ad9), Half(0xed007390a60dba29)), Half(0x79bdffdb97530eca), Half(0x8642002468acf135))
         == State(Half(0xc9de9b005dbb1bdc), Half(0x5ded23cf7c5a6cd4))
  {
    hide F;
    FIs(0xff05089e3db14413);
    FIs(0xdbaf23eb14f69de1);
  }

  lemma Rounds128_9()
    ensures TwoRounds(F, State(Half(0xc9de9b005dbb1bdc), Half(0x5ded23cf7c5a6cd4)), Half(0xd7e3a2d24814f2bf), Half(0x00123456789abcde))
         == State(Half(0x055d70ce95dd6e39), Half(0x7fa0bf80384f8425))
  {
    hide F;
    FIs(0x1e3d39d215afe963);
    FIs(0x7fb28bd640d538fb);
  }

  lemma Rounds128_11()
    ensures TwoRounds(F, State(Half(0x055d70ce95dd6e39), Half(0x7fa0bf80384f8425)), Half(0xd169240a795f8925), Half(0x6ae71c3d55ba6bf1))
         == State(Half(0x138583cd2132f85b), Half(0xcd8bdc1b60c2f0e8))
  {
    hide F;
    FIs(0xd43454c4ec82e71c);
    FIs(0xa76cc02635789b19);
  }

  lemma Group128_2()
    ensures SixRounds(F, State(Half(0x86b8f745aae24ad9), Half(0xed007390a60dba29)), Subkeys128().k, 6)
         == State(Half(0x138583cd2132f85b), Half(0xcd8bdc1b60c2f0e8))
  {
    hide TwoRounds, F;
    Rounds128_7();
    Rounds128_9();
    Rounds128_11();
  }

  lemma Layer128_2()
    ensures FLLayer(State(Half(0x138583cd2132f85b), Half(0xcd8bdc1b60c2f0e8)), Half(0x97530eca86420024), Half(0x68acf13579bdffdb))
         == State(Half(0x94f77e220730fdcb), Half(0xb47423e0208ab2a8))
  {
  }

  lemma Rounds128_13()
    ensures TwoRounds(F, State(Half(0x94f77e220730fdcb), Half(0xb47423e0208ab2a8)), Half(0x1d950c840048d159), Half(0xe26af37bffb72ea6))
         == State(Half(0xa99f8827f7d70630), Half(0xc64c327670bf3df6))
  {
    hide F;
    FIs(0x896272a607782c92);
    FIs(0x2426c10d8f081350);
  }

  lemma Rounds128_15()
    ensures TwoRounds(F, State(Half(0xa99f8827f7d70630), Half(0xc64c327670bf3df6)), Half(0xe57e2495ab9c70f5), Half(0x56e9afc745a49029))
         == State(Half(0xa402922104425cbf), Half(0xa158df22cc8e3592))
  {
    hide F;
    FIs(0x4ce1acb25c4b76c5);
    FIs(0xf7b170e5892aa5bb);
  }

  lemma Rounds128_17()
    ensures TwoRounds(F, State(Half(0xa402922104425cbf), Half(0xa158df22cc8e3592)), Half(0x19080091a2b3c4d5), Half(0xe6f7ff6e5d4c3b2a))
         == State(Half(0x57d98d1f68b974bf), Half(0x2e4c6600b57cc4a0))
  {
    hide F;
    FIs(0xbd0a92b0a6f1986a);
    FIs(0xc8bb996ee830ff8a);
  }

  lemma Group128_3()
    ensures SixRounds(F, State(Half(0x94f77e220730fdcb), Half(0xb47423e0208ab2a8)), Subkeys128().k, 12)
         == State(Half(0x57d98d1f68b974bf), Half(0x2e4c6600b57cc4a0))
  {
    hide TwoRounds, F;
    Rounds128_13();
    Rounds128_15();
    Rounds128_17();
  }

  lemma After128_1()
    ensures Groups(F, Subkeys128(), 3, 1, State(Half(0x0000000000000000), Half(0x0000000000000000)))
         == State(Half(0x695e2dbc2a7211d1), Half(0x029d886d6c0dfb08))
  {
    hide SixRounds, FLLayer, F;
    Group128_1();
  }

  lemma After128_2()
    ensures Groups(F, Subkeys128(), 3, 2, State(Half(0x0000000000000000), Half(0x0000000000000000)))
         == State(Half(0x138583cd2132f85b), Half(0xcd8bdc1b60c2f0e8))
  {
    hide SixRounds, FLLayer, F;
    After128_1();
    Layer128_1();
    Group128_2();
  }

  lemma After128_3()
    ensures Groups(F, Subkeys128(), 3, 3, State(Half(0x0000000000000000), Half(0x0000000000000000)))
         == State(Half(0x57d98d1f68b974bf), Half(0x2e4c6600b57cc4a0))
  {
    hide SixRounds, FLLayer, F;
    After128_2();
    Layer128_2();
    Group128_3();
  }

  /** The 128-bit key of appendix A. */
  lemma Vector128()
    ensures Crypt128(0x0123456789abcdeffedcba9876543210, State(Half(0x0123456789abcdef), Half(0xfedcba9876543210)))
         == State(Half(0x6767313854966973), Half(0x0857065648eabe43))
  {
    hide Groups, Schedule128, Subkeys128, F;
    Shape128();
    Schedule128Is();
    After128_3();
  }

  function Subkeys256(): Keys {
    Keys(Half(0x0123456789abcdef), Half(0xfedcba9876543210), Half(0xff301c0a90a14052), Half(0x69e00c247ecd63d8),
         [Half(0x3815214280a4d3c0), Half(0x1848fd9ac7b1fe60), Half(0x9119a22ab33bc44c),
          Half(0xd55de66ef77f8008), Half(0xdad8236f83fd64dd), Half(0xc8a5bf8c9bf70be8),
          Half(0xa02934f006123f66), Half(0xb1ec7f980e054850), Half(0x79bdffdb97530eca),
          Half(0x8642002468acf135), Half(0xe0ff593772296fe3), Half(0x26fdc2fa36b608db),
          Half(0x78899aabbccddeef), Half(0xf001122334455667), Half(0x01848fd9ac7b1fe6),
          Half(0x03815214280a4d3c), Half(0x97530eca86420024), Half(0x68acf13579bdffdb),
          Half(0xf3377bbfc004488c), Half(0xd115599de2266aae), Half(0xdfc64dfb85f46d6c),
          Half(0x11b7c1feb26ee452), Half(0x19080091a2b3c4d5), Half(0xe6f7ff6e5d4c3b2a)],
         [Half(0xd115599de2266aae), Half(0xf3377bbfc004488c), Half(0xffedcba987654321),
          Half(0x00123456789abcde), Half(0x72296fe326fdc2fa), Half(0x36b608dbe0ff5937)])
  }

  lemma First256()
    ensures TwoRounds(F, State(Half(0x01326754cdfeab98), Half(0x76451023ba89dcef)), SIGMA1, SIGMA2)
         == State(Half(0x25d10c377a195cee), Half(0x683bbf4fa89c62a5))
  {
    hide F;
    FIs(0xa1ac012bf6323b13);
    FIs(0xde415717e4361117);
  }

  lemma Second256()
    ensures TwoRounds(F, State(Half(0x24f24950f3b29101), Half(0x96e705d7dec850b5)), SIGMA3, SIGMA4)
         == State(Half(0x17d1b5b046df07fa), Half(0xc9bb914b7f1937ee))
  {
    hide F;
    FIs(0xe21d7e7f1afd13bf);
    FIs(0x9d44c2ee8eca58f2);
  }

  lemma Third256()
    ensures TwoRounds(F, State(Half(0x17c09783028a618d), Half(0x41223bf0b3c4d911)), SIGMA5, SIGMA6)
         == State(Half(0x3815214280a4d3c0), Half(0x1848fd9ac7b1fe60))
  {
    hide F;
    FIs(0x0725b079dce24c90);
    FIs(0xa81e755874573f9d);
  }

  lemma Shape256()
    ensures Shape(Subkeys256(), 4) && Subkeys256().kw1 == Half(0x0123456789abcdef) && Subkeys256().kw2 == Half(0xfedcba9876543210)
    ensures Subkeys256().kw3 == Half(0xff301c0a90a14052) && Subkeys256().kw4 == Half(0x69e00c247ecd63d8)
  {
  }

  lemma KA256()
    ensures KA(F, 0x0123456789abcdeffedcba9876543210, 0x00112233445566778899aabbccddeeff) == 0x17d1b5b046df07fac9bb914b7f1937ee
  {
    hide F, TwoRounds;
    First256();
    Second256();
  }

  lemma KB256()
    ensures KB(F, 0x17d1b5b046df07fac9bb914b7f1937ee, 0x00112233445566778899aabbccddeeff) == 0x3815214280a4d3c01848fd9ac7b1fe60
  {
    hide F, TwoRounds;
    Third256();
  }

  lemma Schedule256Is()
    ensures Schedule256(F, 0x0123456789abcdeffedcba9876543210, 0x00112233445566778899aabbccddeeff) == Subkeys256()
  {
    hide KA, KB, F;
    KA256();
    KB256();
  }

  lemma Rounds256_1()
    ensures TwoRounds(F, State(Half(0x0000000000000000), Half(0x0000000000000000)), Half(0x3815214280a4d3c0), Half(0x1848fd9ac7b1fe60))
         == State(Half(0xaf683dec327a41f2), Half(0x18c5ed4fd7e1a7f8))
  {
    hide F;
    FIs(0x3815214280a4d3c0);
    FIs(0x008d10d510505998);
  }

  lemma Rounds256_3()
    ensures TwoRounds(F, State(Half(0xaf683dec327a41f2), Half(0x18c5ed4fd7e1a7f8)), Half(0x9119a22ab33bc44c), Half(0xd55de66ef77f8008))
         == State(Half(0x6cdc91f9e8cfe87c), Half(0x11290760e3d45679))
  {
    hide F;
    FIs(0x3e719fc6814185be);
    FIs(0xc474e10e14abd671);
  }

  lemma Rounds256_5()
    ensures TwoRounds(F, State(Half(0x6cdc91f9e8cfe87c), Half(0x11290760e3d45679)), Half(0xdad8236f83fd64dd), Half(0xc8a5bf8c9bf70be8))
         == State(Half(0x0ba9f94ce51e4f86), Half(0xb03326108ca113c4))
  {
    hide F;
    FIs(0xb604b2966b328ca1);
    FIs(0x7896999c1756182c);
  }

  lemma Group256_1()
    ensures SixRounds(F, State(Half(0x0000000000000000), Half(0x0000000000000000)), Subkeys256().k, 0)
         == State(Half(0x0ba9f94ce51e4f86), Half(0xb03326108ca113c4))
  {
    hide TwoRounds, F;
    Rounds256_1();
    Rounds256_3();
    Rounds256_5();
  }

  lemma Layer256_1()
    ensures FLLayer(State(Half(0x0ba9f94ce51e4f86), Half(0xb03326108ca113c4)), Half(0xd115599de2266aae), Half(0xf3377bbfc004488c))
         == State(Half(0xec9706f2e71cfd9e), Half(0x7c967ddc6c8de0fc))
  {
  }

  lemma Rounds256_7()
    ensures TwoRounds(F, State(Half(0xec9706f2e71cfd9e), Half(0x7c967ddc6c8de0fc)), Half(0xa02934f006123f66), Half(0xb1ec7f980e054850))
         == State(Half(0x4b90ce24a1ef8d21), Half(0x68819be59145836f))
  {
    hide F;
    FIs(0x4cbe3202e10ec2f8);
    FIs(0xd96de47d9f40cb3f);
  }

  lemma Rounds256_9()
    ensures TwoRounds(F, State(Half(0x4b90ce24a1ef8d21), Half(0x68819be59145836f)), Half(0x79bdffdb97530eca), Half(0x8642002468acf135))
         == State(Half(0x5561c041a81e7a03), Half(0x3b9a82d62709b61e))
  {
    hide F;
    FIs(0x322d31ff36bc83eb);
    FIs(0xbdd882f24fa5472b);
  }

  lemma Rounds256_11()
    ensures TwoRounds(F, State(Half(0x5561c041a81e7a03), Half(0x3b9a82d62709b61e)), Half(0xe0ff593772296fe3), Half(0x26fdc2fa36b608db))
         == State(Half(0x98d5c815bb513ed3), Half(0x81d334c59bcab000))
  {
    hide F;
    FIs(0xb59e9976da3715e0);
    FIs(0xa72ef63fad7cb8db);
  }

  lemma Group256_2()
    ensures SixRounds(F, State(Half(0xec9706f2e71cfd9e), Half(0x7c967ddc6c8de0fc)), Subkeys256().k, 6)
         == State(Half(0x98d5c815bb513ed3), Half(0x81d334c59bcab000))
  {
    hide TwoRounds, F;
    Rounds256_7();
    Rounds256_9();
    Rounds256_11();
  }

  lemma Layer256_2()
    ensures FLLayer(State(Half(0x98d5c815bb513ed3), Half(0x81d334c59bcab000)), Half(0xffedcba987654321), Half(0x00123456789abcde))
         == State(Half(0x172a27e48adaaed0), Half(0x7a09881b9bcab024))
  {
  }

  lemma Rounds256_13()
    ensures TwoRounds(F, State(Half(0x172a27e48adaaed0), Half(0x7a09881b9bcab024)), Half(0x78899aabbccddeef), Half(0xf001122334455667))
         == State(Half(0xadac6ae5e9f8637c), Half(0x757796c512145583))
  {
    hide F;
    FIs(0x6fa3bd4f3617703f);
    FIs(0x857684e6265103e4);
  }

  lemma Rounds256_15()
    ensures TwoRounds(F, State(Half(0xadac6ae5e9f8637c), Half(0x757796c512145583)), Half(0x01848fd9ac7b1fe6), Half(0x03815214280a4d3c))
         == State(Half(0xa72fff76ab95536d), Half(0xf6d8c1d8be75c708))
  {
    hide F;
    FIs(0xac28e53c45837c9a);
    FIs(0xf55993cc967f8a34);
  }

  lemma Rounds256_17()
    ensures TwoRounds(F, State(Half(0xa72fff76ab95536d), Half(0xf6d8c1d8be75c708)), Half(0x97530eca86420024), Half(0x68acf13579bdffdb))
         == State(Half(0xb07095b65bfe1b4f), Half(0x93bf774207a81fe0))
  {
    hide F;
    FIs(0x307cf1bc2dd75349);
    FIs(0xfb1386777e15e03b);
  }

  lemma Group256_3()
    ensures SixRounds(F, State(Half(0x172a27e48adaaed0), Half(0x7a09881b9bcab024)), Subkeys256().k, 12)
         == State(Half(0xb07095b65bfe1b4f), Half(0x93bf774207a81fe0))
  {
    hide TwoRounds, F;
    Rounds256_13();
    Rounds256_15();
    Rounds256_17();
  }

  lemma Layer256_3()
    ensures FLLayer(State(Half(0xb07095b65bfe1b4f), Half(0x93bf774207a81fe0)), Half(0x72296fe326fdc2fa), Half(0x36b608dbe0ff5937))
         == State(Half(0x8f8f474d3bbe100b), Half(0x744028b56fa80ec2))
  {
  }

  lemma Rounds256_19()
    ensures TwoRounds(F, State(Half(0x8f8f474d3bbe100b), Half(0x744028b56fa80ec2)), Half(0xf3377bbfc004488c), Half(0xd115599de2266aae))
         == State(Half(0xd02e60aeedc9cfee), Half(0x20e12afc7e2f8140))
  {
    hide F;
    FIs(0x7cb83cf2fbba5887);
    FIs(0xf1f473619c09ebee);
  }

  lemma Rounds256_21()
    ensures TwoRounds(F, State(Half(0xd02e60aeedc9cfee), Half(0x20e12afc7e2f8140)), Half(0xdfc64dfb85f46d6c), Half(0x11b7c1feb26ee452))
         == State(Half(0x71a1dead7fe9962a), Half(0x32320a0714a97a74))
  {
    hide F;
    FIs(0x0fe82d55683da282);
    FIs(0x2385cbf9a6c79e26);
  }

  lemma Rounds256_23()
    ensures TwoRounds(F, State(Half(0x71a1dead7fe9962a), Half(0x32320a0714a97a74)), Half(0x19080091a2b3c4d5), Half(0xe6f7ff6e5d4c3b2a))
         == State(Half(0x490f70b5e0f716d1), Half(0x65fc3f776fb7973e))
  {
    hide F;
    FIs(0x68a9de3cdd5a52ff);
    FIs(0x830bc01932fbac14);
  }

  lemma Group256_4()
    ensures SixRounds(F, State(Half(0x8f8f474d3bbe100b), Half(0x744028b56fa80ec2)), Subkeys256().k, 18)
         == State(Half(0x490f70b5e0f716d1), Half(0x65fc3f776fb7973e))
  {
    hide TwoRounds, F;
    Rounds256_19();
    Rounds256_21();
    Rounds256_23();
  }

  lemma After256_1()
    ensures Groups(F, Subkeys256(), 4, 1, State(Half(0x0000000000000000), Half(0x0000000000000000)))
         == State(Half(0x0ba9f94ce51e4f86), Half(0xb03326108ca113c4))
  {
    hide SixRounds, FLLayer, F;
    Group256_1();
  }

  lemma After256_2()
    ensures Groups(F, Subkeys256(), 4, 2, State(Half(0x0000000000000000), Half(0x0000000000000000)))
         == State(Half(0x98d5c815bb513ed3), Half(0x81d334c59bcab000))
  {
    hide SixRounds, FLLayer, F;
    After256_1();
    Layer256_1();
    Group256_2();
  }

  lemma After256_3()
    ensures Groups(F, Subkeys256(), 4, 3, State(Half(0x0000000000000000), Half(0x0000000000000000)))
         == State(Half(0xb07095b65bfe1b4f), Half(0x93bf774207a81fe0))
  {
    hide SixRounds, FLLayer, F;
    After256_2();
    Layer256_2();
    Group256_3();
  }

  lemma After256_4()
    ensures Groups(F, Subkeys256(), 4, 4, State(Half(0x0000000000000000), Half(0x0000000000000000)))
         == State(Half(0x490f70b5e0f716d1), Half(0x65fc3f776fb7973e))
  {
    hide SixRounds, FLLayer, F;
    After256_3();
    Layer256_3();
    Group256_4();
  }

  /** The 256-bit key of appendix A. */
  lemma Vector256()
    ensures Crypt256(0x0123456789abcdeffedcba9876543210, 0x00112233445566778899aabbccddeeff, State(Half(0x0123456789abcdef), Half(0xfedcba9876543210)))
         == State(Half(0x9acc237dff16d76c), Half(0x20ef7c919e3a7509))
  {
    hide Groups, Schedule256, Subkeys256, F;
    Shape256();
    Schedule256Is();
    After256_4();
  }
}
