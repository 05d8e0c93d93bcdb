/** What the octets of a word are, and the first block of the key stream that chacha20.c checks before
    first use. */
module ChaChaVectors {
  import opened BitHelp
  import opened Bytes
  import opened ChaCha20
  import N = BitNumbers

  // ---- words ----

  lemma OctetsOfWord(w: Word)
    ensures var w1 := N.Above(w);
            var w2 := N.Above(w1);
            var w3 := N.Above(w2);
            && N.Above(w3) == 0
            && ByteOf(w, 0) == N.Lowest(w) && ByteOf(w, 8) == N.Lowest(w1) && ByteOf(w, 16) == N.Lowest(w2) && ByteOf(w, 24) == N.Lowest(w3)
  {
  }

  /** Words are stored with their least significant octet first, buf_put_le32. */
  lemma WordIsLittleEndian(w: Word)
    ensures LittleEndian(WordBytes(w)) == NumberOf(w)
  {
    hide Val, ByteOf, NumberOf, LittleEndian, N.Lowest, N.Above;
    OctetsOfWord(w);
    N.LowOctet(w);
    N.LowOctet(N.Above(w));
    N.LowOctet(N.Above(N.Above(w)));
    N.LowOctet(N.Above(N.Above(N.Above(w))));
    NotZero(0);
    FourOctets(ByteOf(w, 0), ByteOf(w, 8), ByteOf(w, 16), ByteOf(w, 24));
  }

  lemma FourOctets(a: byte, b: byte, c: byte, d: byte)
    ensures LittleEndian([a, b, c, d]) == Val(a) + 256 * (Val(b) + 256 * (Val(c) + 256 * Val(d)))
  {
    hide Val;
    assert [d][1..] == [];
    assert LittleEndian([d]) == Val(d);
    assert [c, d][1..] == [d];
    assert LittleEndian([c, d]) == Val(c) + 256 * Val(d);
    assert [b, c, d][1..] == [c, d];
    assert [a, b, c, d][1..] == [b, c, d];
  }

  lemma Stored(a: byte, b: byte, c: byte, d: byte)
    ensures WordBytes(Join(a, b, c, d)) == [a, b, c, d]
  {
  }

  /** And loaded so, buf_get_le32. */
  lemma LoadIsLittleEndian(s: seq<byte>)
    requires |s| == 4
    ensures NumberOf(LoadWord(s)) == LittleEndian(s) && WordBytes(LoadWord(s)) == s
  {
    hide NumberOf, WordBytes, Join, LittleEndian;
    assert s == [s[0], s[1], s[2], s[3]];
    Stored(s[0], s[1], s[2], s[3]);
    WordIsLittleEndian(LoadWord(s));
  }

  lemma OneMoreHalved(w: Word)
    requires w != 0xffff_ffff
    ensures IsOdd(Plus(w, 1)) != IsOdd(w)
    ensures Halved(Plus(w, 1)) == if IsOdd(w) then Plus(Halved(w), 1) else Halved(w)
    ensures Halved(w) != 0xffff_ffff && (w == 0 ==> !IsOdd(w))
  {
  }

  lemma {:induction false} OneMore(w: Word)
    requires w != 0xffff_ffff
    ensures NumberOf(Plus(w, 1)) == NumberOf(w) + 1
    decreases NumberOf(w)
  {
    hide *;
    OneMoreHalved(w);
    NotZero(w);
    Halves(w);
    Halves(Plus(w, 1));
    if IsOdd(w) {
      OneMore(Halved(w));
    }
  }

  lemma LastWord(w: Word)
    ensures NumberOf(0xffff_ffff) == 0xffff_ffff && NumberOf(0) == 0
    ensures w + 1 == 0 <==> w == 0xffff_ffff
    ensures NumberOf(w) < 0x1_0000_0000
  {
  }

  lemma WordPlusOne(w: Word)
    ensures NumberOf(w + 1) == if w + 1 == 0 then 0 else NumberOf(w) + 1
    ensures NumberOf(w) < 0x1_0000_0000 && (w + 1 == 0 ==> NumberOf(w) == 0xffff_ffff)
  {
    hide NumberOf;
    LastWord(w);
    LastWord(w + 1);
    if w != 0xffff_ffff {
      OneMore(w);
    }
  }

  /** The number in the two counter words. */
  function CounterNumber(s: State): nat {
    NumberOf(s.r3.a) + 0x1_0000_0000 * NumberOf(s.r3.b)
  }

  /** The counter is one number of 64 bits. */
  lemma NextCounterMeans(s: State)
    ensures CounterNumber(NextCounter(s)) == (CounterNumber(s) + 1) % 0x1_0000_0000_0000_0000
    ensures NextCounter(s).r0 == s.r0 && NextCounter(s).r1 == s.r1 && NextCounter(s).r2 == s.r2
    ensures NextCounter(s).r3.c == s.r3.c && NextCounter(s).r3.d == s.r3.d
  {
    hide NumberOf;
    var lo, hi := s.r3.a, s.r3.b;
    WordPlusOne(lo);
    WordPlusOne(hi);
    LastWord(lo + 1);
    LastWord(hi + 1);
    SameWord(hi);
  }

  lemma SameWord(w: Word)
    ensures Plus(w, 0) == w
  {
  }

  // ---- a vector ----

  /** Section 2.1 of RFC 8439, step by step. */
  function Steps(a: Word, b: Word, c: Word, d: Word): Quad {
    var d1 := Rol(XorWord(d, Plus(a, b)), 16);
    var b1 := Rol(XorWord(b, Plus(c, d1)), 12);
    var a2 := Plus(Plus(a, b), b1);
    var d2 := Rol(XorWord(d1, a2), 8);
    var c2 := Plus(Plus(c, d1), d2);
    Quad(a2, Rol(XorWord(b1, c2), 7), c2, d2)
  }

  lemma Quarter(a: Word, b: Word, c: Word, d: Word, r: Quad)
    requires Steps(a, b, c, d) == r
    ensures QuarterRound(a, b, c, d) == r
  {
    hide Rol, XorWord, Plus;
  }

  /** The state of the vector after n double rounds. */
  function After(n: nat): State {
    match n
    case 0 => State(Row(0x61707865, 0x3320646e, 0x79622d32, 0x6b206574),
                    Row(0xb1c16ec4, 0x78a8e88c, 0xe7375a72, 0x35b7df80),
                    Row(0x2eed681f, 0xfb794c19, 0xe1beaec6, 0x5d9767a6),
                    Row(0x00000000, 0x00000000, 0xd531da1a, 0x218268cf))
    case 1 => State(Row(0x6327a354, 0x4ff6a2fe, 0x11b97494, 0x586e68d5),
                    Row(0x30983428, 0x4b042e7a, 0x1c9d7984, 0xbe937a7d),
                    Row(0x5da036b5, 0xe46080df, 0x969efac9, 0x9c18ebd7),
                    Row(0x4fbb0809, 0xfb24d3bb, 0x29095960, 0x40d99b33))
    case 2 => State(Row(0xb251238b, 0x28620b3e, 0xca0f01dc, 0x2071181d),
                    Row(0x32d139b4, 0xfdc1b748, 0xf6d9c71f, 0x5e848a56),
                    Row(0xe3df3fc8, 0x0c7d8e92, 0xfcb1b182, 0xe845ddf2),
                    Row(0x0906b3e4, 0x1a7f5de5, 0x2ccdf1d4, 0x1c98d49a))
    case 3 => State(Row(0xb0b5b2e1, 0xdcb04d4f, 0xd7145698, 0xcaed7a94),
                    Row(0xd1e87c0d, 0xe45e994a, 0x66acffd5, 0xbd3793ee),
                    Row(0x5d5dc91e, 0x80764e58, 0x02a8f35f, 0x2cd2c352),
                    Row(0x7a87d80f, 0xe99d6fd3, 0x66ee3a1a, 0x8cd4e434))
    case 4 => State(Row(0x52e10f1e, 0x57bd28bf, 0x0f924a0b, 0x0a9a3cb1),
                    Row(0xca438568, 0x1efc2027, 0xb03d981c, 0x93bd03bb),
                    Row(0xd75b704b, 0x7fc8253f, 0x04764142, 0x4baf96db),
                    Row(0x615c7d3f, 0x146630d1, 0x82c0d0ba, 0x6a6e66d8))
    case 5 => State(Row(0x75ec61fa, 0x34fecb12, 0xc37dc8b4, 0x510fd205),
                    Row(0xd80afad2, 0x2b8fd671, 0xb4f7355d, 0xbf483ffc),
                    Row(0xbb18e10c, 0x8a5d5ad1, 0xbc827e8f, 0xb8b27a7f),
                    Row(0x79fc0841, 0xf542263d, 0x725aa045, 0x2b2027c5))
    case 6 => State(Row(0xc59709af, 0xd34d5816, 0x62d9ba82, 0xa5a0259d),
                    Row(0xc6b50a78, 0x676fc0e0, 0x3e732bf7, 0x8be49e9f),
                    Row(0xdbad0c93, 0xb90aa1fd, 0xb76f7e5e, 0xc2e5260a),
                    Row(0xbc802b09, 0x28876c46, 0xde7f8721, 0x8a78a6ce))
    case 7 => State(Row(0x9fa3f2b9, 0xaa562eca, 0x621f5626, 0xe63d1e7e),
                    Row(0xf88c16b5, 0xda158c2a, 0x2c2d4845, 0x6b2f5e43),
                    Row(0x3e6a4d64, 0x1e2c1296, 0xf1fc2375, 0x4137a110),
                    Row(0x4c608db8, 0xb745dab9, 0x71852922, 0xe4b50696))
    case 8 => State(Row(0x5e02ffe9, 0x21cdf584, 0x4bea459f, 0xc0764660),
                    Row(0xab0fae01, 0xeba27ae5, 0xd3c98f69, 0x4140feab),
                    Row(0xe0815e4d, 0xb26193fd, 0x625e4dcf, 0x77de8e34),
                    Row(0x78fe1983, 0x3497ef3a, 0x3b04f771, 0x86eb0cba))
    case 9 => State(Row(0x3a53f0b4, 0xd68e2605, 0xf8e4625c, 0x4f4d9c77),
                    Row(0xf3278a1e, 0xaffbceb2, 0x8365c7ed, 0x769dbb25),
                    Row(0x468d9eec, 0x67d16aba, 0xa9527e08, 0x0a547323),
                    Row(0x03bc7ebf, 0xc13d6aa9, 0xa9828ff7, 0x15458819))
    case _ => State(Row(0x5618c291, 0xc650bdee, 0xdab45b04, 0x9b0f3fb7),
                    Row(0x6562db29, 0x87824806, 0x23c18e43, 0x79bbc569),
                    Row(0x6033f3a3, 0x02774e38, 0x4c77580e, 0x224701e7),
                    Row(0xa604c654, 0x3f350fe0, 0x464534f7, 0x7129400d))
  }

  lemma Double1()
    ensures DoubleRound(After(0)) == After(1)
  {
    hide QuarterRound;
    Quarter(0x61707865, 0xb1c16ec4, 0x2eed681f, 0x00000000, Quad(0x848b31a6, 0xb02c6764, 0xb83912b3, 0xa2229763));
    Quarter(0x3320646e, 0x78a8e88c, 0xfb794c19, 0x00000000, Quad(0x5dc03007, 0x7c937f19, 0x830fc5f3, 0x3a9bce11));
    Quarter(0x79622d32, 0xe7375a72, 0xe1beaec6, 0xd531da1a, Quad(0x047b5528, 0x5e14a1d3, 0x055de4c7, 0xc5e08059));
    Quarter(0x6b206574, 0x35b7df80, 0x5d9767a6, 0x218268cf, Quad(0xf44050ba, 0x66610f2b, 0x05a4c9d8, 0x7bd1e0d8));
    Quarter(0x848b31a6, 0x7c937f19, 0x055de4c7, 0x7bd1e0d8, Quad(0x6327a354, 0x4b042e7a, 0x969efac9, 0x40d99b33));
    Quarter(0x5dc03007, 0x5e14a1d3, 0x05a4c9d8, 0xa2229763, Quad(0x4ff6a2fe, 0x1c9d7984, 0x9c18ebd7, 0x4fbb0809));
    Quarter(0x047b5528, 0x66610f2b, 0xb83912b3, 0x3a9bce11, Quad(0x11b97494, 0xbe937a7d, 0x5da036b5, 0xfb24d3bb));
    Quarter(0xf44050ba, 0xb02c6764, 0x830fc5f3, 0xc5e08059, Quad(0x586e68d5, 0x30983428, 0xe46080df, 0x29095960));
  }

  lemma Double2()
    ensures DoubleRound(After(1)) == After(2)
  {
    hide QuarterRound;
    Quarter(0x6327a354, 0x30983428, 0x5da036b5, 0x4fbb0809, Quad(0x7628e854, 0x11b9dd3c, 0x9a4a6362, 0x5d3450a9));
    Quarter(0x4ff6a2fe, 0x4b042e7a, 0xe46080df, 0xfb24d3bb, Quad(0x17c74c3a, 0xcede084b, 0xeb51c6d2, 0x042de415));
    Quarter(0x11b97494, 0x1c9d7984, 0x969efac9, 0x29095960, Quad(0xd611b340, 0x38f25088, 0xb7cb2189, 0x69b41f61));
    Quarter(0x586e68d5, 0xbe937a7d, 0x9c18ebd7, 0x40d99b33, Quad(0xaa9f0e00, 0xa49b17c0, 0x12d41c81, 0xfe59d8d2));
    Quarter(0x7628e854, 0xcede084b, 0xb7cb2189, 0xfe59d8d2, Quad(0xb251238b, 0xfdc1b748, 0xfcb1b182, 0x1c98d49a));
    Quarter(0x17c74c3a, 0x38f25088, 0x12d41c81, 0x5d3450a9, Quad(0x28620b3e, 0xf6d9c71f, 0xe845ddf2, 0x0906b3e4));
    Quarter(0xd611b340, 0xa49b17c0, 0x9a4a6362, 0x042de415, Quad(0xca0f01dc, 0x5e848a56, 0xe3df3fc8, 0x1a7f5de5));
    Quarter(0xaa9f0e00, 0x11b9dd3c, 0xeb51c6d2, 0x69b41f61, Quad(0x2071181d, 0x32d139b4, 0x0c7d8e92, 0x2ccdf1d4));
  }

  lemma Double3()
    ensures DoubleRound(After(2)) == After(3)
  {
    hide QuarterRound;
    Quarter(0xb251238b, 0x32d139b4, 0xe3df3fc8, 0x0906b3e4, Quad(0x8647eb45, 0xf381a967, 0x6ec28d54, 0x9c076168));
    Quarter(0x28620b3e, 0xfdc1b748, 0x0c7d8e92, 0x1a7f5de5, Quad(0x3dfe27e8, 0x930d792f, 0x48fc7f90, 0x9d1bb4a2));
    Quarter(0xca0f01dc, 0xf6d9c71f, 0xfcb1b182, 0x2ccdf1d4, Quad(0x4694552e, 0x18928aba, 0xf19aa926, 0xbbb90b7f));
    Quarter(0x2071181d, 0x5e848a56, 0xe845ddf2, 0x1c98d49a, Quad(0x3b96328d, 0x10585b31, 0xde8020ac, 0x7f50e04d));
    Quarter(0x8647eb45, 0x930d792f, 0xf19aa926, 0x7f50e04d, Quad(0xb0b5b2e1, 0xe45e994a, 0x02a8f35f, 0x8cd4e434));
    Quarter(0x3dfe27e8, 0x18928aba, 0xde8020ac, 0x9c076168, Quad(0xdcb04d4f, 0x66acffd5, 0x2cd2c352, 0x7a87d80f));
    Quarter(0x4694552e, 0x10585b31, 0x6ec28d54, 0x9d1bb4a2, Quad(0xd7145698, 0xbd3793ee, 0x5d5dc91e, 0xe99d6fd3));
    Quarter(0x3b96328d, 0xf381a967, 0x48fc7f90, 0xbbb90b7f, Quad(0xcaed7a94, 0xd1e87c0d, 0x80764e58, 0x66ee3a1a));
  }

  lemma Double4()
    ensures DoubleRound(After(3)) == After(4)
  {
    hide QuarterRound;
    Quarter(0xb0b5b2e1, 0xd1e87c0d, 0x5d5dc91e, 0x7a87d80f, Quad(0xfe71d74b, 0xde5db14f, 0xe46f133f, 0x902f5208));
    Quarter(0xdcb04d4f, 0xe45e994a, 0x80764e58, 0xe99d6fd3, Quad(0xb0090572, 0x0a237ed1, 0x4cee5824, 0x432de139));
    Quarter(0xd7145698, 0x66acffd5, 0x02a8f35f, 0x66ee3a1a, Quad(0x08d70705, 0x34e43562, 0x0f7c78f2, 0xa05c2a64));
    Quarter(0xcaed7a94, 0xbd3793ee, 0x2cd2c352, 0x8cd4e434, Quad(0x7ddfe92d, 0x663f38ba, 0x8176a4da, 0x69eddc97));
    Quarter(0xfe71d74b, 0x0a237ed1, 0x0f7c78f2, 0x69eddc97, Quad(0x52e10f1e, 0x1efc2027, 0x04764142, 0x6a6e66d8));
    Quarter(0xb0090572, 0x34e43562, 0x8176a4da, 0x902f5208, Quad(0x57bd28bf, 0xb03d981c, 0x4baf96db, 0x615c7d3f));
    Quarter(0x08d70705, 0x663f38ba, 0xe46f133f, 0x432de139, Quad(0x0f924a0b, 0x93bd03bb, 0xd75b704b, 0x146630d1));
    Quarter(0x7ddfe92d, 0xde5db14f, 0x4cee5824, 0xa05c2a64, Quad(0x0a9a3cb1, 0xca438568, 0x7fc8253f, 0x82c0d0ba));
  }

  lemma Double5()
    ensures DoubleRound(After(4)) == After(5)
  {
    hide QuarterRound;
    Quarter(0x52e10f1e, 0xca438568, 0xd75b704b, 0x615c7d3f, Quad(0x93bf453b, 0xea404458, 0xc74e303d, 0x0639437a));
    Quarter(0x57bd28bf, 0x1efc2027, 0x7fc8253f, 0x146630d1, Quad(0xb13ce776, 0x8357bb9c, 0x038531e7, 0x0b85a9c9));
    Quarter(0x0f924a0b, 0xb03d981c, 0x04764142, 0x82c0d0ba, Quad(0xae34ba99, 0x7fe64f87, 0xe09b14ed, 0xa987969c));
    Quarter(0x0a9a3cb1, 0x93bd03bb, 0x4baf96db, 0x6a6e66d8, Quad(0x36e23e89, 0xd2e29ca8, 0xc92f3b24, 0x56cab010));
    Quarter(0x93bf453b, 0x8357bb9c, 0xe09b14ed, 0x56cab010, Quad(0x75ec61fa, 0x2b8fd671, 0xbc827e8f, 0x2b2027c5));
    Quarter(0xb13ce776, 0x7fe64f87, 0xc92f3b24, 0x0639437a, Quad(0x34fecb12, 0xb4f7355d, 0xb8b27a7f, 0x79fc0841));
    Quarter(0xae34ba99, 0xd2e29ca8, 0xc74e303d, 0x0b85a9c9, Quad(0xc37dc8b4, 0xbf483ffc, 0xbb18e10c, 0xf542263d));
    Quarter(0x36e23e89, 0xea404458, 0x038531e7, 0xa987969c, Quad(0x510fd205, 0xd80afad2, 0x8a5d5ad1, 0x725aa045));
  }

  lemma Double6()
    ensures DoubleRound(After(5)) == After(6)
  {
    hide QuarterRound;
    Quarter(0x75ec61fa, 0xd80afad2, 0xbb18e10c, 0x79fc0841, Quad(0x1cf3ba46, 0x641f92a0, 0x8e34625f, 0x7e8e4d48));
    Quarter(0x34fecb12, 0x2b8fd671, 0x8a5d5ad1, 0xf542263d, Quad(0xa2fd651c, 0x3101ad8a, 0x560cc0c2, 0x43f0d025));
    Quarter(0xc37dc8b4, 0xb4f7355d, 0xbc827e8f, 0x725aa045, Quad(0x945308f3, 0x03b6329d, 0x21d96687, 0x0702ddca));
    Quarter(0x510fd205, 0xbf483ffc, 0xb8b27a7f, 0x2b2027c5, Quad(0xf8f8c714, 0xe9cbebe1, 0x2b7322c4, 0x3cfc6ccd));
    Quarter(0x1cf3ba46, 0x3101ad8a, 0x21d96687, 0x3cfc6ccd, Quad(0xc59709af, 0x676fc0e0, 0xb76f7e5e, 0x8a78a6ce));
    Quarter(0xa2fd651c, 0x03b6329d, 0x2b7322c4, 0x7e8e4d48, Quad(0xd34d5816, 0x3e732bf7, 0xc2e5260a, 0xbc802b09));
    Quarter(0x945308f3, 0xe9cbebe1, 0x8e34625f, 0x43f0d025, Quad(0x62d9ba82, 0x8be49e9f, 0xdbad0c93, 0x28876c46));
    Quarter(0xf8f8c714, 0x641f92a0, 0x560cc0c2, 0x0702ddca, Quad(0xa5a0259d, 0xc6b50a78, 0xb90aa1fd, 0xde7f8721));
  }

  lemma Double7()
    ensures DoubleRound(After(6)) == After(7)
  {
    hide QuarterRound;
    Quarter(0xc59709af, 0xc6b50a78, 0xdbad0c93, 0xbc802b09, Quad(0x6fbe91ed, 0x0711b4a4, 0xab7c5eaf, 0x90a12150));
    Quarter(0xd34d5816, 0x676fc0e0, 0xb90aa1fd, 0x28876c46, Quad(0x920a8da3, 0x8b9d585f, 0xe85a4e1d, 0xba9f99e6));
    Quarter(0x62d9ba82, 0x3e732bf7, 0xb76f7e5e, 0xde7f8721, Quad(0xeeb348e4, 0x4cdba5a7, 0x03ffd520, 0xeb37d78f));
    Quarter(0xa5a0259d, 0x8be49e9f, 0xc2e5260a, 0x8a78a6ce, Quad(0x694e5f1f, 0xbaaff96a, 0xe2bcc511, 0xbce4e30b));
    Quarter(0x6fbe91ed, 0x8b9d585f, 0x03ffd520, 0xbce4e30b, Quad(0x9fa3f2b9, 0xda158c2a, 0xf1fc2375, 0xe4b50696));
    Quarter(0x920a8da3, 0x4cdba5a7, 0xe2bcc511, 0x90a12150, Quad(0xaa562eca, 0x2c2d4845, 0x4137a110, 0x4c608db8));
    Quarter(0xeeb348e4, 0xbaaff96a, 0xab7c5eaf, 0xba9f99e6, Quad(0x621f5626, 0x6b2f5e43, 0x3e6a4d64, 0xb745dab9));
    Quarter(0x694e5f1f, 0x0711b4a4, 0xe85a4e1d, 0xeb37d78f, Quad(0xe63d1e7e, 0xf88c16b5, 0x1e2c1296, 0x71852922));
  }

  lemma Double8()
    ensures DoubleRound(After(7)) == After(8)
  {
    hide QuarterRound;
    Quarter(0x9fa3f2b9, 0xf88c16b5, 0x3e6a4d64, 0x4c608db8, Quad(0x6ba01d2a, 0xbd478ff4, 0x3a0a9ca3, 0x76c97aef));
    Quarter(0xaa562eca, 0xda158c2a, 0x1e2c1296, 0xb745dab9, Quad(0x510aa53a, 0x48d9d985, 0xc60f59f5, 0x47961431));
    Quarter(0x621f5626, 0x2c2d4845, 0xf1fc2375, 0x71852922, Quad(0x450456c1, 0x2c4a3320, 0xf6ef2c30, 0x4da908f2));
    Quarter(0xe63d1e7e, 0x6b2f5e43, 0x4137a110, 0xe4b50696, Quad(0x51f729cb, 0x50e20f2e, 0x5c2b6914, 0xa09c122b));
    Quarter(0x6ba01d2a, 0x48d9d985, 0xf6ef2c30, 0xa09c122b, Quad(0x5e02ffe9, 0xeba27ae5, 0x625e4dcf, 0x86eb0cba));
    Quarter(0x510aa53a, 0x2c4a3320, 0x5c2b6914, 0x76c97aef, Quad(0x21cdf584, 0xd3c98f69, 0x77de8e34, 0x78fe1983));
    Quarter(0x450456c1, 0x50e20f2e, 0x3a0a9ca3, 0x47961431, Quad(0x4bea459f, 0x4140feab, 0xe0815e4d, 0x3497ef3a));
    Quarter(0x51f729cb, 0xbd478ff4, 0xc60f59f5, 0x4da908f2, Quad(0xc0764660, 0xab0fae01, 0xb26193fd, 0x3b04f771));
  }

  lemma Double9()
    ensures DoubleRound(After(8)) == After(9)
  {
    hide QuarterRound;
    Quarter(0x5e02ffe9, 0xab0fae01, 0xe0815e4d, 0x78fe1983, Quad(0x60f631e8, 0xe4ab79b1, 0x342ad50d, 0x9f4004d4));
    Quarter(0x21cdf584, 0xeba27ae5, 0xb26193fd, 0x3497ef3a, Quad(0x78e08c0a, 0x0d503537, 0x056abbcb, 0xb3b5ede7));
    Quarter(0x4bea459f, 0xd3c98f69, 0x625e4dcf, 0x3b04f771, Quad(0x0f92ca79, 0x8c5ae14f, 0x70c640b3, 0xebeece2d));
    Quarter(0xc0764660, 0x4140feab, 0x77de8e34, 0x86eb0cba, Quad(0x106afd18, 0xdcf0f249, 0x9d0a59e9, 0xdb7a4459));
    Quarter(0x60f631e8, 0x0d503537, 0x70c640b3, 0xdb7a4459, Quad(0x3a53f0b4, 0xaffbceb2, 0xa9527e08, 0x15458819));
    Quarter(0x78e08c0a, 0x8c5ae14f, 0x9d0a59e9, 0x9f4004d4, Quad(0xd68e2605, 0x8365c7ed, 0x0a547323, 0x03bc7ebf));
    Quarter(0x0f92ca79, 0xdcf0f249, 0x342ad50d, 0xb3b5ede7, Quad(0xf8e4625c, 0x769dbb25, 0x468d9eec, 0xc13d6aa9));
    Quarter(0x106afd18, 0xe4ab79b1, 0x056abbcb, 0xebeece2d, Quad(0x4f4d9c77, 0xf3278a1e, 0x67d16aba, 0xa9828ff7));
  }

  lemma Double10()
    ensures DoubleRound(After(9)) == After(10)
  {
    hide QuarterRound;
    Quarter(0x3a53f0b4, 0xf3278a1e, 0x468d9eec, 0x03bc7ebf, Quad(0x01f6566f, 0x04d71299, 0xe67375b8, 0x9b78a805));
    Quarter(0xd68e2605, 0xaffbceb2, 0x67d16aba, 0xc13d6aa9, Quad(0xce57bf58, 0x12aa0f84, 0x4fe89ebe, 0x49f8ec50));
    Quarter(0xf8e4625c, 0x8365c7ed, 0xa9527e08, 0xa9828ff7, Quad(0xc58e0710, 0x53f87b9b, 0x7fe42c30, 0x30d2d860));
    Quarter(0x4f4d9c77, 0x769dbb25, 0x0a547323, 0x15458819, Quad(0x457aa190, 0x6265cfcb, 0xe94b826b, 0xff713e9a));
    Quarter(0x01f6566f, 0x12aa0f84, 0x7fe42c30, 0xff713e9a, Quad(0x5618c291, 0x87824806, 0x4c77580e, 0x7129400d));
    Quarter(0xce57bf58, 0x53f87b9b, 0xe94b826b, 0x9b78a805, Quad(0xc650bdee, 0x23c18e43, 0x224701e7, 0xa604c654));
    Quarter(0xc58e0710, 0x6265cfcb, 0xe67375b8, 0x49f8ec50, Quad(0xdab45b04, 0x79bbc569, 0x6033f3a3, 0x3f350fe0));
    Quarter(0x457aa190, 0x04d71299, 0x4fe89ebe, 0x30d2d860, Quad(0x9b0f3fb7, 0x6562db29, 0x02774e38, 0x464534f7));
  }

  lemma {:induction false} RoundsAre(n: nat)
    requires n <= 10
    ensures Rounds(n, After(0)) == After(n)
  {
    hide DoubleRound, After;
    if n > 0 {
      RoundsAre(n - 1);
      if n == 1 { Double1(); }
      if n == 2 { Double2(); }
      if n == 3 { Double3(); }
      if n == 4 { Double4(); }
      if n == 5 { Double5(); }
      if n == 6 { Double6(); }
      if n == 7 { Double7(); }
      if n == 8 { Double8(); }
      if n == 9 { Double9(); }
      if n == 10 { Double10(); }
    }
  }

  function Sum(): State {
    State(Row(0xb7893af6, 0xf971225c, 0x54168836, 0x062fa52b),
          Row(0x172449ed, 0x002b3092, 0x0af8e8b5, 0xaf73a4e9),
          Row(0x8f215bc2, 0xfdf09a51, 0x2e3606d4, 0x7fde698d),
          Row(0xa604c654, 0x3f350fe0, 0x1b770f11, 0x92aba8dc))
  }

  lemma SumIs()
    ensures StatePlus(After(10), After(0)) == Sum()
  {
  }

  lemma SumRow1()
    ensures RowBytes(Row(0xb7893af6, 0xf971225c, 0x54168836, 0x062fa52b))
         == [0xf6, 0x3a, 0x89, 0xb7, 0x5c, 0x22, 0x71, 0xf9, 0x36, 0x88, 0x16, 0x54, 0x2b, 0xa5, 0x2f, 0x06]
  {
  }

  lemma SumRow2()
    ensures RowBytes(Row(0x172449ed, 0x002b3092, 0x0af8e8b5, 0xaf73a4e9))
         == [0xed, 0x49, 0x24, 0x17, 0x92, 0x30, 0x2b, 0x00, 0xb5, 0xe8, 0xf8, 0x0a, 0xe9, 0xa4, 0x73, 0xaf]
  {
  }

  lemma SumRow3()
    ensures RowBytes(Row(0x8f215bc2, 0xfdf09a51, 0x2e3606d4, 0x7fde698d))
         == [0xc2, 0x5b, 0x21, 0x8f, 0x51, 0x9a, 0xf0, 0xfd, 0xd4, 0x06, 0x36, 0x2e, 0x8d, 0x69, 0xde, 0x7f]
  {
  }

  lemma SumRow4()
    ensures RowBytes(Row(0xa604c654, 0x3f350fe0, 0x1b770f11, 0x92aba8dc))
         == [0x54, 0xc6, 0x04, 0xa6, 0xe0, 0x0f, 0x35, 0x3f, 0x11, 0x0f, 0x77, 0x1b, 0xdc, 0xa8, 0xab, 0x92]
  {
  }

  lemma SumBytes()
    ensures StateBytes(Sum())
         == [0xf6, 0x3a, 0x89, 0xb7, 0x5c, 0x22, 0x71, 0xf9, 0x36, 0x88, 0x16, 0x54, 0x2b, 0xa5, 0x2f, 0x06]
            + [0xed, 0x49, 0x24, 0x17, 0x92, 0x30, 0x2b, 0x00, 0xb5, 0xe8, 0xf8, 0x0a, 0xe9, 0xa4, 0x73, 0xaf]
            + [0xc2, 0x5b, 0x21, 0x8f, 0x51, 0x9a, 0xf0, 0xfd, 0xd4, 0x06, 0x36, 0x2e, 0x8d, 0x69, 0xde, 0x7f]
            + [0x54, 0xc6, 0x04, 0xa6, 0xe0, 0x0f, 0x35, 0x3f, 0x11, 0x0f, 0x77, 0x1b, 0xdc, 0xa8, 0xab, 0x92]
  {
    hide RowBytes;
    SumRow1();
    SumRow2();
    SumRow3();
    SumRow4();
  }

  lemma StartIs()
    ensures After(0) == State(Row(0x61707865, 0x3320646e, 0x79622d32, 0x6b206574),
                            Row(0xb1c16ec4, 0x78a8e88c, 0xe7375a72, 0x35b7df80),
                            Row(0x2eed681f, 0xfb794c19, 0xe1beaec6, 0x5d9767a6),
                            Row(0x00000000, 0x00000000, 0xd531da1a, 0x218268cf))
  {
  }

  /** The key c46ec1b1...a667975d and the nonce 1ada31d5cf688221, loaded with counter zero, make the key
      stream begin with this block. */
  lemma FirstBlock()
    ensures StateBytes(Block(State(Row(0x61707865, 0x3320646e, 0x79622d32, 0x6b206574),
                                   Row(0xb1c16ec4, 0x78a8e88c, 0xe7375a72, 0x35b7df80),
                                   Row(0x2eed681f, 0xfb794c19, 0xe1beaec6, 0x5d9767a6),
                                   Row(0x00000000, 0x00000000, 0xd531da1a, 0x218268cf))))
         == [0xf6, 0x3a, 0x89, 0xb7, 0x5c, 0x22, 0x71, 0xf9, 0x36, 0x88, 0x16, 0x54, 0x2b, 0xa5, 0x2f, 0x06]
            + [0xed, 0x49, 0x24, 0x17, 0x92, 0x30, 0x2b, 0x00, 0xb5, 0xe8, 0xf8, 0x0a, 0xe9, 0xa4, 0x73, 0xaf]
            + [0xc2, 0x5b, 0x21, 0x8f, 0x51, 0x9a, 0xf0, 0xfd, 0xd4, 0x06, 0x36, 0x2e, 0x8d, 0x69, 0xde, 0x7f]
            + [0x54, 0xc6, 0x04, 0xa6, 0xe0, 0x0f, 0x35, 0x3f, 0x11, 0x0f, 0x77, 0x1b, 0xdc, 0xa8, 0xab, 0x92]
  {
    StartIs();
    hide Rounds, StateBytes, Sum, StatePlus, After;
    RoundsAre(10);
    SumIs();
    SumBytes();
    assert Block(After(0)) == Sum();
  }
}
