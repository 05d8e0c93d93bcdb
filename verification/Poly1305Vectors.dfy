/** The example of section 2.5.2 of RFC 8439. */
module Poly1305Vectors {
  import opened Bytes
  import opened Poly1305
  import B = Buffering
  import R = Rfc8452
  import W = ChaChaVectors

  lemma SixteenOctets(s: seq<byte>, a: nat, b: nat, c: nat, d: nat)
    requires |s| == 16
    requires LittleEndian([s[0], s[1], s[2], s[3]]) == a && LittleEndian([s[4], s[5], s[6], s[7]]) == b
    requires LittleEndian([s[8], s[9], s[10], s[11]]) == c && LittleEndian([s[12], s[13], s[14], s[15]]) == d
    ensures LittleEndian(s) == a + 0x1_0000_0000 * b + 0x1_0000_0000_0000_0000 * c + 0x1_0000_0000_0000_0000_0000_0000 * d
  {
    hide LittleEndian;
    var s1, s2, s3, s4 := [s[0], s[1], s[2], s[3]], [s[4], s[5], s[6], s[7]], [s[8], s[9], s[10], s[11]], [s[12], s[13], s[14], s[15]];
    assert s == s1 + (s2 + (s3 + s4));
    Pow256Values();
    LittleEndianConcat(s1, s2 + (s3 + s4));
    LittleEndianConcat(s2, s3 + s4);
    LittleEndianConcat(s3, s4);
  }

  // ---- the message: Cryptographic Forum Research Group ----

  function First(): seq<byte> {
    [0x43, 0x72, 0x79, 0x70, 0x74, 0x6f, 0x67, 0x72, 0x61, 0x70, 0x68, 0x69, 0x63, 0x20, 0x46, 0x6f]
  }

  function Second(): seq<byte> {
    [0x72, 0x75, 0x6d, 0x20, 0x52, 0x65, 0x73, 0x65, 0x61, 0x72, 0x63, 0x68, 0x20, 0x47, 0x72, 0x6f]
  }

  function Third(): seq<byte> {
    [0x75, 0x70]
  }

  const KEY_R: nat := 0x806d5400e52447c036d555408bed685
  const KEY_S: nat := 0x1bf54941aff6bf4afdb20dfb8a800301

  lemma FirstNumber()
    ensures LittleEndian([0x43, 0x72, 0x79, 0x70, 0x74, 0x6f, 0x67, 0x72, 0x61, 0x70, 0x68, 0x69, 0x63, 0x20, 0x46, 0x6f]) == 0x6f4620636968706172676f7470797243
  {
    var s := [0x43, 0x72, 0x79, 0x70, 0x74, 0x6f, 0x67, 0x72, 0x61, 0x70, 0x68, 0x69, 0x63, 0x20, 0x46, 0x6f];
    hide LittleEndian;
    W.FourOctets(0x43, 0x72, 0x79, 0x70);
    W.FourOctets(0x74, 0x6f, 0x67, 0x72);
    W.FourOctets(0x61, 0x70, 0x68, 0x69);
    W.FourOctets(0x63, 0x20, 0x46, 0x6f);
    SixteenOctets(s, 0x70797243, 0x72676f74, 0x69687061, 0x6f462063);
  }

  lemma SecondNumber()
    ensures LittleEndian([0x72, 0x75, 0x6d, 0x20, 0x52, 0x65, 0x73, 0x65, 0x61, 0x72, 0x63, 0x68, 0x20, 0x47, 0x72, 0x6f]) == 0x6f7247206863726165736552206d7572
  {
    var s := [0x72, 0x75, 0x6d, 0x20, 0x52, 0x65, 0x73, 0x65, 0x61, 0x72, 0x63, 0x68, 0x20, 0x47, 0x72, 0x6f];
    hide LittleEndian;
    W.FourOctets(0x72, 0x75, 0x6d, 0x20);
    W.FourOctets(0x52, 0x65, 0x73, 0x65);
    W.FourOctets(0x61, 0x72, 0x63, 0x68);
    W.FourOctets(0x20, 0x47, 0x72, 0x6f);
    SixteenOctets(s, 0x206d7572, 0x65736552, 0x68637261, 0x6f724720);
  }

  lemma TagNumber()
    ensures LittleEndian([0xa8, 0x06, 0x1d, 0xc1, 0x30, 0x51, 0x36, 0xc6, 0xc2, 0x2b, 0x8b, 0xaf, 0x0c, 0x01, 0x27, 0xa9]) == 0xa927010caf8b2bc2c6365130c11d06a8
  {
    var s := [0xa8, 0x06, 0x1d, 0xc1, 0x30, 0x51, 0x36, 0xc6, 0xc2, 0x2b, 0x8b, 0xaf, 0x0c, 0x01, 0x27, 0xa9];
    hide LittleEndian;
    W.FourOctets(0xa8, 0x06, 0x1d, 0xc1);
    W.FourOctets(0x30, 0x51, 0x36, 0xc6);
    W.FourOctets(0xc2, 0x2b, 0x8b, 0xaf);
    W.FourOctets(0x0c, 0x01, 0x27, 0xa9);
    SixteenOctets(s, 0xc11d06a8, 0xc6365130, 0xaf8b2bc2, 0xa927010c);
  }

  lemma Nums()
    ensures Num(First()) == 0x16f4620636968706172676f7470797243
    ensures Num(Second()) == 0x16f7247206863726165736552206d7572
    ensures Num(Third()) == 0x17075
  {
    FirstNumber();
    SecondNumber();
    ThirdNumber();
    Pow256Values();
    hide LittleEndian;
    assert Pow256(2) == 256 * Pow256(1);
  }

  lemma ThirdNumber()
    ensures LittleEndian(Third()) == 0x7075
  {
    assert Third()[1..] == [0x70] && Third()[1..][1..] == [];
    assert LittleEndian(Third()[1..]) == 0x70;
  }

  lemma AccNext(a: seq<byte>, b: seq<byte>, x: nat, n: nat)
    requires |a| % 16 == 0 && 0 < |b| <= 16 && Acc(KEY_R, a) == x && Num(b) == n
    ensures Acc(KEY_R, a + b) == Residue((x + n) * KEY_R)
  {
    hide Residue, Num;
    B.LastStartIs(16, |a + b|, |a|);
    assert (a + b)[..|a|] == a && (a + b)[|a|..] == b;
  }

  lemma Nothing()
    ensures Acc(KEY_R, []) == 0
  {
  }

  lemma Residues()
    ensures Residue(0x16f4620636968706172676f7470797243 * KEY_R) == 0x2c88c77849d64ae9147ddeb88e69c83fc
    ensures Residue((0x2c88c77849d64ae9147ddeb88e69c83fc + 0x16f7247206863726165736552206d7572) * KEY_R) == 0x2d8adaf23b0337fa7cccfb4ea344b30de
    ensures Residue((0x2d8adaf23b0337fa7cccfb4ea344b30de + 0x17075) * KEY_R) == 0x28d31b7caff946c77c8844335369d03a7
  {
  }

  lemma Accs()
    ensures Acc(KEY_R, First()) == 0x2c88c77849d64ae9147ddeb88e69c83fc
    ensures Acc(KEY_R, First() + Second()) == 0x2d8adaf23b0337fa7cccfb4ea344b30de
    ensures Acc(KEY_R, First() + Second() + Third()) == 0x28d31b7caff946c77c8844335369d03a7
  {
    Nums();
    Residues();
    hide Acc, Num, Residue;
    assert Acc(KEY_R, []) == 0 by {
      Nothing();
    }
    hide First, Second, Third;
    assert [] + First() == First();
    AccNext([], First(), 0, Num(First()));
    AccNext(First(), Second(), 0x2c88c77849d64ae9147ddeb88e69c83fc, Num(Second()));
    AccNext(First() + Second(), Third(), 0x2d8adaf23b0337fa7cccfb4ea344b30de, Num(Third()));
  }

  /** The tag of that message under the clamped key and s. */
  lemma TagVector()
    ensures Tag(KEY_R, KEY_S, First() + Second() + Third())
         == [0xa8, 0x06, 0x1d, 0xc1, 0x30, 0x51, 0x36, 0xc6, 0xc2, 0x2b, 0x8b, 0xaf, 0x0c, 0x01, 0x27, 0xa9]
  {
    hide Acc, First, Second, Third, LittleEndian, ToLittleEndian;
    Accs();
    TagNumber();
    R.ToLittleEndianOf([0xa8, 0x06, 0x1d, 0xc1, 0x30, 0x51, 0x36, 0xc6, 0xc2, 0x2b, 0x8b, 0xaf, 0x0c, 0x01, 0x27, 0xa9]);
  }
}
