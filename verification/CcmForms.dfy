/** What the definitions of RFC 3610 come to: the fields of the first block, the encodings of the length
    of the associated data, and short packets written out. */
module CcmForms {
  import opened Bytes
  import opened CbcMac
  import opened CipherBlock
  import opened Rfc3610

  /** The fields of the flags octet (section 2.2). */
  lemma FlagsFields(adata: bool, m: nat, l: nat)
    requires TagOk(m) && 2 <= l <= 8
    ensures var f := Val(Flags(adata, m, l));
            f % 8 == l - 1 && f / 8 % 8 == (m - 2) / 2 && f / 64 == if adata then 1 else 0
  {
    hide Val, Octet;
    var n := (if adata then 64 else 0) + (m - 2) / 2 * 8 + (l - 1);
    ValOctet(n);
  }

  lemma TwoOctets(n: nat)
    requires n < 0x1_0000
    ensures ToBigEndian(n, 2) == [Octet(n / 256), Octet(n % 256)]
  {
    hide Octet;
    assert ToBigEndian(n / 256 / 256, 0) == [];
    assert ToBigEndian(n / 256, 1) == [] + [Octet(n / 256 % 256)];
  }

  lemma SmallOctets()
    ensures Octet(0) == 0 && Octet(1) == 1 && Octet(8) == 8 && Octet(0x17) == 0x17 && Octet(0x59) == 0x59 && Octet(0x19) == 0x19
    ensures Octet(0xff) == 0xff && Octet(0xfe) == 0xfe
  {
  }

  function VectorNonce(): (n: seq<byte>)
    ensures |n| == 13
  {
    [0x00, 0x00, 0x00, 0x03, 0x02, 0x01, 0x00, 0xa0, 0xa1, 0xa2, 0xa3, 0xa4, 0xa5]
  }

  /** Packet vector #1 of section 8: tag length 8, 23 octets of message, eight of associated data. */
  lemma FirstVector()
    ensures B0(VectorNonce(), 8, true, 23) == [0x59] + VectorNonce() + [0x00, 0x17]
    ensures CounterBlock(VectorNonce(), 1) == [0x01] + VectorNonce() + [0x00, 0x01]
    ensures AadPrefix(8) == [0x00, 0x08]
  {
    hide Octet, VectorNonce, ToBigEndian;
    TwoOctets(23);
    TwoOctets(1);
    TwoOctets(8);
    SmallOctets();
    assert Flags(true, 8, 2) == Octet(0x59);
  }

  /** Where the encodings of the length change. */
  lemma PrefixEdges()
    ensures AadPrefix(0) == []
    ensures AadPrefix(0xfeff) == [0xfe, 0xff]
    ensures AadPrefix(0xff00) == [0xff, 0xfe, 0x00, 0x00, 0xff, 0x00]
    ensures AadPrefix(0x1_0000_0000) == [0xff, 0xff, 0x00, 0x00, 0x00, 0x01, 0x00, 0x00, 0x00, 0x00]
  {
    hide Octet;
    SmallOctets();
    TwoOctets(0xfeff);
    assert ToBigEndian(0xff00, 4) == ToBigEndian(0, 2) + [Octet(0xff), Octet(0)] by {
      FourOctets(0xff00);
    }
    TwoOctets(0);
    EightOctets();
  }

  lemma FourOctets(n: nat)
    ensures ToBigEndian(n, 4) == ToBigEndian(n / 256 / 256, 2) + [Octet(n / 256 % 256), Octet(n % 256)]
  {
    hide Octet;
    assert ToBigEndian(n / 256, 3) == ToBigEndian(n / 256 / 256, 2) + [Octet(n / 256 % 256)];
  }

  lemma EightOctets()
    ensures ToBigEndian(0x1_0000_0000, 8) == [0x00, 0x00, 0x00, 0x01, 0x00, 0x00, 0x00, 0x00]
  {
    hide Octet;
    SmallOctets();
    assert ToBigEndian(1, 4) == ToBigEndian(0, 2) + [Octet(0), Octet(1)] by {
      FourOctets(1);
    }
    TwoOctets(0);
    assert ToBigEndian(0x100, 5) == ToBigEndian(1, 4) + [Octet(0)];
    assert ToBigEndian(0x1_0000, 6) == ToBigEndian(0x100, 5) + [Octet(0)];
    assert ToBigEndian(0x100_0000, 7) == ToBigEndian(0x1_0000, 6) + [Octet(0)];
  }

  lemma ChainOne(k: Cipher, x: Block)
    requires k.Valid() && k.bs == 16
    ensures Chain(k, x) == k.enc(x)
  {
    assert x[..0] == [] && x[0..] == x;
    assert Chain(k, []) == ZeroBytes(16);
    XorZero(x);
  }

  lemma ChainNext(k: Cipher, data: seq<byte>, x: Block)
    requires k.Valid() && k.bs == 16 && |data| % 16 == 0
    ensures Chain(k, data + x) == k.enc(Xor(Chain(k, data), x))
  {
    assert (data + x)[..|data|] == data && (data + x)[|data|..] == x;
  }

  lemma PadIs(x: seq<byte>, n: nat)
    requires n < 16 && (|x| + n) % 16 == 0
    ensures PadZero(x) == x + ZeroBytes(n)
  {
  }

  lemma InputIs(nonce: seq<byte>, m: nat, a: seq<byte>, msg: seq<byte>)
    requires NonceOk(nonce) && TagOk(m) && 0 < |a| <= 14
    ensures MacInput(nonce, m, a, msg) == PadZero(B0(nonce, m, true, |msg|) + ToBigEndian(|a|, 2) + a) + PadZero(msg)
  {
    hide B0, ToBigEndian, PadZero;
  }

  lemma ShortInput(nonce: seq<byte>, m: nat, a: seq<byte>, msg: seq<byte>, b0: Block, b1: Block, b2: Block)
    requires NonceOk(nonce) && TagOk(m) && 0 < |a| <= 14 && 0 < |msg| <= 16
    requires b0 == B0(nonce, m, true, |msg|) && b1 == ToBigEndian(|a|, 2) + a + ZeroBytes(14 - |a|)
    requires b2 == msg + ZeroBytes(16 - |msg|)
    ensures MacInput(nonce, m, a, msg) == b0 + b1 + b2
  {
    hide *;
    InputIs(nonce, m, a, msg);
    PadAad(b0, ToBigEndian(|a|, 2), a);
    PadIs(msg, 16 - |msg|);
  }

  lemma PadAad(b0: seq<byte>, n: seq<byte>, a: seq<byte>)
    requires |b0| == 16 && |n| == 2 && |a| <= 14
    ensures PadZero(b0 + n + a) == b0 + (n + a + ZeroBytes(14 - |a|))
  {
    hide *;
    PadIs(b0 + n + a, 14 - |a|);
    Regrouped(b0, n, a, ZeroBytes(14 - |a|));
  }

  lemma Regrouped(x: seq<byte>, y: seq<byte>, z: seq<byte>, w: seq<byte>)
    ensures x + y + z + w == x + (y + z + w)
  {
  }

  /** A packet whose associated data fits one block with its length, and whose message fits another:
      three blocks, padded with zeros, and the tag under S_0. */
  lemma ShortPacket(k: Cipher, nonce: seq<byte>, m: nat, a: seq<byte>, msg: seq<byte>, b1: Block, b2: Block)
    requires k.Valid() && k.bs == 16 && NonceOk(nonce) && TagOk(m) && 0 < |a| <= 14 && 0 < |msg| <= 16
    requires b1 == ToBigEndian(|a|, 2) + a + ZeroBytes(14 - |a|) && b2 == msg + ZeroBytes(16 - |msg|)
    ensures AuthValue(k, nonce, m, a, msg)
         == Xor(k.enc(Xor(k.enc(Xor(k.enc(B0(nonce, m, true, |msg|)), b1)), b2)), k.enc(CounterBlock(nonce, 0)))[..m]
  {
    hide Xor, B0, ToBigEndian, CounterBlock, MacInput, Chain;
    var b0 := B0(nonce, m, true, |msg|);
    ShortInput(nonce, m, a, msg, b0, b1, b2);
    ChainThree(k, b0, b1, b2);
  }

  lemma ChainThree(k: Cipher, b0: Block, b1: Block, b2: Block)
    requires k.Valid() && k.bs == 16
    ensures Chain(k, b0 + b1 + b2) == k.enc(Xor(k.enc(Xor(k.enc(b0), b1)), b2))
  {
    hide Xor, Chain;
    ChainOne(k, b0);
    ChainNext(k, b0, b1);
    ChainNext(k, b0 + b1, b2);
  }

  lemma EmptyInput(nonce: seq<byte>)
    requires |nonce| == 13
    ensures MacInput(nonce, 8, [], []) == [0x19] + nonce + [0, 0] && CounterBlock(nonce, 0) == [0x01] + nonce + [0, 0]
  {
    hide Octet, ToBigEndian, PadZero;
    SmallOctets();
    TwoOctets(0);
    assert Flags(false, 8, 2) == Octet(0x19);
    var b0 := B0(nonce, 8, false, 0);
    PadIs(b0, 0);
    PadIs([], 0);
    assert Header(nonce, 8, 0, 0) + [] == b0;
    assert b0 + ZeroBytes(0) + ([] + ZeroBytes(0)) == b0;
  }

  /** The tag of nothing, when enciphering changes nothing: what is left of the two flags octets. */
  lemma EmptyPacket(nonce: seq<byte>)
    requires |nonce| == 13
    ensures Identity(16).Valid() && AuthValue(Identity(16), nonce, 8, [], []) == [0x18] + ZeroBytes(7)
  {
    IdentityValid(16);
    hide Xor, MacInput, CounterBlock, Chain;
    var b0: Block, a0 := [0x19] + nonce + [0, 0], CounterBlock(nonce, 0);
    EmptyInput(nonce);
    ChainOne(Identity(16), b0);
    FirstOctetLeft(nonce);
    assert Identity(16).enc(b0) == b0 && Identity(16).enc(a0) == a0;
  }

  lemma FirstOctetLeft(nonce: seq<byte>)
    requires |nonce| == 13
    ensures Xor([0x19] + nonce + [0, 0], [0x01] + nonce + [0, 0])[..8] == [0x18] + ZeroBytes(7)
  {
    hide XorByte;
    var b0, a0 := [0x19] + nonce + [0, 0], [0x01] + nonce + [0, 0];
    FlagsLeft();
    forall i | 0 <= i < 8
      ensures Xor(b0, a0)[i] == ([0x18] + ZeroBytes(7))[i]
    {
      XorByteLaws(b0[i], b0[i], 0);
    }
  }

  lemma FlagsLeft()
    ensures XorByte(0x19, 0x01) == 0x18
  {
  }
}
