/** What the definitions of RFC 3394 and RFC 5649 come to: a wrap of two words written out, and the input
    of a padded wrap. */
module KeyWrapForms {
  import opened Bytes
  import opened CipherBlock
  import opened Rfc3394

  /** The permutation that exchanges the two halves of a block. */
  function Exchange(): Cipher {
    Cipher(16, b => if |b| == 16 then b[8..] + b[..8] else b, b => if |b| == 16 then b[8..] + b[..8] else b)
  }

  lemma ExchangeValid()
    ensures Exchange().Valid()
  {
    var k := Exchange();
    forall b: seq<byte> | |b| == 16
      ensures |k.enc(b)| == 16 && k.dec(k.enc(b)) == b && |k.dec(b)| == 16 && k.enc(k.dec(b)) == b
    {
      assert (b[8..] + b[..8])[8..] + (b[8..] + b[..8])[..8] == b;
    }
  }

  /** A word that is a small number. */
  function Word(x: byte): (w: seq<byte>)
    ensures |w| == 8
  {
    ZeroBytes(7) + [x]
  }

  lemma WordNumber(t: nat)
    requires t < 256
    ensures ToBigEndian(t, 8) == Word(Octet(t))
  {
    hide Octet;
    NoNumber(7);
    assert t / 256 == 0 && t % 256 == t;
  }

  lemma {:induction false} NoNumber(n: nat)
    ensures ToBigEndian(0, n) == ZeroBytes(n)
  {
    if n > 0 {
      NoNumber(n - 1);
      NoOctet();
    }
  }

  lemma NoOctet()
    ensures Octet(0) == 0
  {
  }

  lemma WordXor(x: byte, y: byte)
    ensures Xor(Word(x), Word(y)) == Word(XorByte(x, y))
  {
    hide XorByte;
    XorByteLaws(0, 0, 0);
  }

  /** One step: the word whose turn it is takes the place of A, with t added, and A its place. */
  lemma ExchangeStep(a: byte, r1: byte, r2: byte, t: nat, n: byte)
    requires 0 < t <= 12 && n == Octet(t)
    ensures Exchange().Valid()
    ensures WrapStep(Exchange(), Word(a) + Word(r1) + Word(r2), t)
         == if t % 2 == 1 then Word(XorByte(r1, n)) + Word(a) + Word(r2) else Word(XorByte(r2, n)) + Word(r1) + Word(a)
  {
    hide Word, XorByte, Octet, WrapStep, Exchange;
    if t % 2 == 1 {
      OddStep(a, r1, r2, t, n);
    } else {
      EvenStep(a, r1, r2, t, n);
    }
  }

  lemma OddStep(a: byte, r1: byte, r2: byte, t: nat, n: byte)
    requires 0 < t <= 12 && t % 2 == 1 && n == Octet(t)
    ensures Exchange().Valid()
    ensures WrapStep(Exchange(), Word(a) + Word(r1) + Word(r2), t) == Word(XorByte(r1, n)) + Word(a) + Word(r2)
  {
    hide Word, XorByte, Xor, Octet, ToBigEndian;
    ExchangeValid();
    WordNumber(t);
    WordXor(r1, n);
    var w := Word(a) + Word(r1) + Word(r2);
    assert |w| / 8 - 1 == 2 && Target(t, 2) == 1;
    assert w[..8] + w[8..16] == Word(a) + Word(r1);
    Halves(Word(a), Word(r1));
  }

  lemma EvenStep(a: byte, r1: byte, r2: byte, t: nat, n: byte)
    requires 0 < t <= 12 && t % 2 == 0 && n == Octet(t)
    ensures Exchange().Valid()
    ensures WrapStep(Exchange(), Word(a) + Word(r1) + Word(r2), t) == Word(XorByte(r2, n)) + Word(r1) + Word(a)
  {
    hide Word, XorByte, Xor, Octet, ToBigEndian;
    ExchangeValid();
    WordNumber(t);
    WordXor(r2, n);
    var w := Word(a) + Word(r1) + Word(r2);
    assert |w| / 8 - 1 == 2 && Target(t, 2) == 2;
    assert w[..8] == Word(a) && w[16..24] == Word(r2);
    Halves(Word(a), Word(r2));
    SpliceEnds(Word(a), Word(r1), Word(r2), Word(XorByte(r2, n)), Word(a));
    hide Splice;
  }

  lemma SpliceEnds(a: seq<byte>, r1: seq<byte>, r2: seq<byte>, x: seq<byte>, y: seq<byte>)
    requires |a| == |r1| == |r2| == |x| == |y| == 8
    ensures Splice(Splice(a + r1 + r2, 0, x), 16, y) == x + r1 + y
  {
    assert Splice(a + r1 + r2, 0, x) == x + r1 + r2;
  }

  lemma Halves(a: seq<byte>, b: seq<byte>)
    requires |a| == |b| == 8
    ensures Exchange().enc(a + b) == b + a && (b + a)[..8] == b && (b + a)[8..] == a
  {
  }

  lemma Sums()
    ensures XorByte(0x20, 1) == 0x21 && XorByte(0x30, 2) == 0x32 && XorByte(0x10, 3) == 0x13 && XorByte(0x21, 4) == 0x25
    ensures XorByte(0x32, 5) == 0x37 && XorByte(0x13, 6) == 0x15 && XorByte(0x25, 7) == 0x22 && XorByte(0x37, 8) == 0x3f
    ensures XorByte(0x15, 9) == 0x1c && XorByte(0x22, 10) == 0x28 && XorByte(0x3f, 11) == 0x34 && XorByte(0x1c, 12) == 0x10
    ensures Octet(1) == 1 && Octet(2) == 2 && Octet(3) == 3 && Octet(4) == 4 && Octet(5) == 5 && Octet(6) == 6
    ensures Octet(7) == 7 && Octet(8) == 8 && Octet(9) == 9 && Octet(10) == 10 && Octet(11) == 11 && Octet(12) == 12
  {
  }

  lemma After4()
    ensures Exchange().Valid() && Exchange().bs == 16
    ensures WrapSteps(Exchange(), Word(0x10) + Word(0x20) + Word(0x30), 4) == Word(0x25) + Word(0x32) + Word(0x13)
  {
    hide Word, XorByte, Octet, WrapStep, Exchange;
    ExchangeValid();
    ExchangeSize();
    Sums();
    var k, w := Exchange(), Word(0x10) + Word(0x20) + Word(0x30);
    assert WrapSteps(k, w, 0) == w;
    ExchangeStep(0x10, 0x20, 0x30, 1, 1);
    assert WrapSteps(k, w, 1) == Word(0x21) + Word(0x10) + Word(0x30);
    ExchangeStep(0x21, 0x10, 0x30, 2, 2);
    assert WrapSteps(k, w, 2) == Word(0x32) + Word(0x10) + Word(0x21);
    ExchangeStep(0x32, 0x10, 0x21, 3, 3);
    assert WrapSteps(k, w, 3) == Word(0x13) + Word(0x32) + Word(0x21);
    ExchangeStep(0x13, 0x32, 0x21, 4, 4);
    assert WrapSteps(k, w, 4) == Word(0x25) + Word(0x32) + Word(0x13);
  }

  lemma After8()
    ensures Exchange().Valid() && Exchange().bs == 16
    ensures WrapSteps(Exchange(), Word(0x10) + Word(0x20) + Word(0x30), 8) == Word(0x3f) + Word(0x15) + Word(0x22)
  {
    hide Word, XorByte, Octet, WrapStep, Exchange;
    ExchangeValid();
    ExchangeSize();
    Sums();
    var k, w := Exchange(), Word(0x10) + Word(0x20) + Word(0x30);
    After4();
    ExchangeStep(0x25, 0x32, 0x13, 5, 5);
    assert WrapSteps(k, w, 5) == Word(0x37) + Word(0x25) + Word(0x13);
    ExchangeStep(0x37, 0x25, 0x13, 6, 6);
    assert WrapSteps(k, w, 6) == Word(0x15) + Word(0x25) + Word(0x37);
    ExchangeStep(0x15, 0x25, 0x37, 7, 7);
    assert WrapSteps(k, w, 7) == Word(0x22) + Word(0x15) + Word(0x37);
    ExchangeStep(0x22, 0x15, 0x37, 8, 8);
    assert WrapSteps(k, w, 8) == Word(0x3f) + Word(0x15) + Word(0x22);
  }

  lemma After12()
    ensures Exchange().Valid() && Exchange().bs == 16
    ensures WrapSteps(Exchange(), Word(0x10) + Word(0x20) + Word(0x30), 12) == Word(0x10) + Word(0x28) + Word(0x34)
  {
    hide Word, XorByte, Octet, WrapStep, Exchange;
    ExchangeValid();
    ExchangeSize();
    Sums();
    var k, w := Exchange(), Word(0x10) + Word(0x20) + Word(0x30);
    After8();
    ExchangeStep(0x3f, 0x15, 0x22, 9, 9);
    assert WrapSteps(k, w, 9) == Word(0x1c) + Word(0x3f) + Word(0x22);
    ExchangeStep(0x1c, 0x3f, 0x22, 10, 10);
    assert WrapSteps(k, w, 10) == Word(0x28) + Word(0x3f) + Word(0x1c);
    ExchangeStep(0x28, 0x3f, 0x1c, 11, 11);
    assert WrapSteps(k, w, 11) == Word(0x34) + Word(0x28) + Word(0x1c);
    ExchangeStep(0x34, 0x28, 0x1c, 12, 12);
    assert WrapSteps(k, w, 12) == Word(0x10) + Word(0x28) + Word(0x34);
  }

  /** Three words wrapped: six passes over the two of them that are not A, t counting up. */
  lemma WrapExample()
    ensures Exchange().Valid()
    ensures Wrap(Exchange(), Word(0x10) + Word(0x20) + Word(0x30)) == Word(0x10) + Word(0x28) + Word(0x34)
  {
    hide Word, WrapSteps, Exchange;
    After12();
  }

  lemma ExchangeSize()
    ensures Exchange().bs == 16
  {
  }

  /** RFC 5649: 32 bits of a constant, 32 bits of length, zeros up to a whole word. */
  lemma KwpInputExample()
    ensures Aiv(7) == [0xa6, 0x59, 0x59, 0xa6, 0x00, 0x00, 0x00, 0x07]
    ensures KwpInput([0x46, 0x6f, 0x72, 0x50, 0x61, 0x73, 0x69])
         == [0xa6, 0x59, 0x59, 0xa6, 0x00, 0x00, 0x00, 0x07] + [0x46, 0x6f, 0x72, 0x50, 0x61, 0x73, 0x69, 0x00]
  {
    hide Octet;
    NoNumber(3);
    assert ToBigEndian(7, 4) == ToBigEndian(0, 3) + [Octet(7)];
    SevenOctet();
    assert ZeroBytes(3) == [0, 0, 0] && ZeroBytes(1) == [0];
  }

  lemma SevenOctet()
    ensures Octet(7) == 7
  {
  }
}
