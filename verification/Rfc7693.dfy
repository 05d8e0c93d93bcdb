/** BLAKE2 as section 3.3 of RFC 7693 defines it, and the variable-length hash of section 3.3 of
    RFC 9106, over any compression function. */
module Rfc7693 {
  import opened Buffering
  import opened Bytes
  import opened CipherBlock

  /** BLAKE2b or BLAKE2s: its block size, its state for a digest and a key length, and its compression
      function on the state, a block, the two counter words and the first finalization word. */
  datatype Algo = Algo(bb: nat, start: (nat, nat) -> seq<nat>, compress: (seq<nat>, seq<byte>, nat, nat, nat) -> seq<nat>) {
    ghost predicate Valid() {
      && bb in {64, 128}
      && (forall n: nat, kk: nat {:trigger start(n, kk)} :: |start(n, kk)| == 8)
      && (forall h: seq<nat>, b: seq<byte>, t0: nat, t1: nat, f: nat {:trigger compress(h, b, t0, t1, f)} ::
            |compress(h, b, t0, t1, f)| == 8)
    }

    /** Octets of a word. */
    function WordBytes(): nat {
      if bb == 128 then 8 else 4
    }

    /** 2 to the word size. */
    function Modulus(): (w: nat)
      ensures w > 0
    {
      if bb == 128 then 0x1_0000_0000_0000_0000 else 0x1_0000_0000
    }

    /** The longest digest and the longest key. */
    function MaxOut(): nat {
      bb / 2
    }
  }

  /** A number in two words of modulus w, also a negative one. */
  function Words(w: nat, n: int): (nat, nat)
    requires w > 0
  {
    (n % w, n / w % w)
  }

  /** F(h, m, t, f) */
  function F(a: Algo, h: seq<nat>, b: seq<byte>, t: nat, last: bool): seq<nat> {
    var w := Words(a.Modulus(), t);
    a.compress(h, b, w.0, w.1, if last then a.Modulus() - 1 else 0)
  }

  /** The state after whole blocks, none of them the last; |pre| octets came before. */
  function Chain(a: Algo, h: seq<nat>, data: seq<byte>): seq<nat>
    requires a.bb > 0 && |data| % a.bb == 0
    decreases |data|
  {
    if data == [] then h
    else
      var m := AllButLast(a.bb, |data|);
      F(a, Chain(a, h, data[..m]), data[m..], |data|, false)
  }

  function PadTo(bb: nat, s: seq<byte>): (r: seq<byte>)
    requires |s| <= bb
    ensures |r| == bb
  {
    s + ZeroBytes(bb - |s|)
  }

  function LastBlock(a: Algo, data: seq<byte>): (b: seq<byte>)
    requires a.bb > 0
  {
    PadTo(a.bb, data[LastStart(a.bb, |data|)..])
  }

  /** The octets of the words, each least significant first. */
  function StateOctets(len: nat, h: seq<nat>): (s: seq<byte>)
    ensures |s| == len * |h|
  {
    if h == [] then []
    else
      WordTimes(len, |h| - 1);
      StateOctets(len, h[..|h| - 1]) + ToLittleEndian(h[|h| - 1], len)
  }

  lemma WordTimes(len: nat, n: nat)
    ensures len * n + len == len * (n + 1)
  {
  }

  /** The hash of data, which starts with the key block if there is a key of kk octets. */
  function Hash(a: Algo, n: nat, kk: nat, data: seq<byte>): (d: seq<byte>)
    requires a.Valid() && n <= a.MaxOut()
    ensures |d| == n
  {
    var m := LastStart(a.bb, |data|);
    var h := F(a, Chain(a, a.start(n, kk), data[..m]), LastBlock(a, data), |data|, true);
    StateOctets(a.WordBytes(), h)[..n]
  }

  /** What is hashed for a key: RFC 7693 puts a padded key block first, unless the key is empty. */
  function KeyBlock(a: Algo, key: seq<byte>): seq<byte>
    requires |key| <= a.bb
  {
    if key == [] then [] else PadTo(a.bb, key)
  }

  // ---- section 3.3 of RFC 9106 ----

  /** V_1 = H^64(LE32(T) || A), V_i = H^64(V_{i-1}) */
  function V(a: Algo, T: nat, input: seq<byte>, i: nat): (d: seq<byte>)
    requires a.Valid() && a.bb == 128 && i > 0
    ensures |d| == 64
  {
    if i == 1 then Hash(a, 64, 0, ToLittleEndian(T, 4) + input) else Hash(a, 64, 0, V(a, T, input, i - 1))
  }

  /** W_1 || ... || W_n, the first halves of V_1, ..., V_n. */
  function FirstHalves(a: Algo, T: nat, input: seq<byte>, n: nat): (d: seq<byte>)
    requires a.Valid() && a.bb == 128
    ensures |d| == 32 * n
  {
    if n == 0 then [] else FirstHalves(a, T, input, n - 1) + V(a, T, input, n)[..32]
  }

  /** r = ceil(T / 32) - 2 */
  function Rounds(T: nat): (r: nat)
    requires T > 64
    ensures r > 0 && 32 < T - 32 * r <= 64
  {
    (T + 31) / 32 - 2
  }

  function HPrime(a: Algo, T: nat, input: seq<byte>): (d: seq<byte>)
    requires a.Valid() && a.bb == 128
    ensures |d| == T
  {
    if T <= 64 then Hash(a, T, 0, ToLittleEndian(T, 4) + input)
    else
      var r := Rounds(T);
      FirstHalves(a, T, input, r) + Hash(a, T - 32 * r, 0, V(a, T, input, r))
  }

  // ---- what the definitions come to ----

  /** The number whose digits in base 256^len are the words of h, the least significant first. */
  function WordSum(len: nat, h: seq<nat>): nat {
    if h == [] then 0 else WordSum(len, h[..|h| - 1]) + Pow256(len * (|h| - 1)) * h[|h| - 1]
  }

  /** The octets of the state are that number, least significant octet first. */
  lemma {:induction false} StateNumber(len: nat, h: seq<nat>)
    requires forall i :: 0 <= i < |h| ==> h[i] < Pow256(len)
    ensures LittleEndian(StateOctets(len, h)) == WordSum(len, h)
  {
    hide LittleEndian, ToLittleEndian, Pow256;
    if h == [] {
      NoOctets();
    } else {
      var m := |h| - 1;
      StateNumber(len, h[..m]);
      LittleEndianConcat(StateOctets(len, h[..m]), ToLittleEndian(h[m], len));
      LittleEndianRoundTrip(h[m], len);
      DivModUnique(h[m], Pow256(len), 0, h[m]);
    }
  }

  lemma NoOctets()
    ensures LittleEndian([]) == 0
  {
  }

  /** A state is eight words, all of them output at most, and a word has as many values as its octets. */
  lemma AlgoSizes(a: Algo)
    requires a.Valid()
    ensures a.Modulus() == Pow256(a.WordBytes()) && a.MaxOut() == 8 * a.WordBytes() && a.bb == 16 * a.WordBytes()
    ensures a.MaxOut() == 64 || a.MaxOut() == 32
  {
    Pow256Values();
  }

  /** The two counter words hold the count. */
  lemma WordsMean(w: nat, n: nat)
    requires w > 0 && n < w * w
    ensures Words(w, n).0 < w && Words(w, n).1 < w && Words(w, n).0 + w * Words(w, n).1 == n
  {
    DivMod(n, w);
    var q := n / w;
    if q >= w {
      MulMono(w, w - 1, q);
      assert false;
    }
    DivModUnique(q, w, 0, q);
  }

  /** One block, also an empty one: padded, counted by its octets and marked as the last. */
  lemma OneBlockHash(a: Algo, n: nat, kk: nat, data: seq<byte>)
    requires a.Valid() && n <= a.MaxOut() && |data| <= a.bb
    ensures |StateOctets(a.WordBytes(), a.compress(a.start(n, kk), data + ZeroBytes(a.bb - |data|), |data|, 0, a.Modulus() - 1))| >= n
    ensures Hash(a, n, kk, data)
         == StateOctets(a.WordBytes(), a.compress(a.start(n, kk), data + ZeroBytes(a.bb - |data|), |data|, 0, a.Modulus() - 1))[..n]
  {
    hide StateOctets;
    LastStartIs(a.bb, |data|, 0);
    assert data[..0] == [] && data[0..] == data;
    SmallCount(a, |data|);
  }

  /** Two blocks: the first is counted whole and not marked. */
  lemma TwoBlockHash(a: Algo, n: nat, kk: nat, x: seq<byte>, y: seq<byte>)
    requires a.Valid() && n <= a.MaxOut() && |x| == a.bb && 0 < |y| <= a.bb
    ensures var h := a.compress(a.start(n, kk), x, a.bb, 0, 0);
            var s := StateOctets(a.WordBytes(), a.compress(h, y + ZeroBytes(a.bb - |y|), a.bb + |y|, 0, a.Modulus() - 1));
            |s| >= n && Hash(a, n, kk, x + y) == s[..n]
  {
    hide StateOctets;
    var data := x + y;
    LastStartIs(a.bb, |data|, a.bb);
    assert data[..a.bb] == x && data[a.bb..] == y;
    assert x[..0] == [] && x[0..] == x;
    assert Chain(a, a.start(n, kk), x) == F(a, a.start(n, kk), x, a.bb, false);
    SmallCount(a, a.bb);
    SmallCount(a, |data|);
    assert LastBlock(a, data) == y + ZeroBytes(a.bb - |y|);
  }

  lemma SmallCount(a: Algo, n: nat)
    requires a.Valid() && n <= 256
    ensures Words(a.Modulus(), n) == (n, 0)
  {
  }

  /** Up to 64 octets are one hash, up to 96 the first half of one and another. */
  lemma ShortOutputs(a: Algo, T: nat, input: seq<byte>)
    requires a.Valid() && a.bb == 128 && T <= 96
    ensures T <= 64 ==> HPrime(a, T, input) == Hash(a, T, 0, ToLittleEndian(T, 4) + input)
    ensures T > 64 ==> var v := Hash(a, 64, 0, ToLittleEndian(T, 4) + input);
                       HPrime(a, T, input) == v[..32] + Hash(a, T - 32, 0, v)
  {
    hide Hash, ToLittleEndian;
    if T > 64 {
      assert Rounds(T) == 1;
      assert FirstHalves(a, T, input, 0) == [];
    }
  }
}
