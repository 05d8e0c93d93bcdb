/** blake2.c: BLAKE2 with its buffer and two-word counter, and the variable-length hash on top. */
module Blake2 {
  import opened Buffering
  import opened Bytes
  import opened CipherBlock
  import opened Rfc7693

  datatype Status = Ok | InvArg | InvKeylen

  datatype Option<T> = None | Some(value: T)

  // ---- the counter ----

  /** increment_counter: the signed step is cast to a word, and the carry found by comparison. */
  function IncrementCounter(w: nat, t: (nat, nat), inc: int): (nat, nat)
    requires w > 0 && 0 <= inc + w && inc < w
  {
    var u := if inc < 0 then inc + w else inc;
    var t0 := (t.0 + u) % w;
    (t0, (t.1 + (if t0 < u then 1 else 0) - (if inc < 0 then 1 else 0)) % w)
  }

  /** The two words count, up and down. */
  lemma CounterCounts(a: Algo, n: int, inc: int)
    requires -128 <= inc <= 128
    ensures IncrementCounter(a.Modulus(), Words(a.Modulus(), n), inc) == Words(a.Modulus(), n + inc)
  {
    if a.bb == 128 {
      Counts64(n, inc);
    } else {
      Counts32(n, inc);
    }
  }

  lemma Counts64(n: int, inc: int)
    requires -128 <= inc <= 128
    ensures IncrementCounter(0x1_0000_0000_0000_0000, Words(0x1_0000_0000_0000_0000, n), inc)
         == Words(0x1_0000_0000_0000_0000, n + inc)
  {
    var w := 0x1_0000_0000_0000_0000;
    var q, r := n / w, n % w;
    var d := if r + inc < 0 then -1 else if r + inc >= w then 1 else 0;
    assert (n + inc) / w == q + d && (n + inc) % w == r + inc - w * d;
    var u := if inc < 0 then inc + w else inc;
    assert (r + u) % w == r + inc - w * d;
    assert (q % w + d) % w == (q + d) % w;
  }

  lemma Counts32(n: int, inc: int)
    requires -128 <= inc <= 128
    ensures IncrementCounter(0x1_0000_0000, Words(0x1_0000_0000, n), inc) == Words(0x1_0000_0000, n + inc)
  {
    var w := 0x1_0000_0000;
    var q, r := n / w, n % w;
    var d := if r + inc < 0 then -1 else if r + inc >= w then 1 else 0;
    assert (n + inc) / w == q + d && (n + inc) % w == r + inc - w * d;
    var u := if inc < 0 then inc + w else inc;
    assert (r + u) % w == r + inc - w * d;
    assert (q % w + d) % w == (q + d) % w;
  }

  // ---- the context ----

  class Context {
    const algo: Algo
    const outlen: nat
    const keylen: nat
    const buf: array<byte>
    var h: seq<nat>
    var t: (nat, nat)
    var f0: nat
    var buflen: nat
    ghost var data: seq<byte>   // everything written so far

    /** Ready for more data: once there is any, 1 to bb octets of it stay in the buffer. */
    ghost predicate Open()
      reads this, buf
      ensures Open() ==> algo.Valid() && buf.Length == algo.bb && buflen <= algo.bb
    {
      && Fixed() && f0 == 0
      && var m := LastStart(algo.bb, |data|);
      buflen == |data| - m && Chained(data[..m]) && buf[..buflen] == data[m..]
    }

    ghost predicate Fixed() {
      algo.Valid() && 0 < outlen <= algo.MaxOut() && keylen <= algo.MaxOut() && buf.Length == algo.bb
    }

    /** State and counter after whole blocks. */
    ghost predicate Chained(full: seq<byte>)
      reads this`h, this`t
      requires algo.Valid()
    {
      && |full| % algo.bb == 0 && t == Words(algo.Modulus(), |full|)
      && h == Chain(algo, algo.start(outlen, keylen), full)
    }

    /** After final, the digest is at the start of the buffer and zeros fill the rest. */
    ghost predicate Done()
      reads this, buf
    {
      Fixed() && f0 != 0 && buf[..] == PadTo(algo.bb, Hash(algo, outlen, keylen, data))
    }

    /** The context with its parameters, before a key is hashed. */
    constructor (algo: Algo, outlen: nat, keylen: nat)
      requires algo.Valid() && 0 < outlen <= algo.MaxOut() && keylen <= algo.MaxOut()
      ensures Open() && data == [] && fresh(buf) && this.algo == algo && this.outlen == outlen && this.keylen == keylen
    {
      this.algo, this.outlen, this.keylen := algo, outlen, keylen;
      buf := new byte[algo.bb](_ => 0);
      h, t, f0, buflen, data := algo.start(outlen, keylen), (0, 0), 0, 0, [];
      NoCount(algo);
    }

    /** transform on one block: the counter first, then the compression function. */
    method Transform(b: seq<byte>)
      requires algo.Valid()
      modifies this`h, this`t
      ensures t == IncrementCounter(algo.Modulus(), old(t), algo.bb)
      ensures h == algo.compress(old(h), b, t.0, t.1, f0)
    {
      t := IncrementCounter(algo.Modulus(), t, algo.bb);
      h := algo.compress(h, b, t.0, t.1, f0);
    }

    method TransformBlock(b: seq<byte>, ghost full: seq<byte>)
      requires algo.Valid() && f0 == 0 && |b| == algo.bb && Chained(full)
      modifies this`h, this`t
      ensures |full + b| % algo.bb == 0 && Chained(full + b)
    {
      hide IncrementCounter, Words;
      CounterCounts(algo, |full|, algo.bb);
      NextChain(algo, algo.start(outlen, keylen), full, b);
      Transform(b);
    }

    /** transform on nblks blocks of the input. */
    method TransformBlocks(input: seq<byte>, start: nat, nblks: nat, ghost full: seq<byte>) returns (pos: nat)
      requires algo.Valid() && f0 == 0 && Chained(full) && start + algo.bb * nblks <= |input|
      modifies this`h, this`t
      ensures pos == start + algo.bb * nblks
      ensures Chained(full + input[start..pos])
    {
      hide Chained;
      pos := start;
      assert full + input[start..start] == full;
      var i := 0;
      while i < nblks
        invariant 0 <= i <= nblks && pos == start + algo.bb * i && pos <= |input|
        invariant Chained(full + input[start..pos])
      {
        NextBlock(algo.bb, i, nblks);
        var b := input[pos..pos + algo.bb];
        TransformBlock(b, full + input[start..pos]);
        SliceMore(input, start, pos, pos + algo.bb);
        ConcatAssociates(full, input[start..pos], b);
        pos := pos + algo.bb;
        i := i + 1;
      }
    }

    method CopyIn(s: seq<byte>, pos: nat, left: nat, n: nat)
      requires left + n <= buf.Length && pos + n <= |s|
      modifies buf
      ensures buf[..left + n] == old(buf[..left]) + s[pos..pos + n]
    {
      ghost var before := buf[..];
      Put(buf, left, s[pos..pos + n]);
      assert buf[..left + n] == buf[..][..left + n] && before[..left] == old(buf[..left]);
    }

    /** More than fits: the filled buffer and all blocks of the input that are not the last. */
    method Flush(input: seq<byte>) returns (pos: nat)
      requires Open() && |input| > algo.bb - buflen
      modifies this`h, this`t, buf
      ensures pos < |input| <= pos + algo.bb
      ensures Chained(data + input[..pos])
    {
      hide Chained, LastStart;
      ghost var was, m := data, LastStart(algo.bb, |data|);
      assert was == was[..m] + was[m..];
      var left := buflen;
      var fill := algo.bb - left;
      assert buf[..left] == was[m..];
      if fill > 0 {
        CopyIn(input, 0, left, fill);
      }
      assert input[0..fill] == input[..fill];
      assert buf[..] == buf[..left + fill] == was[m..] + input[..fill];
      ConcatAssociates(was[..m], was[m..], input[..fill]);
      TransformBlock(buf[..], was[..m]);
      pos := fill;
      var inlen := |input| - fill;
      var nblks := inlen / algo.bb - if inlen % algo.bb == 0 then 1 else 0;
      BlocksBefore(algo.bb, inlen);
      if nblks > 0 {
        pos := TransformBlocks(input, pos, nblks, was + input[..fill]);
        ConcatAssociates(was, input[..fill], input[fill..pos]);
        assert input[..fill] + input[fill..pos] == input[..pos];
      } else {
        assert algo.bb * nblks == 0;
      }
    }

    lemma ChainedWhole(full: seq<byte>)
      requires algo.Valid() && Chained(full)
      ensures |full| % algo.bb == 0
    {
    }

    /** blake2_write */
    method Write(input: seq<byte>)
      requires Open()
      modifies this`h, this`t, this`buflen, this`data, buf
      ensures Open() && data == old(data) + input
    {
      hide Chained, LastStart;
      if |input| > 0 {
        ghost var was, m := data, LastStart(algo.bb, |data|);
        var pos, left := 0, buflen;
        if |input| > algo.bb - left {
          pos := Flush(input);
          left := 0;
          ChainedWhole(was + input[..pos]);
        }
        var n := |input| - pos;
        assert n > 0;  // the buffer never takes in nothing
        ghost var start := |was| + pos - left;
        Kept(was, input, m, start, pos, left);
        CopyIn(input, pos, left, n);
        assert input[pos..pos + n] == input[pos..];
        buflen := left + n;
        LastStartIs(algo.bb, |was + input|, start);
      } else {
        assert data + input == data;
      }
      data := data + input;
    }

    /** final: the padded last block with its own count, and the digest in the buffer.  A second call
        does nothing. */
    method Final()
      requires Open() || Done()
      modifies this`h, this`t, this`f0, buf
      ensures Done()
    {
      hide IncrementCounter, Words, StateOctets;
      if f0 != 0 {
        return;
      }
      ghost var m := LastStart(algo.bb, |data|);
      if buflen < algo.bb {
        Put(buf, buflen, ZeroBytes(algo.bb - buflen));
      }
      assert buf[..] == LastBlock(algo, data);
      f0 := algo.Modulus() - 1;
      CounterCounts(algo, m, buflen - algo.bb);
      CounterCounts(algo, |data| - algo.bb, algo.bb);
      t := IncrementCounter(algo.Modulus(), t, buflen - algo.bb);
      Transform(buf[..]);
      assert h == F(algo, Chain(algo, algo.start(outlen, keylen), data[..m]), LastBlock(algo, data), |data|, true);
      Output();
    }

    /** The words of the state go to the buffer, and what is not digest is zeroed. */
    method Output()
      requires Fixed() && |h| == 8
      modifies buf
      ensures |StateOctets(algo.WordBytes(), h)| == algo.MaxOut()
      ensures buf[..] == PadTo(algo.bb, StateOctets(algo.WordBytes(), h)[..outlen])
    {
      hide ToLittleEndian;
      var len := algo.WordBytes();
      var i := 0;
      assert h[..0] == [];
      while i < 8
        invariant 0 <= i <= 8 && buf[..len * i] == StateOctets(len, h[..i])
      {
        ghost var before := buf[..];
        Put(buf, len * i, ToLittleEndian(h[i], len));
        assert h[..i + 1][..i] == h[..i];
        assert buf[..len * i + len] == buf[..][..len * i + len] && before[..len * i] == StateOctets(len, h[..i]);
        i := i + 1;
      }
      assert h[..8] == h;
      ghost var full := StateOctets(len, h);
      assert buf[..outlen] == full[..outlen];
      ghost var before := buf[..];
      Put(buf, outlen, ZeroBytes(algo.bb - outlen));
      assert before[..outlen] == full[..outlen];
    }
  }

  /** init_ctx: dbits is the digest length in bits. */
  method InitCtx(algo: Algo, key: Option<seq<byte>>, keylen: nat, dbits: nat) returns (st: Status, c: Context?)
    requires algo.Valid() && (key.Some? ==> |key.value| == keylen)
    ensures st == if dbits / 8 == 0 || dbits / 8 > algo.MaxOut() then InvArg
                  else if keylen > 0 && (key == None || keylen > algo.MaxOut()) then InvKeylen else Ok
    ensures st == Ok ==> c != null && fresh(c) && fresh(c.buf) && c.Open() && c.algo == algo && c.outlen == dbits / 8 && c.keylen == keylen
    ensures st == Ok ==> c.data == if key.Some? then PadTo(algo.bb, key.value) else []
    ensures st == Ok && key.Some? ==> (c.data == KeyBlock(algo, key.value) <==> keylen > 0)
  {
    hide Context.Open;
    c := null;
    var outlen := dbits / 8;
    if outlen == 0 || outlen > algo.MaxOut() {
      return InvArg, c;
    }
    if keylen > 0 && (key == None || keylen > algo.MaxOut()) {
      return InvKeylen, c;
    }
    c := new Context(algo, outlen, keylen);
    if key.Some? {
      c.Write(key.value);
      c.Write(ZeroBytes(algo.bb - keylen));
      assert [] + key.value == key.value;
      EmptyKey(algo, key.value);
    }
    st := Ok;
  }

  /** A key of no octets that is given all the same hashes a block of zeros, which RFC 7693 does not. */
  lemma EmptyKey(a: Algo, key: seq<byte>)
    requires a.Valid() && |key| <= a.bb
    ensures PadTo(a.bb, key) == KeyBlock(a, key) <==> key != []
  {
  }

  // ---- the variable-length hash ----

  /** init_ctx, two writes, final: the digest of the two parts. */
  method Digest(a: Algo, n: nat, x: seq<byte>, y: seq<byte>) returns (st: Status, d: seq<byte>)
    requires a.Valid()
    ensures st == if n == 0 || n > a.MaxOut() then InvArg else Ok
    ensures st == Ok ==> d == PadTo(a.bb, Hash(a, n, 0, x + y))
  {
    hide Context.Open, Hash;
    d := [];
    var c;
    st, c := InitCtx(a, None, 0, n * 8);
    if st != Ok {
      return;
    }
    c.Write(x);
    c.Write(y);
    assert [] + x + y == x + y;
    c.Final();
    d := c.buf[..];
  }

  /** blake2b_vl_hash */
  method VlHash(a: Algo, input: seq<byte>, outputlen: nat, output: array<byte>, op: nat) returns (st: Status)
    requires a.Valid() && a.bb == 128 && outputlen < 0x1_0000_0000 && op + outputlen <= output.Length
    modifies output
    ensures st == if outputlen == 0 then InvArg else Ok
    ensures st == Ok ==> output[..] == Splice(old(output[..]), op, HPrime(a, outputlen, input))
    ensures st != Ok ==> output[..] == old(output[..])
  {
    hide Hash, Splice, ToLittleEndian;
    ghost var out0 := output[..];
    var ctxbuf;
    st, ctxbuf := Digest(a, if outputlen < 64 then outputlen else 64, ToLittleEndian(outputlen, 4), input);
    if st != Ok {
      return;
    }
    if outputlen <= 64 {
      Put(output, op, ctxbuf[..outputlen]);
    } else {
      var r := (outputlen - 1) / 32 - 1;
      RoundsAre(outputlen, r);
      var remained := outputlen - 32 * r;
      var i := 0;
      var d: seq<byte> := [];
      SpliceNothing(out0, op);
      while true
        invariant 0 <= i < r && |ctxbuf| == 128 && ctxbuf[..64] == V(a, outputlen, input, i + 1)
        invariant output[..] == Splice(out0, op, FirstHalves(a, outputlen, input, i))
        decreases r - i
      {
        d := ctxbuf[..64];
        Put(output, op + i * 32, d[..32]);
        SpliceMore(out0, op, FirstHalves(a, outputlen, input, i), d[..32]);
        i := i + 1;
        if i >= r {
          break;
        }
        st, ctxbuf := Digest(a, 64, d, []);
        assert d + [] == d;
      }
      st, ctxbuf := Digest(a, remained, d, []);
      assert d + [] == d;
      Put(output, op + r * 32, ctxbuf[..remained]);
      SpliceMore(out0, op, FirstHalves(a, outputlen, input, r), ctxbuf[..remained]);
    }
  }

  lemma RoundsAre(n: nat, r: int)
    requires n > 64 && r == (n - 1) / 32 - 1
    ensures r == Rounds(n) > 0
  {
  }

  lemma NoCount(a: Algo)
    ensures Words(a.Modulus(), 0) == (0, 0)
  {
  }

  lemma NextChain(a: Algo, h: seq<nat>, data: seq<byte>, b: seq<byte>)
    requires a.Valid() && |data| % a.bb == 0 && |b| == a.bb
    ensures |data + b| % a.bb == 0 && Chain(a, h, data + b) == F(a, Chain(a, h, data), b, |data| + a.bb, false)
  {
    DivMod(|data|, a.bb);
    DivModUnique(|data| + a.bb, a.bb, |data| / a.bb + 1, 0);
    assert (data + b)[..|data|] == data && (data + b)[|data|..] == b;
  }
}
