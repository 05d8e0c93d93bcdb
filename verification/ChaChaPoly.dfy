/** ChaCha20-Poly1305: the stitched loop of chacha20-ppc.c and the pointer bookkeeping around it
    in chacha20.c. */
module ChaChaPoly {
  import opened Bytes
  import opened CipherBlock
  import opened ChaCha20
  import P = Poly1305

  /** One turn of the stitched loop: the rounds of four ChaCha20 blocks with sixteen Poly1305 blocks
      worked in between. */
  method StitchedRounds(s: State, chunk: seq<byte>, g2: nat, g1: nat, g0: nat, r1: nat, r0: nat)
      returns (v: Lanes, h2: nat, h1: nat, h0: nat)
    requires |chunk| == 256 && P.Accumulator(g2, g1, g0) && P.Clamped(r1, r0)
    ensures v == LaneRounds(10, SplatState(s))
    ensures P.Accumulator(h2, h1, h0)
    ensures P.Residue(P.Limbs(h2, h1, h0))
         == P.AccPad(P.Residue(P.Limbs(g2, g1, g0)), P.Limbs(0, r1, r0), chunk, 1)
  {
    hide SplatState, Step1, Step2, Step3, Step4, LaneDoubleRound, P.Limbs, P.Residue, P.AccPad, P.BlockStep;
    v := SplatState(s);
    h2, h1, h0 := g2, g1, g0;
    var r1mult5 := r1 / 4 + r1;
    var pos := 0;
    var o := 20;
    ghost var turns := 0;
    ghost var a, r := P.Residue(P.Limbs(g2, g1, g0)), P.Limbs(0, r1, r0);
    P.NoBlocks(a, r, 1);
    assert chunk[..0] == [];
    while o > 0
      invariant o == 20 - 10 * turns && 0 <= turns <= 2 && pos == 128 * turns
      invariant v == LaneRounds(5 * turns, SplatState(s))
      invariant P.Accumulator(h2, h1, h0)
      invariant P.Residue(P.Limbs(h2, h1, h0)) == P.AccPad(a, r, chunk[..pos], 1)
    {
      var i := 8;
      ghost var k := 0;
      while i > 0
        invariant i == 8 - 2 * k && 0 <= k <= 4 && pos == 128 * turns + 32 * k
        invariant v == LaneRounds(5 * turns + k, SplatState(s))
        invariant P.Accumulator(h2, h1, h0)
        invariant P.Residue(P.Limbs(h2, h1, h0)) == P.AccPad(a, r, chunk[..pos], 1)
      {
        v, h2, h1, h0 := StitchedDoubleRound(v, chunk, pos, h2, h1, h0, r1, r0, r1mult5, a, r);
        pos := pos + 32;
        i := i - 2;
        k := k + 1;
      }
      StepsAre(v);
      v := Step1(v);
      v := Step2(v);
      v := Step3(v);
      v := Step4(v);
      o := o - 10;
      turns := turns + 1;
    }
    assert chunk[..pos] == chunk;
  }

  /** A double round with two Poly1305 blocks, each block in two parts around a step of the round. */
  method StitchedDoubleRound(w: Lanes, chunk: seq<byte>, pos: nat, g2: nat, g1: nat, g0: nat, r1: nat, r0: nat, r1mult5: nat,
                             ghost a: nat, ghost r: nat) returns (v: Lanes, h2: nat, h1: nat, h0: nat)
    requires pos + 32 <= |chunk| && P.Accumulator(g2, g1, g0) && P.Clamped(r1, r0) && r1mult5 == r1 / 4 + r1
    requires r == P.Limbs(0, r1, r0) && P.Residue(P.Limbs(g2, g1, g0)) == P.AccPad(a, r, chunk[..pos], 1)
    ensures v == LaneDoubleRound(w) && P.Accumulator(h2, h1, h0)
    ensures P.Residue(P.Limbs(h2, h1, h0)) == P.AccPad(a, r, chunk[..pos + 32], 1)
  {
    hide Step1, Step2, Step3, Step4, LaneDoubleRound, P.Limbs, P.Residue, P.AccPad, P.Add1305, P.MulPart1, P.MulPart2, P.PadStep;
    StepsAre(w);
    P.StepAt(g2, g1, g0, chunk, pos, 1, r1, r0);
    P.NextBlock(a, r, chunk, pos, 1);
    var h := P.Add1305(g2, g1, g0, 1, P.Le64(chunk, pos + 8), P.Le64(chunk, pos));
    var x := P.MulPart1(h.1, h.2, r1, r0, r1mult5);
    v := Step1(w);
    h := P.MulPart2(x, h.0, h.1, r0, r1mult5);
    h2, h1, h0 := h.0, h.1, h.2;
    v := Step2(v);
    P.StepAt(h2, h1, h0, chunk, pos + 16, 1, r1, r0);
    P.NextBlock(a, r, chunk, pos + 16, 1);
    h := P.Add1305(h2, h1, h0, 1, P.Le64(chunk, pos + 24), P.Le64(chunk, pos + 16));
    x := P.MulPart1(h.1, h.2, r1, r0, r1mult5);
    v := Step3(v);
    h := P.MulPart2(x, h.0, h.1, r0, r1mult5);
    h2, h1, h0 := h.0, h.1, h.2;
    v := Step4(v);
  }

  /** chacha20_poly1305_ppc_blocks4. */
  method StitchedBlocks4(state: State, dst: array<byte>, op: nat, src: array<byte>, ip: nat, nblks0: nat,
                         poly: P.Context, auth: array<byte>, ap: nat, behind: bool)
      returns (next: State, ghost out: seq<byte>)
    requires nblks0 > 0 && nblks0 % 4 == 0 && Separate(dst, op, src, ip)
    requires op + 64 * nblks0 <= dst.Length && ip + 64 * nblks0 <= src.Length
    requires poly.Valid() && poly.leftover == 0 && dst != poly.buffer && src != poly.buffer
    requires if behind then auth == dst && ap + 256 <= op else auth == src && ap == ip
    modifies dst, poly`h, poly`full
    ensures Done(state, next, nblks0, old(src[ip..ip + 64 * nblks0]), out)
    ensures |out| == 64 * nblks0 && dst[..] == Splice(old(dst[..]), op, out)
    ensures poly.Valid() && poly.leftover == 0
    ensures poly.full == old(poly.full) + if behind then dst[ap..ap + 64 * nblks0] else old(src[ip..ip + 64 * nblks0])
  {
    hide Xor, Splice, Xored, SplatState, LaneRounds, FourBytes, Counter, Stream, P.Limbs, P.Residue, P.AccPad, P.Acc,
         P.Clamped, P.Accumulator, P.Context.Valid, Done;
    ghost var out0, in0, data := dst[..], src[..], src[ip..ip + 64 * nblks0];
    next := state;
    var nblks, o, i, a := nblks0, op, ip, ap;
    var h2, h1, h0 := poly.LoadLimbs();
    ghost var acc := P.Acc(poly.R(), poly.full);
    ghost var j := 0;
    ghost var absorbed := [];
    XoredNothing(dst, op, src, ip, 64 * nblks0);
    StreamStart(state);
    while nblks > 0
      invariant 0 <= nblks && nblks % 4 == 0 && 0 <= j && j + nblks == nblks0
      invariant o == op + 64 * j && i == ip + 64 * j && a == ap + 64 * j
      invariant next == Counter(j, state)
      invariant Xored(dst, out0, op, src, in0, ip, data, Stream(state, j))
      invariant P.Accumulator(h2, h1, h0) && |absorbed| == 64 * j
      invariant absorbed == if behind then dst[ap..a] else data[..64 * j]
      invariant poly.Valid() && P.Residue(P.Limbs(h2, h1, h0)) == P.AccPad(acc, poly.R(), absorbed, 1)
      modifies dst
    {
      next, h2, h1, h0 := StitchedGroup(state, next, dst, out0, op, src, in0, ip, data, j, o, i,
                                        auth, ap, a, behind, h2, h1, h0, poly.r1, poly.r0, acc, absorbed);
      absorbed := if behind then dst[ap..a + 256] else data[..64 * j + 256];
      i := i + 256;
      o := o + 256;
      a := a + 256;
      nblks := nblks - 4;
      j := j + 4;
    }
    out := Xor(data, Stream(state, nblks0));
    XoredAll(dst, out0, op, src, in0, ip, data, Stream(state, nblks0));
    assert data[..64 * nblks0] == data;
    IsDone(state, next, nblks0, data, out);
    WholePolyBlocks(|absorbed|, nblks0);
    poly.SetLimbs(h2, h1, h0, absorbed);
  }

  /** One group of four ChaCha20 blocks and sixteen Poly1305 blocks. */
  method StitchedGroup(ghost state: State, s: State, dst: array<byte>, ghost out0: seq<byte>, ghost op: nat, src: array<byte>,
                       ghost in0: seq<byte>, ghost ip: nat, ghost data: seq<byte>, ghost j: nat, o: nat, i: nat,
                       auth: array<byte>, ghost ap: nat, a: nat, ghost behind: bool,
                       g2: nat, g1: nat, g0: nat, r1: nat, r0: nat, ghost acc: nat, ghost absorbed: seq<byte>)
      returns (next: State, h2: nat, h1: nat, h0: nat)
    requires 64 * j + 256 <= |data| && s == Counter(j, state) && Xored(dst, out0, op, src, in0, ip, data, Stream(state, j))
    requires o == op + 64 * j && i == ip + 64 * j && a == ap + 64 * j
    requires if behind then auth == dst && ap + 256 <= op else auth == src && ap == ip
    requires o <= dst.Length && a + 256 <= auth.Length
    requires P.Accumulator(g2, g1, g0) && P.Clamped(r1, r0) && |absorbed| == 64 * j
    requires absorbed == if behind then dst[ap..a] else data[..64 * j]
    requires P.Residue(P.Limbs(g2, g1, g0)) == P.AccPad(acc, P.Limbs(0, r1, r0), absorbed, 1)
    modifies dst
    ensures next == Counter(j + 4, state) && Xored(dst, out0, op, src, in0, ip, data, Stream(state, j + 4))
    ensures P.Accumulator(h2, h1, h0)
    ensures P.Residue(P.Limbs(h2, h1, h0))
         == P.AccPad(acc, P.Limbs(0, r1, r0), if behind then dst[ap..a + 256] else data[..64 * j + 256], 1)
  {
    hide Xor, Splice, Xored, FourBytes, Counter, Stream, P.Limbs, P.Residue, P.AccPad, P.Clamped, P.Accumulator;
    ghost var so := if behind then dst[ap..a + 256] else data[..64 * j + 256];
    var chunk := ChunkOf(dst, out0, op, src, in0, ip, data, Stream(state, j), auth, ap, a, 256, behind, absorbed, so);
    ghost var before := dst[..];
    var f;
    f, next, h2, h1, h0 := StitchedCompute(s, chunk, g2, g1, g0, r1, r0, acc, absorbed);
    StreamPlus(state, j, 4);
    CounterPlus(4, j, state);
    EmitFour(dst, out0, op, src, in0, ip, data, Stream(state, j), f, o, i);
    StillBehind(behind, before, dst[..], o, ap, a + 256);
  }

  /** The next octets for Poly1305, read before this group writes anything. */
  method ChunkOf(dst: array<byte>, ghost out0: seq<byte>, ghost op: nat, src: array<byte>, ghost in0: seq<byte>, ghost ip: nat,
                 ghost data: seq<byte>, ghost st: seq<byte>, auth: array<byte>, ghost ap: nat, a: nat, n: nat,
                 ghost behind: bool, ghost absorbed: seq<byte>, ghost so: seq<byte>) returns (chunk: seq<byte>)
    requires Xored(dst, out0, op, src, in0, ip, data, st) && |st| + n <= |data| && a == ap + |st|
    requires if behind then auth == dst && ap + n <= op else auth == src && ap == ip
    requires a + n <= auth.Length
    requires absorbed == if behind then dst[ap..a] else data[..|st|]
    requires so == if behind then dst[ap..a + n] else data[..|st| + n]
    ensures |chunk| == n && absorbed + chunk == so
  {
    hide Front, Splice, Xor;
    chunk := auth[a..a + n];
    if behind {
      SliceMore(dst[..], ap, a, a + n);
      assert dst[ap..a] == dst[..][ap..a] && dst[a..a + n] == dst[..][a..a + n] && dst[ap..a + n] == dst[..][ap..a + n];
    } else {
      XoredRead(dst, out0, op, src, in0, ip, data, st, n);
      SliceMore(data, 0, |st|, |st| + n);
    }
  }

  /** Writing from o on leaves what lies before it. */
  lemma StillBehind(behind: bool, before: seq<byte>, after: seq<byte>, o: nat, i: nat, j: nat)
    requires o <= |before| == |after| && after[..o] == before[..o] && (behind ==> i <= j <= o)
    ensures behind ==> after[i..j] == before[i..j]
  {
    if behind {
      SliceOfSlice(after, 0, o, i, j);
      SliceOfSlice(before, 0, o, i, j);
    }
  }

  /** The computation of one group, apart from its buffers. */
  method StitchedCompute(s: State, chunk: seq<byte>, g2: nat, g1: nat, g0: nat, r1: nat, r0: nat,
                         ghost acc: nat, ghost absorbed: seq<byte>)
      returns (f: Four, next: State, h2: nat, h1: nat, h0: nat)
    requires |chunk| == 256 && P.Accumulator(g2, g1, g0) && P.Clamped(r1, r0) && |absorbed| % 16 == 0
    requires P.Residue(P.Limbs(g2, g1, g0)) == P.AccPad(acc, P.Limbs(0, r1, r0), absorbed, 1)
    ensures FourBytes(f) == Stream(s, 4) && next == Counter(4, s) && P.Accumulator(h2, h1, h0)
    ensures P.Residue(P.Limbs(h2, h1, h0)) == P.AccPad(acc, P.Limbs(0, r1, r0), absorbed + chunk, 1)
  {
    hide SplatState, LaneRounds, FourBytes, Counter, Stream, P.Limbs, P.Residue, P.AccPad, P.Clamped;
    var v;
    v, h2, h1, h0 := StitchedRounds(s, chunk, g2, g1, g0, r1, r0);
    P.AccPadConcat(acc, P.Limbs(0, r1, r0), absorbed, chunk, 1);
    f, next := LaneFinish(s, v);
  }

  /** The stitched functions of other processors, by what they do: groups of m blocks, each group
      after the Poly1305 blocks of the same amount of data. */
  method StitchedGroups(m: nat, state: State, dst: array<byte>, op: nat, src: array<byte>, ip: nat, nblks0: nat,
                        poly: P.Context, auth: array<byte>, ap: nat, behind: bool)
      returns (next: State, ghost out: seq<byte>)
    requires m in {1, 4, 8} && nblks0 > 0 && nblks0 % m == 0 && Separate(dst, op, src, ip)
    requires op + 64 * nblks0 <= dst.Length && ip + 64 * nblks0 <= src.Length
    requires poly.Valid() && poly.leftover == 0 && dst != poly.buffer && src != poly.buffer
    requires if behind then auth == dst && ap + 64 * m <= op else auth == src && ap == ip
    modifies dst, poly, poly.buffer
    ensures Done(state, next, nblks0, old(src[ip..ip + 64 * nblks0]), out)
    ensures |out| == 64 * nblks0 && dst[..] == Splice(old(dst[..]), op, out)
    ensures poly.Valid() && poly.leftover == 0
    ensures poly.full == old(poly.full) + if behind then dst[ap..ap + 64 * nblks0] else old(src[ip..ip + 64 * nblks0])
  {
    hide Xor, Splice, Front, Counter, Stream, P.Context.Valid, Done;
    ghost var out0, in0, data, full0 := dst[..], src[..], src[ip..ip + 64 * nblks0], poly.full;
    next := state;
    var nblks, o, i, a := nblks0, op, ip, ap;
    ghost var j := 0;
    XoredNothing(dst, op, src, ip, 64 * nblks0);
    StreamStart(state);
    while nblks > 0
      invariant 0 <= nblks && nblks % m == 0 && 0 <= j && j + nblks == nblks0
      invariant o == op + 64 * j && i == ip + 64 * j && a == ap + 64 * j
      invariant next == Counter(j, state)
      invariant Xored(dst, out0, op, src, in0, ip, data, Stream(state, j))
      invariant poly.Valid() && poly.leftover == 0
      invariant poly.full == full0 + if behind then dst[ap..a] else data[..64 * j]
    {
      AtLeastOneGroup(nblks, m);
      next := PlainGroup(m, state, next, dst, out0, op, src, in0, ip, data, j, o, i, poly, auth, ap, a, behind, full0);
      i := i + 64 * m;
      o := o + 64 * m;
      a := a + 64 * m;
      nblks := nblks - m;
      j := j + m;
    }
    out := Xor(data, Stream(state, nblks0));
    XoredAll(dst, out0, op, src, in0, ip, data, Stream(state, nblks0));
    assert data[..64 * nblks0] == data;
    IsDone(state, next, nblks0, data, out);
  }

  lemma WholePolyBlocks(len: nat, nblks: nat)
    requires len == 64 * nblks
    ensures len % 16 == 0
  {
    assert len == 16 * (4 * nblks);
  }

  lemma AtLeastOneGroup(n: nat, m: nat)
    requires m in {1, 4, 8} && n > 0 && n % m == 0
    ensures n >= m && (n - m) % m == 0
  {
  }

  method PlainGroup(m: nat, ghost state: State, s: State, dst: array<byte>, ghost out0: seq<byte>, ghost op: nat,
                    src: array<byte>, ghost in0: seq<byte>, ghost ip: nat, ghost data: seq<byte>, ghost j: nat, o: nat, i: nat,
                    poly: P.Context, auth: array<byte>, ghost ap: nat, a: nat, ghost behind: bool, ghost full0: seq<byte>)
      returns (next: State)
    requires m in {1, 4, 8} && 64 * j + 64 * m <= |data| && s == Counter(j, state)
    requires Xored(dst, out0, op, src, in0, ip, data, Stream(state, j))
    requires o == op + 64 * j && i == ip + 64 * j && a == ap + 64 * j
    requires if behind then auth == dst && ap + 64 * m <= op else auth == src && ap == ip
    requires o <= dst.Length && a + 64 * m <= auth.Length
    requires poly.Valid() && poly.leftover == 0 && dst != poly.buffer && src != poly.buffer
    requires poly.full == full0 + if behind then dst[ap..a] else data[..64 * j]
    modifies dst, poly, poly.buffer
    ensures next == Counter(j + m, state) && Xored(dst, out0, op, src, in0, ip, data, Stream(state, j + m))
    ensures poly.Valid() && poly.leftover == 0 && (behind ==> dst.Length >= a + 64 * m)
    ensures poly.full == full0 + if behind then dst[ap..a + 64 * m] else data[..64 * j + 64 * m]
  {
    hide Xor, Splice, Xored, Counter, Stream, P.Context.Valid;
    ghost var so := if behind then dst[ap..a + 64 * m] else data[..64 * j + 64 * m];
    ghost var absorbed := if behind then dst[ap..a] else data[..64 * j];
    XoredApart(dst, out0, op, src, in0, ip, data, Stream(state, j));
    var chunk := ChunkOf(dst, out0, op, src, in0, ip, data, Stream(state, j), auth, ap, a, 64 * m, behind, absorbed, so);
    ghost var before := dst[..];
    AbsorbWhole(poly, chunk, full0, absorbed);
    next := BlocksAt(m, state, s, dst, out0, op, src, in0, ip, data, j, o, i);
    StillBehind(behind, before, dst[..], o, ap, a + 64 * m);
    assert behind ==> dst[ap..a + 64 * m] == dst[..][ap..a + 64 * m];
  }

  /** The next m blocks of a call. */
  method BlocksAt(m: nat, ghost state: State, s: State, dst: array<byte>, ghost out0: seq<byte>, ghost op: nat,
                  src: array<byte>, ghost in0: seq<byte>, ghost ip: nat, ghost data: seq<byte>, ghost j: nat, o: nat, i: nat)
      returns (next: State)
    requires 64 * j + 64 * m <= |data| && s == Counter(j, state) && o == op + 64 * j && i == ip + 64 * j
    requires Xored(dst, out0, op, src, in0, ip, data, Stream(state, j))
    modifies dst
    ensures next == Counter(j + m, state) && Xored(dst, out0, op, src, in0, ip, data, Stream(state, j + m))
    ensures o <= dst.Length && dst[..o] == old(dst[..o])
  {
    hide Xor, Splice, Front, Counter, Stream;
    ghost var st, n := Stream(state, j), 64 * m;
    XoredRead(dst, out0, op, src, in0, ip, data, st, n);
    XoredApart(dst, out0, op, src, in0, ip, data, st);
    ghost var before, srcBefore := dst[..], src[..];
    ghost var out;
    next, out := ScalarBlocks(s, dst, o, src, i, m);
    StreamPlus(state, j, m);
    CounterPlus(m, j, state);
    FrontMore(before, srcBefore, dst == src, out0, op, in0, ip, data, st, Stream(s, m), out, dst[..]);
    assert dst[..o] == dst[..][..o] && before[..o] == old(dst[..o]);
  }

  /** Whole blocks for Poly1305. */
  method AbsorbWhole(poly: P.Context, chunk: seq<byte>, ghost full0: seq<byte>, ghost absorbed: seq<byte>)
    requires poly.Valid() && poly.leftover == 0 && |chunk| % 64 == 0 && poly.full == full0 + absorbed
    modifies poly, poly.buffer
    ensures poly.Valid() && poly.leftover == 0 && poly.full == full0 + (absorbed + chunk)
  {
    hide P.Context.Valid;
    poly.Absorbs();
    poly.Update(chunk);
    poly.Absorbs();
    ConcatAssociates(full0, absorbed, chunk);
  }

  lemma IsDone(input: State, next: State, nblks: nat, data: seq<byte>, out: seq<byte>)
    requires next == Counter(nblks, input) && |data| == 64 * nblks && out == Xor(data, Stream(input, nblks))
    ensures Done(input, next, nblks, data, out)
  {
  }
}
