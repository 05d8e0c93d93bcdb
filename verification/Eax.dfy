/** cipher-eax.c: EAX, built from three CMACs and counter mode. */
module Eax {
  import opened Bytes
  import opened CipherBlock
  import opened Counter
  import Ctr
  import B = Buffering
  import M = Cmac
  import S = Sp80038B

  datatype Status = Ok | InvState | BufferTooShort | BadTag

  // ---- EAX, as its designers define it ----

  /** The block that numbers the use of the MAC. */
  function Tweak(bs: nat, t: byte): (b: seq<byte>)
    requires bs > 0
    ensures |b| == bs
  {
    ZeroBytes(bs - 1) + [t]
  }

  /** OMAC^t */
  function Omac(k: Cipher, t: byte, data: seq<byte>): (r: seq<byte>)
    requires k.Valid()
    ensures |r| == k.bs
  {
    S.Cmac(k, Tweak(k.bs, t) + data)
  }

  function Tag(k: Cipher, nonce: seq<byte>, aad: seq<byte>, sealed: seq<byte>): (r: seq<byte>)
    requires k.Valid()
    ensures |r| == k.bs
  {
    Xor(Xor(Omac(k, 0, nonce), Omac(k, 1, aad)), Omac(k, 2, sealed))
  }

  datatype Sealed = Sealed(text: seq<byte>, tag: seq<byte>)

  function Seal(k: Cipher, nonce: seq<byte>, aad: seq<byte>, msg: seq<byte>): Sealed
    requires k.Valid()
  {
    var c := CtrCrypt(k, Omac(k, 0, nonce), 0, msg);
    Sealed(c, Tag(k, nonce, aad, c))
  }

  // ---- the handle ----

  /** A message a handle has processed: its nonce and its length. */
  datatype Message = Message(nonce: seq<byte>, len: nat)

  /** What a handle has been given since its nonce was set: the nonce, the associated data, the
      message and its ciphertext, the key stream that was still saved, and the messages before. */
  datatype Log = Log(nonce: seq<byte>, aad: seq<byte>, msg: seq<byte>, sealed: seq<byte>, stale: seq<byte>, past: seq<Message>)

  /** The values of a handle. */
  datatype Session = Session(iv: seq<byte>, marksIv: bool, marksTag: bool, log: Log)

  ghost predicate Good(k: Cipher, s: Session, ctr0: seq<byte>, h: seq<byte>, t: seq<byte>)
    requires k.Valid()
  {
    && |s.iv| == k.bs
    && (s.marksIv ==> ctr0 == Omac(k, 0, s.log.nonce)
                      && s.log.sealed == LateCrypt(k, Omac(k, 0, s.log.nonce), s.log.stale, 0, s.log.msg))
    && (s.marksIv && !s.marksTag ==>
          s.iv == ctr0 && h == Tweak(k.bs, 1) + s.log.aad && t == Tweak(k.bs, 2) + s.log.sealed)
    && (s.marksIv && s.marksTag ==> s.iv == Tag(k, s.log.nonce, s.log.aad, s.log.sealed))
    && (!s.marksIv ==> h == t)
  }

  /** The key stream saved after a message that began with saved octets: those it did not reach, or
      the rest of its own last block. */
  function Rest(k: Cipher, m: Message, stale: seq<byte>): seq<byte>
    requires k.Valid()
  {
    if m.len < |stale| then stale[m.len..]
    else
      var n := m.len - |stale|;
      KeyStream(k, Omac(k, 0, m.nonce), n, (k.bs - n % k.bs) % k.bs)
  }

  /** The key stream saved after a list of messages. */
  function SavedAfter(k: Cipher, past: seq<Message>): seq<byte>
    requires k.Valid()
  {
    if past == [] then [] else Rest(k, past[|past| - 1], SavedAfter(k, past[..|past| - 1]))
  }

  class Handle {
    const cipher: Cipher
    const ctr: Ctr.State
    const header: M.Context
    const text: M.Context
    const k1: seq<byte>
    const k2: seq<byte>
    var iv: seq<byte>      // u_iv: the MAC of the nonce, then the tag
    var marksIv: bool
    var marksTag: bool
    ghost var log: Log

    ghost predicate Parts()
    {
      && cipher.Valid() && cipher.bs in {8, 16} && k1 == S.K1(cipher) && k2 == S.K2(cipher)
      && ctr.cipher == cipher == header.cipher == text.cipher && header.Fixed() && text.Fixed()
      && header != text && header.macbuf != text.macbuf
    }

    ghost function View(): Session
      reads this
    {
      Session(iv, marksIv, marksTag, log)
    }

    ghost predicate Valid()
      reads this, ctr, header, header.macbuf, text, text.macbuf
    {
      && Parts() && ctr.Loose() && header.Open() && text.Open()
      && Good(cipher, View(), ctr.ctr0, header.data, text.data)
      && (marksIv ==> ctr.At(log.stale, |log.msg|))
      && SavedAfter(cipher, log.past) == if marksIv then log.stale else ctr.Saved()
    }

    /** The messages since the handle was made or reset, the current one among them. */
    ghost function Past(): seq<Message>
      reads this
    {
      if marksIv then log.past + [Message(log.nonce, |log.msg|)] else log.past
    }

    /** _gcry_cipher_eax_setkey on a cleared handle. */
    constructor (cipher: Cipher, bulk: bool)
      requires cipher.Valid() && cipher.bs in {8, 16}
      ensures Valid() && !marksIv && !marksTag && ctr.unused == 0 && Past() == [] && header.bulk == bulk && this.cipher == cipher
      ensures fresh(ctr) && fresh(header) && fresh(header.macbuf) && fresh(text) && fresh(text.macbuf)
    {
      hide S.K1, S.K2, AddBE, KeyByte, M.Context.Open, Ctr.State.Loose, Ctr.State.At, Ctr.State.Saved, Omac;
      var k1, k2 := M.GenerateSubkeys(cipher);
      var c := new Ctr.State(cipher, ZeroBytes(cipher.bs));
      var h := new M.Context(cipher, bulk, k1, k2);
      var t := new M.Context(cipher, bulk, k1, k2);
      this.cipher, this.k1, this.k2, ctr, header, text := cipher, k1, k2, c, h, t;
      iv, marksIv, marksTag, log := ZeroBytes(cipher.bs), false, false, Log([], [], [], [], [], []);
    }

    /** The session a call works on: without a nonce, one with an empty nonce. */
    ghost function Begun(): Log
      requires ctr.Loose()
      reads this, ctr
    {
      if marksIv then log else Log([], [], [], [], ctr.Saved(), log.past)
    }

    /** The MAC of the nonce. */
    method NonceMac(nonce: seq<byte>) returns (n: seq<byte>, ghost taken: seq<byte>)
      requires Parts()
      ensures n == Omac(cipher, 0, taken) && (!header.bulk || |nonce| < 0x1_0000_0000 ==> taken == nonce)
    {
      hide S.K1, S.K2, S.Cmac, M.Context.Open;
      var mac := new M.Context(cipher, header.bulk, k1, k2);
      var initbuf := Tweak(cipher.bs, 0);
      mac.TakenWhole(initbuf);
      mac.NotTagged();
      var st := mac.Write(initbuf);
      assert [] + initbuf == initbuf;
      taken := [];
      if |nonce| != 0 {
        if !header.bulk || |nonce| < 0x1_0000_0000 {
          mac.TakenWhole(nonce);
        }
        taken := mac.TakenAll(nonce);
        st := mac.Write(nonce);
      } else {
        assert initbuf + [] == initbuf;
      }
      assert mac.data == initbuf + taken;
      mac.Final();
      n := mac.iv;
    }

    /** _gcry_cipher_eax_set_nonce.  The key stream saved from an earlier message is not dropped. */
    method SetNonce(nonce: seq<byte>)
      requires Valid()
      modifies this, ctr`ctr, ctr`ctr0, ctr`blocks, header, header.macbuf, text, text.macbuf
      ensures Valid() && marksIv && !marksTag && ctr.Saved() == log.stale == old(ctr.Saved())
      ensures log.aad == log.msg == log.sealed == [] && |log.stale| == ctr.unused == old(ctr.unused)
      ensures log.past == old(Past())
      ensures !header.bulk || |nonce| < 0x1_0000_0000 ==> log.nonce == nonce
    {
      hide S.K1, S.K2, S.Cmac, M.Context.Open, Omac, Ctr.State.Loose, Ctr.State.At, Ctr.State.Saved, Tweak, LateCrypt, SavedAfter;
      SavedIs(this);
      ghost var stale, past := ctr.Saved(), Past();
      marksIv, marksTag := false, false;
      header.Reset();
      text.Reset();
      ghost var taken;
      var n;
      n, taken := NonceMac(nonce);
      iv := n;
      ctr.LoadCounter(n);
      var initbuf := Tweak(cipher.bs, 1);
      Begin(header, initbuf);
      initbuf := Tweak(cipher.bs, 2);
      Begin(text, initbuf);
      marksIv, marksTag := true, false;
      log := Log(taken, [], [], [], stale, past);
      Ctr.NoLateData(cipher, n, stale, 0);
      assert initbuf + [] == initbuf && Tweak(cipher.bs, 1) + [] == Tweak(cipher.bs, 1);
    }

    /** The first block of a MAC says what the MAC is for. */
    method Begin(mac: M.Context, b: seq<byte>)
      requires mac.Open() && mac.Fixed() && mac.data == [] && |b| == mac.cipher.bs
      modifies mac`iv, mac`unused, mac`data, mac.macbuf
      ensures mac.Open() && mac.data == b
    {
      hide M.Context.Open, M.Taken;
      mac.TakenWhole(b);
      mac.NotTagged();
      var st := mac.Write(b);
      assert [] + b == b;
    }

    method Authenticate(aad: seq<byte>) returns (st: Status)
      requires Valid()
      modifies this, ctr`ctr, ctr`ctr0, ctr`blocks, header, header.macbuf, text, text.macbuf
      ensures Valid() && st == if old(marksTag) then InvState else Ok
      ensures st == Ok && (!header.bulk || |aad| < 0x1_0000_0000) ==>
        marksIv && !marksTag && log == old(Begun()).(aad := old(Begun()).aad + aad)
      ensures st == InvState ==> unchanged(this)
    {
      hide S.K1, S.K2, S.Cmac, M.Context.Open, Omac, Ctr.State.Loose, Ctr.State.At, Ctr.State.Saved, Tweak, M.Taken, LateCrypt, SavedAfter;
      if marksTag {
        return InvState;
      }
      if !marksIv {
        SetNonce([]);
      }
      ghost var was, taken := log, header.TakenAll(aad);
      if !header.bulk || |aad| < 0x1_0000_0000 {
        header.TakenWhole(aad);
      }
      header.NotTagged();
      var done := header.Write(aad);
      log := was.(aad := was.aad + taken);
      ConcatAssociates(Tweak(cipher.bs, 1), was.aad, taken);
      return Ok;
    }

    /** Buffers of a call are none of the handle's. */
    ghost predicate Apart(outbuf: array<byte>, inbuf: array<byte>) {
      outbuf != header.macbuf && outbuf != text.macbuf && inbuf != header.macbuf && inbuf != text.macbuf
    }

    /** _gcry_cipher_eax_encrypt and _gcry_cipher_eax_decrypt: out is what is put out for data, the
        next octets of the session's stream; the ciphertext is what the MAC takes in. */
    method Crypt(decrypt: bool, outbuf: array<byte>, op: nat, outbuflen: nat, inbuf: array<byte>, ip: nat, inbuflen: nat,
                 ghost data: seq<byte>) returns (st: Status, ghost out: seq<byte>)
      requires Valid() && Apart(outbuf, inbuf) && Separate(outbuf, op, inbuf, ip)
      requires op + outbuflen <= outbuf.Length && ip + inbuflen <= inbuf.Length && data == inbuf[ip..ip + inbuflen]
      modifies this, ctr, header, header.macbuf, text, text.macbuf, outbuf
      ensures Valid() && st == if outbuflen < inbuflen then BufferTooShort else if old(marksTag) then InvState else Ok
      ensures st != Ok ==> unchanged(this) && unchanged(ctr) && outbuf[..] == old(outbuf[..])
      ensures st == Ok ==> marksIv && !marksTag && |out| == inbuflen && outbuf[..] == Splice(old(outbuf[..]), op, out)
      ensures st == Ok ==> log == AfterData(old(Begun()), decrypt, data, out)
      ensures st == Ok ==> out == LateCrypt(cipher, Omac(cipher, 0, log.nonce), log.stale, |old(Begun()).msg|, data)
    {
      hide S.K1, S.K2, S.Cmac, M.Context.Open, Omac, Ctr.State.Loose, Ctr.State.At, Ctr.State.Saved, Tweak, Splice, LateCrypt, SavedAfter;
      out := [];
      if outbuflen < inbuflen {
        return BufferTooShort, out;
      }
      if marksTag {
        return InvState, out;
      }
      if !marksIv {
        SetNonce([]);
      }
      ghost var was := log;
      out := CryptLoop(ctr, text, decrypt, outbuf, op, outbuflen, inbuf, ip, inbuflen, data, log.stale, |log.msg|);
      DataStep(cipher, was, decrypt, data, out);
      log := AfterData(was, decrypt, data, out);
      ConcatAssociates(Tweak(cipher.bs, 2), was.sealed, if decrypt then data else out);
      return Ok, out;
    }

    /** The three MACs are combined once; without a nonce the two open ones cancel. */
    method FinishTag()
      requires Valid()
      modifies this`iv, this`marksTag, header, header.macbuf, text, text.macbuf
      ensures Valid() && marksTag
      ensures marksIv ==> iv == Tag(cipher, log.nonce, log.aad, log.sealed)
      ensures !marksIv || old(marksTag) ==> iv == old(iv)
    {
      hide S.K1, S.K2, S.Cmac, M.Context.Open, Ctr.State.Loose, Ctr.State.At, Ctr.State.Saved, Tweak, Xor;
      if !marksTag {
        header.Final();
        text.Final();
        ghost var iv0 := iv;
        iv := Xor(iv, header.iv);
        iv := Xor(iv, text.iv);
        if !marksIv {
          XorCancels(iv0, header.iv);
        }
        header.Reset();
        text.Reset();
        marksTag := true;
      }
    }

    method GetTag(outbuflen: nat) returns (tag: seq<byte>)
      requires Valid()
      modifies this`iv, this`marksTag, header, header.macbuf, text, text.macbuf
      ensures Valid() && marksTag
      ensures marksIv ==> tag == Tag(cipher, log.nonce, log.aad, log.sealed)[..if outbuflen > cipher.bs then cipher.bs else outbuflen]
    {
      hide Tag, M.Context.Open, Ctr.State.Loose, Ctr.State.At, Ctr.State.Saved, S.K1, S.K2;
      FinishTag();
      tag := iv[..if outbuflen > cipher.bs then cipher.bs else outbuflen];
    }

    method CheckTag(tag: seq<byte>) returns (st: Status)
      requires Valid()
      modifies this`iv, this`marksTag, header, header.macbuf, text, text.macbuf
      ensures Valid() && marksTag
      ensures marksIv ==>
        st == if |tag| <= cipher.bs && tag == Tag(cipher, log.nonce, log.aad, log.sealed)[..|tag|] then Ok else BadTag
    {
      hide Tag, M.Context.Open, Ctr.State.Loose, Ctr.State.At, Ctr.State.Saved, S.K1, S.K2;
      FinishTag();
      if !(|tag| <= cipher.bs) || tag != iv[..|tag|] {
        return BadTag;
      }
      return Ok;
    }
  }

  /** The log after more data, with what was put out for it. */
  ghost function AfterData(log: Log, decrypt: bool, data: seq<byte>, out: seq<byte>): Log {
    if decrypt then log.(msg := log.msg + out, sealed := log.sealed + data)
    else log.(msg := log.msg + data, sealed := log.sealed + out)
  }

  lemma DataStep(k: Cipher, log: Log, decrypt: bool, data: seq<byte>, out: seq<byte>)
    requires k.Valid() && log.sealed == LateCrypt(k, Omac(k, 0, log.nonce), log.stale, 0, log.msg)
    requires out == LateCrypt(k, Omac(k, 0, log.nonce), log.stale, |log.msg|, data)
    ensures var next := AfterData(log, decrypt, data, out);
            next.sealed == LateCrypt(k, Omac(k, 0, log.nonce), log.stale, 0, next.msg)
  {
    hide Omac, LateCrypt;
    var n := Omac(k, 0, log.nonce);
    LateConcat(k, n, log.stale, 0, log.msg, if decrypt then out else data);
    LateTwice(k, n, log.stale, |log.msg|, data);
  }

  lemma KnownSizes(ctr: Ctr.State, stale: seq<byte>, pos: nat)
    requires ctr.At(stale, pos)
    ensures ctr.cipher.Valid() && |ctr.ctr0| == ctr.cipher.bs
  {
    hide AddBE, KeyStream;
  }

  /** Chunks of 24 KiB while more than 32 KiB remain: the MAC after encryption or before decryption. */
  method CryptLoop(ctr: Ctr.State, text: M.Context, decrypt: bool, outbuf: array<byte>, op: nat, outbuflen: nat,
                   inbuf: array<byte>, ip: nat, inbuflen: nat, ghost data: seq<byte>, ghost stale: seq<byte>, ghost pos: nat)
    returns (ghost out: seq<byte>)
    requires text.Open() && text.macbuf != outbuf && text.macbuf != inbuf && Separate(outbuf, op, inbuf, ip)
    requires op + outbuflen <= outbuf.Length && ip + inbuflen <= inbuf.Length && inbuflen <= outbuflen
    requires data == inbuf[ip..ip + inbuflen] && ctr.At(stale, pos)
    modifies ctr`ctr, ctr`lastiv, ctr`unused, ctr`blocks, text`iv, text`unused, text`data, text.macbuf, outbuf
    ensures |out| == inbuflen && text.Open() && outbuf[..] == Splice(old(outbuf[..]), op, out)
    ensures text.data == old(text.data) + if decrypt then data else out
    ensures ctr.At(stale, pos + inbuflen) && ctr.cipher.Valid() && |ctr.ctr0| == ctr.cipher.bs
    ensures out == LateCrypt(ctr.cipher, ctr.ctr0, stale, pos, data)
  {
    hide M.Context.Open, Splice, LateCrypt, Ctr.State.At, Ctr.State.Loose, Ctr.State.Saved;
    KnownSizes(ctr, stale, pos);
    ghost var out0, in0, t0 := outbuf[..], inbuf[..], text.data;
    var done := 0;
    out := [];
    SpliceNothing(out0, op);
    assert data[..0] == [] && t0 + [] == t0;
    Ctr.NoLateData(ctr.cipher, ctr.ctr0, stale, pos);
    while done < inbuflen
      invariant 0 <= done <= inbuflen && text.Open()
      invariant |out| == done && outbuf[..] == Splice(out0, op, out) && (inbuf != outbuf ==> inbuf[..] == in0)
      invariant text.data == t0 + if decrypt then data[..done] else out
      invariant ctr.At(stale, pos + done) && out == LateCrypt(ctr.cipher, ctr.ctr0, stale, pos, data[..done])
    {
      var currlen := inbuflen - done;
      if currlen > 32 * 1024 {
        currlen := 24 * 1024;
      }
      ReadAhead(outbuf, out0, op, out, inbuf, in0, ip + done, currlen);
      SliceOfSlice(in0, ip, ip + inbuflen, done, done + currlen);
      ghost var x := data[done..done + currlen];
      ghost var o := CryptChunk(ctr, text, decrypt, outbuf, op + done, outbuflen - done, inbuf, ip + done, currlen, x, stale, pos + done);
      Grown(ctr.cipher, ctr.ctr0, stale, pos, data, done, done + currlen, out, o, out0, op, t0, decrypt);
      out := out + o;
      done := done + currlen;
    }
    assert data[..inbuflen] == data;
  }

  method CryptChunk(ctr: Ctr.State, text: M.Context, decrypt: bool, outbuf: array<byte>, op: nat, outbuflen: nat,
                    inbuf: array<byte>, ip: nat, n: nat, ghost x: seq<byte>, ghost stale: seq<byte>, ghost pos: nat)
    returns (ghost o: seq<byte>)
    requires text.Open() && text.macbuf != outbuf && text.macbuf != inbuf && Separate(outbuf, op, inbuf, ip)
    requires op + outbuflen <= outbuf.Length && ip + n <= inbuf.Length && n <= outbuflen && n <= 32 * 1024
    requires x == inbuf[ip..ip + n] && ctr.At(stale, pos)
    modifies ctr`ctr, ctr`lastiv, ctr`unused, ctr`blocks, text`iv, text`unused, text`data, text.macbuf, outbuf
    ensures text.Open() && |o| == n && outbuf[..] == Splice(old(outbuf[..]), op, o)
    ensures text.data == old(text.data) + if decrypt then x else o
    ensures ctr.At(stale, pos + n) && ctr.cipher.Valid() && |ctr.ctr0| == ctr.cipher.bs
    ensures o == LateCrypt(ctr.cipher, ctr.ctr0, stale, pos, x)
  {
    hide M.Context.Open, Ctr.State.At, Splice, LateCrypt, Ctr.State.Out, Ctr.State.Saved;
    if decrypt {
      Absorb(text, inbuf[ip..ip + n]);
      o := Chunk(ctr, outbuf, op, outbuflen, inbuf, ip, n, x, stale, pos);
    } else {
      o := Chunk(ctr, outbuf, op, outbuflen, inbuf, ip, n, x, stale, pos);
      Absorb(text, outbuf[op..op + n]);
    }
  }

  /** What holds of the chunks so far holds with one more. */
  lemma Grown(k: Cipher, ctr0: seq<byte>, stale: seq<byte>, pos: nat, data: seq<byte>, i: nat, j: nat,
              out: seq<byte>, o: seq<byte>, out0: seq<byte>, op: nat, t0: seq<byte>, decrypt: bool)
    requires k.Valid() && |ctr0| == k.bs && i <= j <= |data| && |out| == i && |o| == j - i && op + j <= |out0|
    requires out == LateCrypt(k, ctr0, stale, pos, data[..i]) && o == LateCrypt(k, ctr0, stale, pos + i, data[i..j])
    ensures out + o == LateCrypt(k, ctr0, stale, pos, data[..j])
    ensures Splice(Splice(out0, op, out), op + i, o) == Splice(out0, op, out + o)
    ensures t0 + (if decrypt then data[..i] else out) + (if decrypt then data[i..j] else o)
         == t0 + if decrypt then data[..j] else out + o
  {
    hide Splice, LateCrypt;
    assert data[..i] + data[i..j] == data[..j];
    SpliceMore(out0, op, out, o);
    ConcatAssociates(t0, if decrypt then data[..i] else out, if decrypt then data[i..j] else o);
    LateConcat(k, ctr0, stale, pos, data[..i], data[i..j]);
  }

  /** A chunk goes to the MAC. */
  method Absorb(text: M.Context, x: seq<byte>)
    requires text.Open() && |x| < 0x1_0000_0000
    modifies text`iv, text`unused, text`data, text.macbuf
    ensures text.Open() && text.data == old(text.data) + x
  {
    hide M.Context.Open, M.Taken;
    text.TakenWhole(x);
    text.NotTagged();
    var done := text.Write(x);
  }

  /** A chunk goes through counter mode. */
  method Chunk(ctr: Ctr.State, outbuf: array<byte>, op: nat, outbuflen: nat, inbuf: array<byte>, ip: nat, n: nat,
               ghost x: seq<byte>, ghost stale: seq<byte>, ghost pos: nat) returns (ghost o: seq<byte>)
    requires Separate(outbuf, op, inbuf, ip) && op + outbuflen <= outbuf.Length && ip + n <= inbuf.Length
    requires n <= outbuflen && x == inbuf[ip..ip + n] && ctr.At(stale, pos)
    modifies ctr`ctr, ctr`lastiv, ctr`unused, ctr`blocks, outbuf
    ensures |o| == n && outbuf[..] == Splice(old(outbuf[..]), op, o) && outbuf[op..op + n] == o
    ensures ctr.At(stale, pos + n) && ctr.cipher.Valid() && |ctr.ctr0| == ctr.cipher.bs
    ensures o == LateCrypt(ctr.cipher, ctr.ctr0, stale, pos, x)
  {
    hide Ctr.State.At, Splice, LateCrypt, Ctr.State.Out, Ctr.State.Saved;
    ghost var out0 := outbuf[..];
    var st;
    st, o := ctr.EncryptFrom(outbuf, op, outbuflen, inbuf, ip, n, stale, pos);
    SpliceSlices(out0, op, o);
    assert outbuf[op..op + n] == outbuf[..][op..op + n];
  }

  // ---- both directions ----

  /** Two handles with the same key, nonce and ciphertext hold the same message, whichever way each
      obtained it and in whatever calls, if neither began with key stream of an earlier message; with
      the same associated data they have the same tag.  What they hold is the seal of that message. */
  lemma OpenUndoesSeal(e: Handle, d: Handle)
    requires e.Valid() && d.Valid() && e.marksIv && d.marksIv && e.cipher == d.cipher
    requires e.log.nonce == d.log.nonce && e.log.stale == d.log.stale == [] && e.log.sealed == d.log.sealed
    ensures e.log.msg == d.log.msg
    ensures e.log.sealed == Seal(e.cipher, e.log.nonce, e.log.aad, e.log.msg).text
    ensures e.marksTag ==> e.iv == Seal(e.cipher, e.log.nonce, e.log.aad, e.log.msg).tag
    ensures e.marksTag && d.marksTag && e.log.aad == d.log.aad ==> e.iv == d.iv
  {
    hide S.K1, S.K2, S.Cmac, M.Context.Open, Ctr.State.At, Tweak, LateCrypt, CtrCrypt, Omac, Tag;
    var n := Omac(e.cipher, 0, e.log.nonce);
    LateTwice(e.cipher, n, [], 0, e.log.msg);
    LateTwice(d.cipher, n, [], 0, d.log.msg);
    LateIsCtr(e.cipher, n, [], 0, e.log.msg);
  }

  // ---- key stream of an earlier message ----

  /** What a handle holds for its next set_nonce is what its messages leave. */
  lemma SavedIs(h: Handle)
    requires h.Valid()
    ensures h.ctr.Loose() && h.cipher.Valid() && h.ctr.Saved() == SavedAfter(h.cipher, h.Past())
  {
    hide Omac, Tag, KeyStream, S.K1, S.K2, M.Context.Open, LateCrypt, Ctr.State.At, Ctr.State.Loose, Ctr.State.Saved;
    if h.marksIv {
      assert h.Past()[..|h.log.past|] == h.log.past;
      h.ctr.SavedAt(h.log.stale, |h.log.msg|);
    }
  }

  /** Octets of all messages. */
  function Total(past: seq<Message>): nat {
    if past == [] then 0 else Total(past[..|past| - 1]) + past[|past| - 1].len
  }

  /** How much is saved: what the octets of all messages together lack of whole blocks. */
  lemma {:induction false} SavedLength(k: Cipher, past: seq<Message>)
    requires k.Valid()
    ensures |SavedAfter(k, past)| == (k.bs - Total(past) % k.bs) % k.bs
    ensures SavedAfter(k, past) == [] <==> Total(past) % k.bs == 0
  {
    hide Omac, KeyStream;
    var bs := k.bs;
    LeftNothing(bs, Total(past));
    if past == [] {
      DivModUnique(0, bs, 0, 0);
    } else {
      var before, m := past[..|past| - 1], past[|past| - 1];
      assert SavedAfter(k, past) == Rest(k, m, SavedAfter(k, before)) && Total(past) == Total(before) + m.len;
      hide Rest, SavedAfter, Total;
      SavedLength(k, before);
      RestLength(k, m, SavedAfter(k, before));
      LeftAdds(bs, Total(before), m.len);
    }
  }

  lemma RestLength(k: Cipher, m: Message, stale: seq<byte>)
    requires k.Valid()
    ensures |Rest(k, m, stale)|
         == if m.len < |stale| then |stale| - m.len else (k.bs - (m.len - |stale|) % k.bs) % k.bs
  {
    hide Omac, KeyStream;
  }

  /** What is lacking after n more octets. */
  lemma LeftAdds(bs: nat, t: nat, n: nat)
    requires bs > 0
    ensures var s := (bs - t % bs) % bs;
            (bs - (t + n) % bs) % bs == if n < s then s - n else (bs - (n - s) % bs) % bs
  {
    DivMod(t, bs);
    var q, r := t / bs, t % bs;
    if r == 0 {
      DivModUnique(bs, bs, 1, 0);
      SumMod(t, n, bs);
    } else {
      var s := bs - r;
      DivModUnique(s, bs, 0, s);
      if n < s {
        DivModUnique(t + n, bs, q, r + n);
        DivModUnique(s - n, bs, 0, s - n);
      } else {
        Distribute(bs, q, 1);
        DivMod(n - s, bs);
        Distribute(bs, q + 1, (n - s) / bs);
        DivModUnique(t + n, bs, q + 1 + (n - s) / bs, (n - s) % bs);
      }
    }
  }

  lemma LeftNothing(bs: nat, n: nat)
    requires bs > 0
    ensures (bs - n % bs) % bs == 0 <==> n % bs == 0
  {
    DivMod(n, bs);
    if n % bs == 0 {
      DivModUnique(bs, bs, 1, 0);
    } else {
      DivModUnique(bs - n % bs, bs, 0, bs - n % bs);
    }
  }

  /** Under the identity permutation the MAC of a block is the block. */
  lemma OmacIdentity(bs: nat, nonce: seq<byte>)
    requires bs > 0 && |nonce| == bs
    ensures Identity(bs).Valid() && Omac(Identity(bs), 0, nonce) == nonce
  {
    hide Xor, S.DoubleOctets, B.LastStart, B.AllButLast;
    IdentityValid(bs);
    var k, z := Identity(bs), ZeroBytes(bs);
    assert Tweak(bs, 0) == z;
    TwoBlocks(bs);
    OneBlock(bs);
    XorZero(z);
    XorZero(nonce);
    S.DoubleZero(bs);
    var data := z + nonce;
    assert data[..bs] == z && data[bs..] == nonce;
    assert z[..0] == [] && z[0..] == z;
    assert S.CbcChain(k, []) == z;
    assert S.CbcChain(k, z) == z;
    assert S.K1(k) == z;
    assert S.LastMasked(k, nonce) == nonce;
    assert S.Cmac(k, data) == Xor(z, nonce);
  }

  lemma TwoBlocks(bs: nat)
    requires bs > 0
    ensures B.LastStart(bs, bs + bs) == bs
  {
    DivModUnique(bs + bs, bs, 2, 0);
    DivModUnique(bs + bs - 1, bs, 1, bs - 1);
  }

  lemma OneBlock(bs: nat)
    requires bs > 0
    ensures bs % bs == 0 && B.AllButLast(bs, bs) == 0
  {
    DivModUnique(bs, bs, 1, 0);
  }

  /** The first octets that come out for zeros: the first saved one, or the first of the nonce's MAC. */
  lemma FirstOctets(bs: nat, nonce: seq<byte>, stale: seq<byte>, data: seq<byte>)
    requires bs > 0 && |nonce| == bs && |stale| > 0 && |data| > 0 && data[0] == 0
    ensures Identity(bs).Valid() && Omac(Identity(bs), 0, nonce) == nonce
    ensures LateCrypt(Identity(bs), nonce, stale, 0, data)[0] == stale[0]
    ensures CtrCrypt(Identity(bs), nonce, 0, data)[0] == nonce[0]
  {
    hide Omac, AddBE, XorByte;
    OmacIdentity(bs, nonce);
    AddZero(nonce);
    XorByteLaws(stale[0], 0, 0);
    XorByteLaws(0, stale[0], 0);
    XorByteLaws(nonce[0], 0, 0);
    XorByteLaws(0, nonce[0], 0);
    DivModUnique(0, bs, 0, 0);
  }

  // ---- the tweaks ----

  /** The number t in one block, most significant octet first. */
  lemma TweakNumber(bs: nat, t: byte)
    requires bs > 0
    ensures BigEndian(Tweak(bs, t)) == Val(t)
  {
    hide Val;
    assert Tweak(bs, t)[..bs - 1] == ZeroBytes(bs - 1);
    NoNumber(bs - 1);
  }

  lemma {:induction false} NoNumber(n: nat)
    ensures BigEndian(ZeroBytes(n)) == 0
  {
    if n > 0 {
      assert ZeroBytes(n)[..n - 1] == ZeroBytes(n - 1);
      NoNumber(n - 1);
    }
  }

  /** The tag by blocks: nonce, header and ciphertext after the numbers 0, 1 and 2, here of one block each. */
  lemma TagOfBlocks(k: Cipher, n: seq<byte>, a: seq<byte>, c: seq<byte>)
    requires k.Valid() && k.bs == 16 == |n| == |a| == |c|
    ensures var l := S.DoubleOctets(k.enc(ZeroBytes(16)));
            Tag(k, n, a, c) == Xor(Xor(k.enc(Xor(k.enc(ZeroBytes(15) + [0]), Xor(n, l))),
                                       k.enc(Xor(k.enc(ZeroBytes(15) + [1]), Xor(a, l)))),
                                   k.enc(Xor(k.enc(ZeroBytes(15) + [2]), Xor(c, l))))
  {
    hide S.Cmac, S.DoubleOctets, Xor;
    S.TwoBlockMac(k, ZeroBytes(15) + [0], n);
    S.TwoBlockMac(k, ZeroBytes(15) + [1], a);
    S.TwoBlockMac(k, ZeroBytes(15) + [2], c);
  }

  /** The tag of nothing, when enciphering changes nothing. */
  lemma EmptyTag()
    ensures Identity(16).Valid() && Tag(Identity(16), [], [], []) == ZeroBytes(15) + [3]
  {
    hide S.Cmac, S.DoubleOctets, XorByte;
    IdentityValid(16);
    EmptyOmac(0);
    EmptyOmac(1);
    EmptyOmac(2);
    XorThree();
  }

  lemma XorThree()
    ensures XorByte(XorByte(0, 0), 0) == 0 && XorByte(XorByte(0, 1), 2) == 3
  {
  }

  lemma EmptyOmac(t: byte)
    ensures Identity(16).Valid() && Omac(Identity(16), t, []) == ZeroBytes(15) + [t]
  {
    hide Xor, S.DoubleOctets, S.CbcChain;
    IdentityValid(16);
    var k, b := Identity(16), Tweak(16, t);
    S.DoubleZero(16);
    assert b + [] == b;
    B.LastStartIs(16, 16, 0);
    assert b[..0] == [] && b[0..] == b;
    assert S.CbcChain(k, []) == ZeroBytes(16) by {
      S.NothingChained(k);
    }
    XorZero(b);
  }

  /** Messages of the given lengths. */
  ghost predicate HasLengths(past: seq<Message>, lens: seq<nat>) {
    |past| == |lens| && forall i :: 0 <= i < |lens| ==> past[i].len == lens[i]
  }

  function Sum(lens: seq<nat>): nat {
    if lens == [] then 0 else Sum(lens[..|lens| - 1]) + lens[|lens| - 1]
  }

  lemma {:induction false} TotalIsSum(past: seq<Message>, lens: seq<nat>)
    requires HasLengths(past, lens)
    ensures Total(past) == Sum(lens)
  {
    if lens != [] {
      TotalIsSum(past[..|past| - 1], lens[..|lens| - 1]);
    }
  }

  /** The next message of a handle comes out as EAX says. */
  ghost predicate NextIsEax(k: Cipher, past: seq<Message>, nonce: seq<byte>, data: seq<byte>)
    requires k.Valid()
  {
    LateCrypt(k, Omac(k, 0, nonce), SavedAfter(k, past), 0, data) == CtrCrypt(k, Omac(k, 0, nonce), 0, data)
  }

  /** A cipher, nonces and data for which the next message is not EAX. */
  lemma StaleWrong(bs: nat, lens: seq<nat>, n: nat) returns (k: Cipher, past: seq<Message>, nonce: seq<byte>, data: seq<byte>)
    requires bs > 0 && Sum(lens) % bs != 0 && n > 0
    ensures k.Valid() && k.bs == bs && |data| == n && HasLengths(past, lens)
    ensures !NextIsEax(k, past, nonce, data)
  {
    hide Omac, LateCrypt, CtrCrypt, SavedAfter;
    k, data := Identity(bs), ZeroBytes(n);
    past := seq(|lens|, i requires 0 <= i < |lens| => Message(ZeroBytes(bs), lens[i]));
    IdentityValid(bs);
    TotalIsSum(past, lens);
    SavedLength(k, past);
    var stale := SavedAfter(k, past);
    nonce := [if stale[0] == 0 then 1 else 0] + ZeroBytes(bs - 1);
    FirstOctets(bs, nonce, stale, data);
  }

  /** For the lengths of the messages of a handle and of the next one: the next is EAX for every
      cipher, nonces and data if and only if the octets so far make whole blocks, or it is empty. */
  lemma StaleExact(bs: nat, lens: seq<nat>, n: nat)
    requires bs > 0
    ensures (forall k: Cipher, past: seq<Message>, nonce: seq<byte>, data: seq<byte> ::
               k.Valid() && k.bs == bs && HasLengths(past, lens) && |data| == n ==> NextIsEax(k, past, nonce, data))
       <==> Sum(lens) % bs == 0 || n == 0
  {
    hide Omac, KeyStream, LateCrypt, CtrCrypt, SavedAfter, NextIsEax, HasLengths;
    if Sum(lens) % bs != 0 && n > 0 {
      var k, past, nonce, data := StaleWrong(bs, lens, n);
    } else {
      forall k: Cipher, past: seq<Message>, nonce: seq<byte>, data: seq<byte>
        | k.Valid() && k.bs == bs && HasLengths(past, lens) && |data| == n
        ensures NextIsEax(k, past, nonce, data)
      {
        TotalIsSum(past, lens);
        StaleRight(k, past, nonce, data);
      }
    }
  }

  lemma StaleRight(k: Cipher, past: seq<Message>, nonce: seq<byte>, data: seq<byte>)
    requires k.Valid() && (Total(past) % k.bs == 0 || data == [])
    ensures NextIsEax(k, past, nonce, data)
  {
    hide Omac, KeyStream, LateCrypt, CtrCrypt, SavedAfter;
    SavedLength(k, past);
    if data == [] {
      Ctr.NoData(k, Omac(k, 0, nonce), 0);
      Ctr.NoLateData(k, Omac(k, 0, nonce), SavedAfter(k, past), 0);
    } else {
      LateIsCtr(k, Omac(k, 0, nonce), [], 0, data);
    }
  }

  /** A handle holds no key stream for its next set_nonce if and only if the octets of all its messages
      together make whole blocks. */
  lemma SavedNothing(h: Handle)
    requires h.Valid()
    ensures h.ctr.unused == 0 <==> Total(h.Past()) % h.cipher.bs == 0
  {
    hide Omac, Tag, AddBE, KeyByte, KeyStream, S.K1, S.K2, M.Context.Open, LateCrypt, SavedAfter, Ctr.State.At;
    SavedIs(h);
    SavedLength(h.cipher, h.Past());
  }

  // ---- runs that go wrong ----

  /** The octets saved after one octet under the block of zeros, and after sixteen more. */
  lemma SavedExample()
    ensures Identity(16).Valid()
    ensures var m, n := Message(ZeroBytes(16), 1), Message(ZeroBytes(16), 16);
            && |SavedAfter(Identity(16), [m])| == |SavedAfter(Identity(16), [m, n])| == 15
            && SavedAfter(Identity(16), [m])[0] == SavedAfter(Identity(16), [m, n])[0] == 0
  {
    hide Omac, AddBE;
    OmacIdentity(16, ZeroBytes(16));
    AddZero(ZeroBytes(16));
    var m, n := Message(ZeroBytes(16), 1), Message(ZeroBytes(16), 16);
    assert [m][..0] == [] && [m, n][..1] == [m];
    assert SavedAfter(Identity(16), []) == [];
  }

  /** What one octet then gives, and what EAX has. */
  lemma NextExample(stale: seq<byte>, out: seq<byte>)
    requires Identity(16).Valid() && |stale| > 0 && stale[0] == 0
    requires out == LateCrypt(Identity(16), Omac(Identity(16), 0, [1] + ZeroBytes(15)), stale, 0, [0])
    ensures out != Seal(Identity(16), [1] + ZeroBytes(15), [], [0]).text
  {
    hide Omac, LateCrypt, CtrCrypt, Tag;
    FirstOctets(16, [1] + ZeroBytes(15), stale, [0]);
  }

  /** A message of n zeros under a nonce, on a handle that may have processed others. */
  method OneMessage(h: Handle, nonce: seq<byte>, text: array<byte>, n: nat)
    requires h.Valid() && !h.header.bulk && h.cipher.bs == 16 && h.Apart(text, text)
    requires n <= text.Length && (forall i :: 0 <= i < n ==> text[i] == 0)
    modifies h, h.ctr, h.header, h.header.macbuf, h.text, h.text.macbuf, text
    ensures h.Valid() && h.marksIv && h.log.past == old(h.Past()) && h.log.nonce == nonce && h.log.msg == ZeroBytes(n)
    ensures h.log.stale == SavedAfter(h.cipher, old(h.Past()))
    ensures h.log.sealed == LateCrypt(h.cipher, Omac(h.cipher, 0, nonce), h.log.stale, 0, ZeroBytes(n))
  {
    hide Omac, Tag, S.K1, S.K2, M.Context.Open, Ctr.State.At, Ctr.State.Saved, Ctr.State.Loose, LateCrypt, Splice, SavedAfter;
    SavedIs(h);
    h.SetNonce(nonce);
    assert text[0..n] == ZeroBytes(n);
    ghost var out;
    var st;
    st, out := h.Crypt(false, text, 0, n, text, 0, n, ZeroBytes(n));
    assert [] + out == out && [] + ZeroBytes(n) == ZeroBytes(n);
  }

  /** One octet under one nonce, then one octet under another. */
  method StaleRun() returns (h: Handle)
    ensures h.Valid() && fresh(h) && h.cipher == Identity(16) && h.cipher.Valid() && h.marksIv
    ensures h.log.nonce == [1] + ZeroBytes(15) && h.log.msg == [0] && |h.log.stale| == 15
    ensures h.log.sealed != Seal(Identity(16), h.log.nonce, [], [0]).text
  {
    hide Omac, Tag, Handle.Valid, LateCrypt, CtrCrypt, SavedAfter, Seal;
    SavedExample();
    h := new Handle(Identity(16), false);
    var text := new byte[1](i => 0);
    OneMessage(h, ZeroBytes(16), text, 1);
    assert h.Past() == [Message(ZeroBytes(16), 1)];
    text := new byte[1](i => 0);
    OneMessage(h, [1] + ZeroBytes(15), text, 1);
    assert ZeroBytes(1) == [0];
    NextExample(h.log.stale, h.log.sealed);
  }

  /** A message of one whole block between them does not help: it leaves as much saved as it found. */
  method StaleRunOfThree() returns (h: Handle)
    ensures h.Valid() && fresh(h) && h.cipher == Identity(16) && h.cipher.Valid() && h.marksIv
    ensures h.log.past == [Message(ZeroBytes(16), 1), Message(ZeroBytes(16), 16)]
    ensures h.log.nonce == [1] + ZeroBytes(15) && h.log.msg == [0] && |h.log.stale| == 15
    ensures h.log.sealed != Seal(Identity(16), h.log.nonce, [], [0]).text
  {
    hide Omac, Tag, Handle.Valid, LateCrypt, CtrCrypt, SavedAfter, Seal;
    SavedExample();
    h := new Handle(Identity(16), false);
    var text := new byte[1](i => 0);
    OneMessage(h, ZeroBytes(16), text, 1);
    assert h.Past() == [Message(ZeroBytes(16), 1)];
    text := new byte[16](i => 0);
    OneMessage(h, ZeroBytes(16), text, 16);
    assert h.Past() == [Message(ZeroBytes(16), 1), Message(ZeroBytes(16), 16)];
    text := new byte[1](i => 0);
    OneMessage(h, [1] + ZeroBytes(15), text, 1);
    assert ZeroBytes(1) == [0];
    NextExample(h.log.stale, h.log.sealed);
  }
}
