/** cipher-ccm.c: the CCM handle as a state machine over set_lengths, authenticate, encrypt or
    decrypt, and tag, for any split of the associated data and the message into calls. */
module Ccm {
  import opened Bytes
  import opened CipherBlock
  import opened CbcMac
  import opened CcmPadding
  import opened Counter
  import opened Rfc3610
  import Ctr

  datatype Status = Ok | InvState | InvLength | BufferTooShort | Unfinished | BadTag

  /** What a handle has been given since set_lengths: associated data, plaintext, ciphertext, the
      declared lengths, and the lengths the message had at empty authenticate calls that padded it. */
  datatype Log = Log(aad: seq<byte>, msg: seq<byte>, sealed: seq<byte>, aadTotal: nat, msgTotal: nat, cuts: seq<nat>)

  /** The values of a handle after set_lengths. */
  datatype Session = Session(authlen: nat, aadlen: nat, encryptlen: nat, marksTag: bool, s0: Block, tag: Block, log: Log)

  /** What the MAC has been fed. */
  ghost function MacSoFar(nonce: seq<byte>, s: Session): seq<byte>
    requires NonceOk(nonce) && TagOk(s.authlen) && Cuts(s.log.cuts, |s.log.msg|)
  {
    var h := Header(nonce, s.authlen, s.log.aadTotal, s.log.msgTotal) + s.log.aad;
    if s.aadlen > 0 then h else PadZero(h) + Filled(s.log.msg, s.log.cuts)
  }

  ghost predicate Good(k: Cipher, nonce: seq<byte>, s: Session, fed: seq<byte>, ctr0: seq<byte>, pos: nat)
    requires k.Valid() && k.bs == 16 && NonceOk(nonce)
  {
    && TagOk(s.authlen) && s.s0 == k.enc(CounterBlock(nonce, 0)) && ctr0 == CounterBlock(nonce, 1)
    && s.aadlen + |s.log.aad| == s.log.aadTotal && s.encryptlen + |s.log.msg| == s.log.msgTotal
    && pos == |s.log.msg| && s.log.sealed == CtrCrypt(k, CounterBlock(nonce, 1), 0, s.log.msg)
    && Cuts(s.log.cuts, |s.log.msg|) && (s.aadlen > 0 ==> s.log.msg == [] && s.log.cuts == [])
    && (s.marksTag ==> s.aadlen == 0 && s.encryptlen == 0)
    && (!s.marksTag ==> fed == MacSoFar(nonce, s))
    && (s.marksTag ==> s.tag == Xor(Chain(k, MacFed(nonce, s.authlen, s.log.aad, s.log.msg, s.log.cuts)), s.s0))
  }

  class Handle {
    const cipher: Cipher
    const nonce: seq<byte>
    const mac: Mac
    const ctr: Ctr.State
    var authlen: nat
    var encryptlen: nat
    var aadlen: nat
    var lengths: bool
    var marksTag: bool
    var s0: Block
    var tag: Block
    ghost var log: Log

    ghost predicate Parts()
      reads this, mac, mac.macbuf, ctr
    {
      && mac.Valid() && ctr.Valid() && mac.cipher == cipher == ctr.cipher && cipher.bs == 16 && NonceOk(nonce)
      && cipher.Valid()
    }

    ghost function View(): Session
      reads this
    {
      Session(authlen, aadlen, encryptlen, marksTag, s0, tag, log)
    }

    ghost predicate Valid()
      reads this, mac, mac.macbuf, ctr
    {
      && Parts()
      && (!lengths ==> !marksTag && mac.Fed() == [] && ctr.Position() == 0 && ctr.ctr0 == CounterBlock(nonce, 0))
      && (lengths ==> Good(cipher, nonce, View(), mac.Fed(), ctr.ctr0, ctr.Position()))
    }

    /** _gcry_cipher_ccm_set_nonce, for a nonce of an acceptable length. */
    constructor (cipher: Cipher, nonce: seq<byte>)
      requires cipher.Valid() && cipher.bs == 16 && NonceOk(nonce)
      ensures Valid() && !lengths && this.cipher == cipher && this.nonce == nonce
      ensures fresh(mac) && fresh(mac.macbuf) && fresh(ctr)
    {
      var m := new Mac(cipher);
      var c := new Ctr.State(cipher, [Octet(15 - |nonce| - 1)] + nonce + ToBigEndian(0, 15 - |nonce|));
      this.cipher, this.nonce, mac, ctr := cipher, nonce, m, c;
      authlen, encryptlen, aadlen, lengths, marksTag := 0, 0, 0, false, false;
      s0, tag := ZeroBytes(16), ZeroBytes(16);
      log := Log([], [], [], 0, 0, []);
    }

    method SetLengths(encryptlen: nat, aadlen: nat, taglen: nat) returns (st: Status)
      requires Valid() && encryptlen < 0x1_0000_0000_0000_0000 && aadlen < 0x1_0000_0000_0000_0000
      modifies this, mac, mac.macbuf, ctr
      ensures Valid()
      ensures st == if !TagOk(taglen) then InvLength else if old(marksTag) || old(lengths) then InvState else Ok
      ensures st == Ok ==> lengths
      ensures st == Ok ==> View() == Session(taglen, aadlen, encryptlen, false, s0, tag, Log([], [], [], aadlen, encryptlen, []))
      ensures st != Ok ==> unchanged(this) && unchanged(mac) && unchanged(ctr)
    {
      hide Parts, Mac.Fed, Mac.Valid, Ctr.State.Valid, Ctr.State.Position, Good;
      // M' = (M - 2) / 2 in unsigned arithmetic: M = 0 or 1 wraps and is refused with the rest
      if taglen < 4 || taglen > 16 || (taglen - 2) / 2 * 2 + 2 != taglen {
        return InvLength;
      }
      if marksTag || lengths {
        return InvState;
      }
      Begin(encryptlen, aadlen, taglen);
      return Ok;
    }

    method Begin(encryptlen: nat, aadlen: nat, taglen: nat)
      requires Valid() && !lengths && TagOk(taglen)
      requires encryptlen < 0x1_0000_0000_0000_0000 && aadlen < 0x1_0000_0000_0000_0000
      modifies this, mac, mac.macbuf, ctr
      ensures Valid() && lengths
      ensures View() == Session(taglen, aadlen, encryptlen, false, s0, tag, Log([], [], [], aadlen, encryptlen, []))
    {
      hide Chain, AddBE, KeyStream, CounterBlock, B0, AadPrefix, Good, Mac.Fed, Mac.Valid, Ctr.State.Valid, Ctr.State.Position;
      var b0 := MakeB0(nonce, taglen, aadlen, encryptlen);
      var prefix := LengthPrefix(aadlen);
      StartMac(b0, prefix);
      var s := cipher.enc(ctr.ctr);
      CtrAtStart();
      BumpCounter();
      Begun(cipher, nonce, Session(taglen, aadlen, encryptlen, false, s, tag, Log([], [], [], aadlen, encryptlen, [])));
      authlen := taglen;
      this.encryptlen, this.aadlen := encryptlen, aadlen;
      s0 := s;
      lengths := true;
      log := Log([], [], [], aadlen, encryptlen, []);
    }

    method StartMac(b0: Block, prefix: seq<byte>)
      requires mac.Valid() && mac.Fed() == []
      modifies mac, mac.macbuf
      ensures mac.Valid() && mac.Fed() == b0 + prefix
    {
      hide Chain;
      mac.Feed(b0, false);
      mac.Feed(prefix, false);
    }

    /** Every octet of AAD goes to the MAC; the call that gives the last one pads.  So does an empty
        call later on, even in the middle of the message; its place is noted in the log. */
    method Authenticate(abuf: seq<byte>) returns (st: Status)
      requires Valid()
      modifies this`aadlen, this`log, mac, mac.macbuf
      ensures Valid()
      ensures st == if !lengths || marksTag then InvState else if |abuf| > old(aadlen) then InvLength else Ok
      ensures st == Ok ==> aadlen == old(aadlen) - |abuf|
      ensures st == Ok ==> log == AfterAad(old(log), old(aadlen), abuf)
      ensures st != Ok ==> unchanged(this) && unchanged(mac) && unchanged(mac.macbuf)
    {
      hide Chain, Good, Mac.Fed, Mac.Valid, Ctr.State.Valid, Ctr.State.Position, PadZero, AfterAad;
      if !lengths || marksTag {
        return InvState;
      }
      if |abuf| > aadlen {
        return InvLength;
      }
      AadStep(cipher, nonce, View(), mac.Fed(), ctr.ctr0, ctr.Position(), abuf);
      mac.Feed(abuf, aadlen - |abuf| == 0);
      FedWhole();
      log := AfterAad(log, aadlen, abuf);
      aadlen := aadlen - |abuf|;
      return Ok;
    }

    lemma FedWhole()
      requires mac.Valid()
      ensures mac.unused == 0 ==> mac.Fed() == mac.full
    {
    }

    /** One chunk: the plaintext goes to the MAC, before encryption or after decryption. */
    method CryptChunk(encrypt: bool, outbuf: array<byte>, op: nat, inbuf: array<byte>, ip: nat, n: nat)
      requires Valid() && lengths && !marksTag && aadlen == 0 && n <= encryptlen
      requires op + n <= outbuf.Length && ip + n <= inbuf.Length && Separate(outbuf, op, inbuf, ip)
      requires outbuf != mac.macbuf && inbuf != mac.macbuf
      modifies this`encryptlen, this`log, mac, mac.macbuf, ctr`ctr, ctr`lastiv, ctr`unused, ctr`blocks, outbuf
      ensures Valid() && encryptlen == old(encryptlen) - n
      ensures log == AfterData(old(log), encrypt, old(inbuf[ip..ip + n]), OutData(cipher, nonce, old(log), old(inbuf[ip..ip + n])))
      ensures outbuf[..] == Splice(old(outbuf[..]), op, OutData(cipher, nonce, old(log), old(inbuf[ip..ip + n])))
    {
      hide Chain, Good, Mac.Fed, Mac.Valid, Ctr.State.Valid, Ctr.State.Position, Splice, CtrCrypt, AfterData;
      ghost var input := inbuf[ip..ip + n];
      ghost var out0 := outbuf[..];
      ghost var out := OutData(cipher, nonce, log, input);
      DataStep(cipher, nonce, View(), mac.Fed(), ctr.ctr0, ctr.Position(), encrypt, input);
      if encrypt {
        mac.Feed(inbuf[ip..ip + n], false);
        var st := ctr.Encrypt(outbuf, op, n, inbuf, ip, n);
      } else {
        var st := ctr.Encrypt(outbuf, op, n, inbuf, ip, n);
        SpliceSlices(out0, op, out);
        assert outbuf[op..op + n] == outbuf[..][op..op + n];
        mac.Feed(outbuf[op..op + n], false);
      }
      log := AfterData(log, encrypt, input, out);
      encryptlen := encryptlen - n;
    }

    /** _gcry_cipher_ccm_encrypt and _gcry_cipher_ccm_decrypt: chunks of 24 KiB while more than
        32 KiB remain. */
    method Crypt(encrypt: bool, outbuf: array<byte>, op: nat, outbuflen: nat, inbuf: array<byte>, ip: nat, inbuflen: nat)
        returns (st: Status)
      requires Valid() && op + outbuflen <= outbuf.Length && ip + inbuflen <= inbuf.Length
      requires Separate(outbuf, op, inbuf, ip) && outbuf != mac.macbuf && inbuf != mac.macbuf
      modifies this`encryptlen, this`log, mac, mac.macbuf, ctr`ctr, ctr`lastiv, ctr`unused, ctr`blocks, outbuf
      ensures Valid()
      ensures st == if outbuflen < inbuflen then BufferTooShort
                    else if marksTag || !lengths || aadlen > 0 then InvState
                    else if inbuflen > old(encryptlen) then InvLength
                    else Ok
      ensures st != Ok ==> unchanged(this) && unchanged(mac) && unchanged(ctr) && unchanged(outbuf)
      ensures st == Ok ==> encryptlen == old(encryptlen) - inbuflen
      ensures st == Ok ==> outbuf[..] == Splice(old(outbuf[..]), op, OutData(cipher, nonce, old(log), old(inbuf[ip..ip + inbuflen])))
      ensures st == Ok ==> log == AfterData(old(log), encrypt, old(inbuf[ip..ip + inbuflen]),
                                            OutData(cipher, nonce, old(log), old(inbuf[ip..ip + inbuflen])))
    {
      hide Chain, Good, Mac.Fed, Mac.Valid, Ctr.State.Valid, Ctr.State.Position, Splice, OutData, AfterData, View;
      if outbuflen < inbuflen {
        return BufferTooShort;
      }
      if marksTag || !lengths || aadlen > 0 {
        return InvState;
      }
      if inbuflen > encryptlen {
        return InvLength;
      }
      ghost var in0, out0, log0 := inbuf[..], outbuf[..], log;
      assert inbuf[ip..ip + inbuflen] == in0[ip..ip + inbuflen];
      ghost var done := [];
      var o, i, left := op, ip, inbuflen;
      SpliceNothing(out0, op);
      NoOutData(cipher, nonce, log0, encrypt);
      assert in0[ip..ip] == [];
      while left > 0
        invariant 0 <= left && i + left == ip + inbuflen && i >= ip && o - op == i - ip == |done|
        invariant Valid() && encryptlen + (i - ip) == old(encryptlen) && left <= encryptlen
        invariant done == OutData(cipher, nonce, log0, in0[ip..i]) && log == AfterData(log0, encrypt, in0[ip..i], done)
        invariant outbuf[..] == Splice(out0, op, done) && (inbuf != outbuf ==> inbuf[..] == in0)
      {
        var currlen := left;
        if currlen > 32 * 1024 {
          currlen := 24 * 1024;
        }
        ReadAhead(outbuf, out0, op, done, inbuf, in0, i, currlen);
        ghost var more := OutData(cipher, nonce, log, in0[i..i + currlen]);
        MoreData(cipher, nonce, log0, encrypt, in0[ip..i], in0[i..i + currlen]);
        assert in0[ip..i] + in0[i..i + currlen] == in0[ip..i + currlen];
        SpliceMore(out0, op, done, more);
        CryptChunk(encrypt, outbuf, o, inbuf, i, currlen);
        done := done + more;
        o := o + currlen;
        i := i + currlen;
        left := left - currlen;
      }
      return Ok;
    }

    /** The tag of what the MAC has been given, and the one of RFC 3610. */
    ghost function Computed(): seq<byte>
      requires Valid() && lengths
      reads this, mac, mac.macbuf, ctr
    {
      TagValue(cipher, nonce, authlen, log.aad, log.msg, log.cuts)
    }

    ghost function Specified(): seq<byte>
      requires Valid() && lengths
      reads this, mac, mac.macbuf, ctr
    {
      AuthValue(cipher, nonce, authlen, log.aad, log.msg)
    }

    /** _gcry_cipher_ccm_tag: the last padding, then S_0 is added.  The result is kept for later calls. */
    method GetTag(outbuflen: nat) returns (st: Status, outtag: seq<byte>)
      requires Valid() && outbuflen > 0
      modifies this`marksTag, this`tag, mac, mac.macbuf
      ensures Valid()
      ensures st == if authlen != outbuflen then InvLength
                    else if !lengths || aadlen > 0 then InvState
                    else if encryptlen > 0 then Unfinished
                    else Ok
      ensures st == Ok ==> outtag == Computed() && (!Early(log.cuts, |log.msg|) ==> outtag == Specified())
      ensures st == Ok ==> marksTag && outtag == tag[..authlen] && |outtag| == authlen
      ensures st == Ok && old(marksTag) ==> tag == old(tag)
      ensures st != Ok ==> unchanged(this) && unchanged(mac) && unchanged(mac.macbuf)
    {
      hide Chain, Good, Mac.Fed, Ctr.State.Valid, Ctr.State.Position, PadZero, Early, TagValue, AuthValue;
      outtag := [];
      if authlen != outbuflen {
        return InvLength, outtag;
      }
      if !lengths || aadlen > 0 {
        return InvState, outtag;
      }
      if encryptlen > 0 {
        return Unfinished, outtag;
      }
      if !marksTag {
        ghost var fed := mac.Fed();
        mac.Feed([], true);
        assert fed + [] == fed;
        TagStep(cipher, nonce, View(), fed, ctr.ctr0, ctr.Position(), mac.full, mac.Fed());
        tag := Xor(mac.iv, s0);
        marksTag := true;
      }
      TagOfGood(cipher, nonce, View(), mac.Fed(), ctr.ctr0, ctr.Position());
      return Ok, tag[..outbuflen];
    }

    method CheckTag(intag: seq<byte>) returns (st: Status)
      requires Valid() && |intag| > 0
      modifies this`marksTag, this`tag, mac, mac.macbuf
      ensures Valid()
      ensures authlen != |intag| <==> st == InvLength
      ensures authlen == |intag| && (!lengths || aadlen > 0) <==> st == InvState
      ensures authlen == |intag| && lengths && aadlen == 0 && encryptlen > 0 <==> st == Unfinished
      ensures authlen == |intag| && lengths && aadlen == 0 && encryptlen == 0 ==>
        && st == (if intag == Computed() then Ok else BadTag)
        && (!Early(log.cuts, |log.msg|) ==> st == if intag == Specified() then Ok else BadTag)
      ensures !(st in {Ok, BadTag}) ==> unchanged(this) && unchanged(mac) && unchanged(mac.macbuf)
    {
      hide Good, Mac.Fed, Mac.Valid, Ctr.State.Valid, Ctr.State.Position, AuthValue, View, TagValue, Early;
      var outtag;
      st, outtag := GetTag(|intag|);
      if st == Ok {
        st := if intag == outtag then Ok else BadTag;
      }
    }

    lemma CtrAtStart()
      requires ctr.Valid() && ctr.Position() == 0
      ensures ctr.ctr == ctr.ctr0
    {
      StartPosition();
      AddZero(ctr.ctr0);
    }

    /** u_ctr.ctr[15]++ on A_0 */
    method BumpCounter()
      requires ctr.Valid() && cipher == ctr.cipher && cipher.bs == 16 && NonceOk(nonce)
      requires ctr.Position() == 0 && ctr.ctr0 == CounterBlock(nonce, 0)
      modifies ctr
      ensures ctr.Valid() && ctr.Position() == 0 && ctr.ctr0 == CounterBlock(nonce, 1)
    {
      hide AddBE, KeyByte, ToBigEndian, Octet;
      NextCounterBlock(nonce);
      AddZero(ctr.ctr0);
      StartPosition();
      ctr.ctr := ctr.ctr[15 := ctr.ctr[15] + 1];
      ctr.ctr0 := ctr.ctr;
      AddZero(ctr.ctr0);
    }

    /** At position 0 no key stream has been made. */
    lemma StartPosition()
      requires ctr.Valid() && ctr.Position() == 0
      ensures ctr.blocks == 0 && ctr.unused == 0
    {
      hide AddBE, KeyByte;
      AtLeastOne(ctr.cipher.bs, ctr.blocks);
    }
  }

  /** The log after more associated data, with the length still due before the call. */
  ghost function AfterAad(log: Log, due: nat, abuf: seq<byte>): Log {
    if due == 0 then log.(cuts := log.cuts + [|log.msg|]) else log.(aad := log.aad + abuf)
  }

  lemma AadStep(k: Cipher, nonce: seq<byte>, s: Session, fed: seq<byte>, ctr0: seq<byte>, pos: nat, abuf: seq<byte>)
    requires k.Valid() && k.bs == 16 && NonceOk(nonce) && Good(k, nonce, s, fed, ctr0, pos)
    requires !s.marksTag && |abuf| <= s.aadlen
    ensures var t := s.(aadlen := s.aadlen - |abuf|, log := AfterAad(s.log, s.aadlen, abuf));
              Good(k, nonce, t, if t.aadlen == 0 then PadZero(fed + abuf) else fed + abuf, ctr0, pos)
  {
    hide CtrCrypt, CounterBlock, Header, Chain, Cuts, Filled, PadZero, MacFed;
    var h := Header(nonce, s.authlen, s.log.aadTotal, s.log.msgTotal);
    if s.aadlen == 0 {
      assert abuf == [] && fed + abuf == fed;
      FilledCut(s.log.msg, s.log.cuts);
      PadWhole(PadZero(h + s.log.aad), Filled(s.log.msg, s.log.cuts));
    } else {
      ConcatAssociates(h, s.log.aad, abuf);
      NoCuts();
      assert PadZero(h + (s.log.aad + abuf)) + [] == PadZero(h + (s.log.aad + abuf));
    }
  }

  lemma NoCuts()
    ensures Cuts([], 0) && Filled([], []) == []
  {
  }

  /** The output for further input: counter mode from the current position. */
  ghost function OutData(k: Cipher, nonce: seq<byte>, log: Log, input: seq<byte>): (r: seq<byte>)
    requires k.Valid() && k.bs == 16 && NonceOk(nonce)
    ensures |r| == |input|
  {
    CtrCrypt(k, CounterBlock(nonce, 1), |log.msg|, input)
  }

  ghost function AfterData(log: Log, encrypt: bool, input: seq<byte>, out: seq<byte>): Log {
    if encrypt then log.(msg := log.msg + input, sealed := log.sealed + out)
    else log.(msg := log.msg + out, sealed := log.sealed + input)
  }

  lemma DataStep(k: Cipher, nonce: seq<byte>, s: Session, fed: seq<byte>, ctr0: seq<byte>, pos: nat, encrypt: bool, input: seq<byte>)
    requires k.Valid() && k.bs == 16 && NonceOk(nonce) && Good(k, nonce, s, fed, ctr0, pos)
    requires !s.marksTag && s.aadlen == 0 && |input| <= s.encryptlen
    ensures ctr0 == CounterBlock(nonce, 1) && pos == |s.log.msg|
    ensures var out := OutData(k, nonce, s.log, input);
              Good(k, nonce, s.(encryptlen := s.encryptlen - |input|, log := AfterData(s.log, encrypt, input, out)),
                   fed + if encrypt then input else out, ctr0, pos + |input|)
  {
    hide CtrCrypt, CounterBlock, Header, Chain, PadZero, Cuts, Filled, MacFed;
    var out := OutData(k, nonce, s.log, input);
    var p := if encrypt then input else out;
    CtrConcat(k, ctr0, 0, s.log.msg, p);
    CtrTwice(k, ctr0, pos, input);
    FilledMore(s.log.msg, s.log.cuts, p);
    ConcatAssociates(PadZero(Header(nonce, s.authlen, s.log.aadTotal, s.log.msgTotal) + s.log.aad),
                     Filled(s.log.msg, s.log.cuts), p);
  }

  lemma NoOutData(k: Cipher, nonce: seq<byte>, log: Log, encrypt: bool)
    requires k.Valid() && k.bs == 16 && NonceOk(nonce)
    ensures OutData(k, nonce, log, []) == [] && AfterData(log, encrypt, [], []) == log
  {
    assert log.msg + [] == log.msg && log.sealed + [] == log.sealed;
  }

  lemma MoreData(k: Cipher, nonce: seq<byte>, log: Log, encrypt: bool, a: seq<byte>, b: seq<byte>)
    requires k.Valid() && k.bs == 16 && NonceOk(nonce)
    ensures var x := OutData(k, nonce, log, a);
            var next := AfterData(log, encrypt, a, x);
            var y := OutData(k, nonce, next, b);
              && OutData(k, nonce, log, a + b) == x + y
              && AfterData(next, encrypt, b, y) == AfterData(log, encrypt, a + b, x + y)
  {
    hide CtrCrypt, CounterBlock;
    CtrConcat(k, CounterBlock(nonce, 1), |log.msg|, a, b);
    var x := OutData(k, nonce, log, a);
    var y := OutData(k, nonce, AfterData(log, encrypt, a, x), b);
    ConcatAssociates(log.msg, a, b);
    ConcatAssociates(log.msg, x, y);
    ConcatAssociates(log.sealed, a, b);
    ConcatAssociates(log.sealed, x, y);
  }

  /** The last padding: the MAC has then been fed exactly the formatted packet. */
  lemma TagStep(k: Cipher, nonce: seq<byte>, s: Session, fed: seq<byte>, ctr0: seq<byte>, pos: nat, full: seq<byte>, fed': seq<byte>)
    requires k.Valid() && k.bs == 16 && NonceOk(nonce) && !s.marksTag && s.aadlen == 0 && s.encryptlen == 0
    requires Good(k, nonce, s, fed, ctr0, pos) && full == PadZero(fed)
    ensures Good(k, nonce, s.(tag := Xor(Chain(k, full), s.s0), marksTag := true), fed', ctr0, pos)
  {
    hide CtrCrypt, CounterBlock, Header, Chain, PadZero, Xor, Cuts, Filled;
    PadWhole(PadZero(Header(nonce, s.authlen, s.log.aadTotal, s.log.msgTotal) + s.log.aad), Filled(s.log.msg, s.log.cuts));
  }

  lemma TagOfGood(k: Cipher, nonce: seq<byte>, s: Session, fed: seq<byte>, ctr0: seq<byte>, pos: nat)
    requires k.Valid() && k.bs == 16 && NonceOk(nonce) && s.marksTag && Good(k, nonce, s, fed, ctr0, pos)
    ensures TagOk(s.authlen) && Cuts(s.log.cuts, |s.log.msg|)
    ensures s.tag[..s.authlen] == TagValue(k, nonce, s.authlen, s.log.aad, s.log.msg, s.log.cuts)
    ensures !Early(s.log.cuts, |s.log.msg|) ==> s.tag[..s.authlen] == AuthValue(k, nonce, s.authlen, s.log.aad, s.log.msg)
  {
    hide CtrCrypt, CounterBlock, MacInput, MacFed, Chain, Xor, Cuts, Early, AuthValue;
    if !Early(s.log.cuts, |s.log.msg|) {
      RightTag(k, nonce, s.authlen, s.log.aad, s.log.msg, s.log.cuts);
    }
  }

  lemma PadWhole(a: seq<byte>, b: seq<byte>)
    requires |a| % 16 == 0
    ensures PadZero(a + b) == a + PadZero(b)
  {
    assert |a + b| % 16 == |b| % 16;
    ConcatAssociates(a, b, ZeroBytes((16 - |b| % 16) % 16));
  }

  lemma Begun(k: Cipher, nonce: seq<byte>, s: Session)
    requires k.Valid() && k.bs == 16 && NonceOk(nonce) && TagOk(s.authlen) && s.s0 == k.enc(CounterBlock(nonce, 0))
    requires s.log.aad == [] && s.log.msg == [] && s.log.sealed == [] && s.log.aadTotal == s.aadlen && s.log.msgTotal == s.encryptlen
    requires s.log.cuts == [] && !s.marksTag
    ensures Good(k, nonce, s, B0(nonce, s.authlen, s.aadlen > 0, s.encryptlen) + AadPrefix(s.aadlen), CounterBlock(nonce, 1), 0)
  {
    hide CtrCrypt, CounterBlock, Header, PadZero, B0;
    StartOfMac(nonce, s.authlen, s.aadlen, s.encryptlen);
    NoCuts();
    Ctr.NoData(k, CounterBlock(nonce, 1), 0);
  }

  /** The completed first block: flags added to the length of the length field, then the message
      length octet by octet from the end. */
  method MakeB0(nonce: seq<byte>, taglen: nat, aadlen: nat, encryptlen: nat) returns (b: Block)
    requires NonceOk(nonce) && TagOk(taglen)
    ensures b == B0(nonce, taglen, aadlen > 0, encryptlen)
  {
    hide ToBigEndian, Octet;
    var l := 15 - |nonce|;
    var flags := l - 1;
    flags := flags + (if aadlen > 0 then 64 else 0) + (taglen - 2) / 2 * 8;
    b := [Octet(flags)] + nonce + ZeroBytes(l);
    var i, n := 16, encryptlen;
    ghost var j := 0;
    while i > 1 + |nonce|
      invariant 1 + |nonce| <= i == 16 - j && 0 <= j <= l
      invariant b[..i] == ([Octet(flags)] + nonce + ZeroBytes(l))[..i]
      invariant ToBigEndian(n, l - j) + b[i..] == ToBigEndian(encryptlen, l)
    {
      i := i - 1;
      LastOctet(n, l - j);
      b := b[i := Octet(n % 256)];
      n := n / 256;
      j := j + 1;
    }
    NoOctets(n);
    assert b == b[..i] + b[i..];
  }

  lemma AtLeastOne(x: nat, y: nat)
    ensures y > 0 ==> x * y >= x
  {
    if y > 0 {
      Distribute(x, y - 1, 1);
    }
  }

  lemma NextCounterBlock(nonce: seq<byte>)
    requires NonceOk(nonce)
    ensures var a := CounterBlock(nonce, 0); a[15 := a[15] + 1] == CounterBlock(nonce, 1)
  {
    hide Octet;
    var l := 15 - |nonce|;
    LastOctet(0, l);
    LastOctet(1, l);
    SmallOctets();
  }

  lemma SmallOctets()
    ensures Octet(0) == 0 && Octet(1) == 1
  {
    OctetVal(0);
    OctetVal(1);
  }

  lemma LastOctet(n: nat, len: nat)
    requires len > 0
    ensures ToBigEndian(n, len) == ToBigEndian(n / 256, len - 1) + [Octet(n % 256)]
  {
  }

  lemma NoOctets(n: nat)
    ensures ToBigEndian(n, 0) == []
  {
  }

  /** The encoded length of the associated data. */
  method LengthPrefix(aadlen: nat) returns (p: seq<byte>)
    requires aadlen < 0x1_0000_0000_0000_0000
    ensures p == AadPrefix(aadlen)
  {
    hide Octet;
    if aadlen == 0 {
      p := [];
    } else if aadlen <= 0xfeff {
      p := [Octet(aadlen / 256 % 256), Octet(aadlen % 256)];
      LastOctet(aadlen, 2);
      LastOctet(aadlen / 256, 1);
      NoOctets(aadlen / 256 / 256);
    } else if aadlen <= 0xffff_ffff {
      p := [0xff, 0xfe] + ToBigEndian(aadlen, 4);
    } else {
      p := [0xff, 0xff] + ToBigEndian(aadlen, 8);
    }
  }

  /** After B_0 and the length prefix the MAC is where the state says, with or without AAD. */
  lemma StartOfMac(nonce: seq<byte>, m: nat, aadlen: nat, msglen: nat)
    requires NonceOk(nonce) && TagOk(m)
    ensures var b := B0(nonce, m, aadlen > 0, msglen);
              && b + AadPrefix(aadlen) == Header(nonce, m, aadlen, msglen) + []
              && (aadlen == 0 ==> b + AadPrefix(aadlen) == PadZero(Header(nonce, m, aadlen, msglen) + []) + [])
  {
    hide B0;
    var b: seq<byte> := B0(nonce, m, aadlen > 0, msglen);
    if aadlen == 0 {
      assert b + AadPrefix(aadlen) == b;
      WholeIsPadded(b);
    }
  }

  /** Two handles with the same key and nonce that hold the same ciphertext hold the same plaintext,
      whichever way each obtained it, and with the same associated data and tag length the same tag. */
  lemma OpenUndoesSeal(e: Handle, d: Handle)
    requires e.Valid() && d.Valid() && e.lengths && d.lengths
    requires e.cipher == d.cipher && e.nonce == d.nonce && e.log.sealed == d.log.sealed
    ensures e.log.msg == d.log.msg
    ensures e.marksTag && d.marksTag && !Early(e.log.cuts, |e.log.msg|) && !Early(d.log.cuts, |d.log.msg|) ==>
      e.log.aad == d.log.aad && e.authlen == d.authlen ==> e.tag == d.tag
  {
    hide Chain, Xor, KeyStream, CounterBlock, MacInput, MacFed, Mac.Fed, Mac.Valid, Ctr.State.Valid, Early, Cuts, TagValue, AuthValue;
    if e.marksTag && !Early(e.log.cuts, |e.log.msg|) {
      RightTag(e.cipher, e.nonce, e.authlen, e.log.aad, e.log.msg, e.log.cuts);
    }
    if d.marksTag && !Early(d.log.cuts, |d.log.msg|) {
      RightTag(d.cipher, d.nonce, d.authlen, d.log.aad, d.log.msg, d.log.cuts);
    }
    CtrTwice(e.cipher, CounterBlock(e.nonce, 1), 0, e.log.msg);
    CtrTwice(e.cipher, CounterBlock(e.nonce, 1), 0, d.log.msg);
  }

  /** A run that goes wrong: one octet of message, an empty authenticate call, fifteen more octets.
      The tag is that of a MAC input one block longer than RFC 3610 has it. */
  method PadEarly(cipher: Cipher, nonce: seq<byte>, text: array<byte>) returns (h: Handle, tag: seq<byte>)
    requires cipher.Valid() && cipher.bs == 16 && NonceOk(nonce) && text.Length == 16
    modifies text
    ensures h.Valid() && fresh(h) && h.cipher == cipher && h.nonce == nonce && h.log.aad == []
    ensures h.log.msg == old(text[..]) && h.log.cuts == [1] && Cuts([1], 16) && Early([1], 16)
    ensures tag == TagValue(cipher, nonce, 16, [], old(text[..]), [1])
    ensures |MacFed(nonce, 16, [], old(text[..]), [1])| == |MacInput(nonce, 16, [], old(text[..]))| + 16
  {
    hide Good, Mac.Fed, Mac.Valid, Ctr.State.Valid, Ctr.State.Position, AuthValue, TagValue, Handle.Valid, OutData, Splice, MacFed, MacInput;
    ghost var msg := text[..];
    h := new Handle(cipher, nonce);
    var st := h.SetLengths(16, 0, 16);
    assert text[0..1] == msg[0..1];
    SpliceSlices(msg, 0, OutData(cipher, nonce, h.log, msg[0..1]));
    st := h.Crypt(true, text, 0, 1, text, 0, 1);
    assert text[1..16] == text[..][1..16] == msg[1..16];
    assert [] + msg[0..1] + msg[1..16] == msg;
    st := h.Authenticate([]);
    st := h.Crypt(true, text, 1, 15, text, 1, 15);
    st, tag := h.GetTag(16);
    PaddingExample(nonce, 16, [], msg);
  }

  method SetNonce(cipher: Cipher, nonce: seq<byte>) returns (st: Status, h: Handle?)
    requires cipher.Valid() && cipher.bs == 16
    ensures st == if |nonce| < 7 || |nonce| > 13 then InvLength else Ok
    ensures st == Ok ==> h != null && fresh(h) && h.Valid() && !h.lengths && h.cipher == cipher && h.nonce == nonce
  {
    h := null;
    var l := 15 - |nonce|;
    if l < 2 || l > 8 {
      return InvLength, h;
    }
    h := new Handle(cipher, nonce);
    st := Ok;
  }
}
