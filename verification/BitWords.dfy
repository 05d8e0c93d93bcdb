/** 64-bit words as their bits, the lowest first, for the code that doubles or halves a block word by
    word. */
module BitWords {
  import opened Bytes
  import GF = GaloisField

  type Word = w: seq<bool> | |w| == 64 witness GF.Zeros(64)

  /** The word at octet i, most significant octet first. */
  function Get64(s: seq<byte>, i: nat): Word
    requires i + 8 <= |s|
  {
    BitsBE(s[i..i + 8])
  }

  function Shl(w: Word, n: nat): Word
    requires n <= 64
  {
    GF.Zeros(n) + w[..64 - n]
  }

  function Shr(w: Word, n: nat): Word
    requires n <= 64
  {
    w[n..] + GF.Zeros(n)
  }
}
