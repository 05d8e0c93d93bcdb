# Verification of the symmetric core of libgcrypt

This project models, in Dafny 4.11, the C-level symmetric core of libgcrypt and proves it against the
standards it implements. A block cipher is a pair of function values, one the inverse of the other, on
blocks of a fixed size; everything is proved for every such pair, every key and every input.

- **Camellia** (`Rfc3713`, `CamelliaBits`, `CamelliaMacros`, `CamelliaRounds`, `Camellia`, `CamelliaVectors`): the cipher that
  runs uses a table in which whitening keys have been absorbed through the FL layers and every round key
  folded into its neighbours. It is proved to be the cipher of RFC 3713.
- **GHASH** (`GaloisField`, `GhashPpc`): four-way aggregation in a software-pipelined loop with carry-less
  products equals the bit-serial GHASH of SP 800-38D.
- **Poly1305** (`Poly1305`): three 64-bit limbs with lazy reduction; bounds, congruence, the final tag, and
  updates in pieces of any length.
- **ChaCha20 and ChaCha20-Poly1305** (`ChaCha20`, `ChaChaStream`, `ChaChaPoly`, `ChaChaAead`): scalar, row
  and four-lane forms, the stitched loop, and the pointer bookkeeping of the AEAD over all processor paths.
- **OCB** (`BitHelp`, `Rfc7253`, `Ocb`, `OcbBulk`, `CamelliaGlue`), **CTR** (`Counter`, `Ctr`), **CCM** (`CbcMac`, `Rfc3610`,
  `CcmPadding`, `Ccm`), **GCM-SIV** (`Rfc8452`, `GcmSiv`), **CMAC and EAX** (`Sp80038B`, `Cmac`, `CmacCalls`, `Eax`), **CFB** (`Cfb`),
  **CBC with ciphertext stealing** (`Cbc`, `CbcCalls`), **key wrap** (`Rfc3394`, `KeyWrap`), **BLAKE2** (`Rfc7693`,
  `Blake2`): handles as classes whose ghost state is everything given so far, each call keeping the link
  to a one-shot specification, for any split into calls and in place where the code allows it.
- **Bulk loops** (`Bulk`): batches through a scratch buffer of any size against one block at a time.
- **What the definitions come to** (`Doubling`, `ModeForms`, `OcbForms`, `CcmForms`, `KeyWrapForms`, `ChaChaVectors`,
  `Poly1305Vectors`): the constants, octet orders and field polynomials that code and definitions share, as
  numbers and as the octets the standards print, and short inputs written out.
- `Bytes`, `BitNumbers`, `BitWords`, `CipherBlock` and `Buffering` hold octets, numbers, words, blocks, buffers
  and block splitting.

`dafny verify dfyconfig.toml` checks everything.

Where the code does not do the obvious thing, the model does what the code does, the exact condition is
proved, and an input is named at which it fails:

- KWP of exactly eight octets is sealed but refused on opening (`KeyWrap.KwpTrips`, `KeyWrap.KwpShort`); an
  empty input is enciphered together with eight octets the output buffer happens to hold (`KeyWrap.KwpEmpty`).
- OCB associated data trips an assertion when a call completes a buffered block whose number is a multiple
  of 65536 (`Ocb.TripsWhen`, `Ocb.TripExample`, `Ocb.TripRun`).
- The GCM-SIV byte counter compares 32 bits with all of a size (`GcmSiv.CounterExact`,
  `GcmSiv.CounterExample`), so messages of 2^32 octets and more get a length block that is not that of
  RFC 8452 (`GcmSiv.LengthsExact`), although both directions agree with each other.
- An empty CCM `authenticate` call during the message pads it early; the tag is wrong just when the call
  comes inside a block with message still to come (`CcmPadding.PaddingExact`, `CcmPadding.WrongTag`,
  `Ccm.PadEarly`).
- CMAC with a bulk function computes the length of the blocks it hashed in 32 bits: from 2^32 octets in a
  call on, input is lost or taken twice and the tag can be wrong (`Cmac.TakenExact`, `CmacCalls.CallExact`,
  `CmacCalls.WrongMac`).
- EAX `set_nonce` keeps key stream saved from an earlier message, which then masks the first octets of the
  next one, unless the octets of all earlier messages make whole blocks together (`Eax.StaleExact`,
  `Eax.SavedNothing`, `Eax.StaleRun`, `Eax.StaleRunOfThree`).
- CBC with ciphertext stealing leaves different IVs in the two directions for every length above one block,
  after which no call is sure to decrypt until one of exactly one block has gone by (`CbcCalls.IvsDiffer`,
  `CbcCalls.AnyCall`).
- The bulk counter loop adds 32 bits of a batch's block numbers, so a batch of 2^32 blocks comes back to its
  first counter (`Bulk.BulkCtrExact`).
- A BLAKE2 key of length zero that is given all the same hashes a block of zeros (`Blake2.EmptyKey`).
- CCM formatting is prefix-free only below the length bound of its nonce (`Rfc3610.FormatWraps`), and the
  counter leaves its field at the same bound (`Rfc3610.CounterCarries`).

## Model

| member | source | states |
|---|---|---|
| CamelliaMacros.FlInverse | cipher/camellia.c:126-140 | the two halves of CAMELLIA_FLS undo each other, for every half and key |
| CamelliaMacros.FlAffine | cipher/camellia.c:517-606 | FL carries an xor offset of its input to the offset the key setup computes, so a whitening key can be pushed through the layer |
| CamelliaMacros.FlInvAffine | cipher/camellia.c:517-606 | the same for the inverse layer |
| CamelliaMacros.AbsorbLinear | cipher/camellia.c:517-606 | offsets absorbed through a layer add up: absorbing a sum is the sum of what is absorbed |
| CamelliaMacros.SPLayerIsRfc | cipher/camellia.c:102-122 | the SP tables combined as in CAMELLIA_F compute S and P of RFC 3713 for any S-boxes |
| CamelliaBits.RolDqIsRot | cipher/camellia.c:78-85 | CAMELLIA_ROLDQ on four words is the rotation of the 128-bit value, for each amount the key setup uses |
| CamelliaBits.RolDqo32IsRot | cipher/camellia.c:87-95 | CAMELLIA_ROLDQo32 is the rotation by more than 32 bits |
| CamelliaRounds.StoredIsFolded | cipher/camellia.c:517-606 | after both absorptions and the pairwise xors of the store, every table entry is a round key of RFC 3713 xored with the offsets of its two neighbours, and whitening keys survive only at the ends |
| CamelliaRounds.RoundTracks | cipher/camellia.c:143-160 | one round on offset halves with a folded key is one round of RFC 3713 with the offset moved to the other half |
| CamelliaRounds.GroupStep | cipher/camellia.c:899-954 | six rounds and an FL layer on a state with tracked offsets is the specified group with the next offsets |
| CamelliaRounds.GroupsTrack | cipher/camellia.c:870-968 | after any number of groups each half differs from the specified one by a known offset |
| CamelliaRounds.EncryptSmIsRfc | cipher/camellia.c:870-968 | the cipher that runs on the folded table is the cipher of sections 2.2 to 2.4 of RFC 3713 with explicit whitening and round keys, for every table that is folded, every block and every round function |
| Camellia.Setup128 | cipher/camellia.c:438-606 | the table made from a 128-bit key is the folded form of the schedule of RFC 3713 |
| Camellia.Setup256 | cipher/camellia.c:611-845 | the same for a 256-bit key, with KA and KB |
| Camellia.Setup192 | cipher/camellia.c:847-868 | a 192-bit key is the 256-bit key whose last half is the complement of the third |
| Camellia.AbsorbKeys128 | cipher/camellia.c:517-549 | the in-place xors of the subkey words leave the absorbed form of the flat schedule |
| Camellia.AbsorbKeys256 | cipher/camellia.c:723-765 | the same with four groups |
| Camellia.Generate128 | cipher/camellia.c:455-515 | the words before absorption are the round and whitening keys of section 2.2 of RFC 3713 in the order the cipher uses them |
| Camellia.Generate256 | cipher/camellia.c:628-721 | the same for 256 bits, with the rotations by more than 32 bits |
| Camellia.StoreKeys128 | cipher/camellia.c:550-606 | the stored table is the absorbed words with every round key folded into its neighbours |
| Camellia.StoreKeys256 | cipher/camellia.c:766-845 | the same with four groups |
| Camellia.EncryptBlock128 | cipher/camellia.c:870-968 | key setup followed by encryption gives the RFC 3713 ciphertext for every key and block |
| Camellia.EncryptBlock256 | cipher/camellia.c:1075-1198 | the same for 256-bit keys |
| Camellia.DecryptInvertsEncrypt | cipher/camellia.c:870-1070 | decryption undoes encryption for every subkey table whatever it holds, and every round function |
| Camellia.DecryptInvertsRfc | cipher/camellia.c:971-1070 | decryption on a folded table recovers the plaintext of an RFC 3713 ciphertext |
| Camellia.Encrypt128 | cipher/camellia.c:870-968 | the block is left as the table cipher with three groups has it |
| Camellia.Decrypt128 | cipher/camellia.c:971-1070 | the block is left as the reversed table cipher has it |
| Camellia.Encrypt256 | cipher/camellia.c:1075-1198 | the block is left as the table cipher with four groups has it |
| Camellia.Decrypt256 | cipher/camellia.c:1200-1326 | the block is left as the reversed table cipher with four groups has it |
| CamelliaVectors.SigmaDigits | cipher/camellia.c:37-48 | the six constants of the key schedule are the hexadecimal digits of the square roots of the first six primes |
| CamelliaVectors.ExtendMeans | cipher/camellia.c:847-868 | of a 192-bit key the last half is followed by its complement |
| CamelliaVectors.Vector128 | cipher/camellia-glue.c:1728-1744 | with the S-boxes of RFC 3713, schedule and cipher give the ciphertext of its appendix A for the 128-bit key |
| CamelliaVectors.Vector256 | cipher/camellia-glue.c:1752-1765 | and for the 256-bit key |
| GaloisField.MulDistributes | cipher/cipher-gcm-ppc.c:375-546 | multiplication of vectors as polynomial action is bilinear |
| GaloisField.MulCommutes | cipher/cipher-gcm-ppc.c:375-546 | and commutative, modulo the polynomial of GCM |
| GhashPpc.ClmulIsAct | cipher/cipher-gcm-ppc.c:108-116 | a carry-less product of two words is a product in the field when nothing overflows |
| GhashPpc.ReduceMeans | cipher/cipher-gcm-ppc.c:408-424 | the two folds by c2 divide by x^128: x^128 times the result is the 256-bit value low + x^64 middle + x^128 high in the field |
| GhashPpc.TimesMeans | cipher/cipher-gcm-ppc.c:402-424 | three vpmsumd with the split key and one reduction give the field product divided by x^128 |
| GhashPpc.TimesIsNistMul | cipher/cipher-gcm-ppc.c:265-420 | with the key doubled at setup this is the bit-serial product of section 6.3 of SP 800-38D |
| GhashPpc.TimesPower | cipher/cipher-gcm-ppc.c:300-370 | table entry n acts as multiplication n + 1 times by the hash key |
| GhashPpc.GhashSetup | cipher/cipher-gcm-ppc.c:265-372 | the table holds the split, swapped and shifted forms of the first four powers of the key |
| GhashPpc.FourSteps | cipher/cipher-gcm-ppc.c:468-517 | four Horner steps are one sum of four products with descending powers |
| GhashPpc.HashBlock | cipher/cipher-gcm-ppc.c:402-424 | one block by three products and one reduction is one Horner step |
| GhashPpc.FourBlocks | cipher/cipher-gcm-ppc.c:452-517 | the merged products of the second and fourth block and a single reduction compute those four steps |
| GhashPpc.FirstProducts | cipher/cipher-gcm-ppc.c:448-465 | before the loop: the products of the first group that do not wait for the running value |
| GhashPpc.LastReduction | cipher/cipher-gcm-ppc.c:519-540 | after the loop: the last group joined and reduced is four Horner steps |
| GhashPpc.HashGroups | cipher/cipher-gcm-ppc.c:427-546 | the software-pipelined loop, whose last group is finished after it, returns the block-at-a-time value |
| GhashPpc.GhashVpmsum | cipher/cipher-gcm-ppc.c:375-546 | for every number of blocks the prologue of one to three blocks and the pipelined loop store GHASH of section 6.4 of SP 800-38D |
| Doubling.GcmUnits | cipher/cipher-gcm-ppc.c:265-420 | the octets 80 00 .. 00 and 40 00 .. 00 are one and x for the product of section 6.3 of SP 800-38D |
| Doubling.GcmTimesX | cipher/cipher-gcm-ppc.c:265-300 | for all blocks, the product with 40 00 .. 00 is half the big-endian number, with 0xe1 added to the first octet when it was odd |
| Doubling.GcmExample | cipher/cipher-gcm-ppc.c:269-270 | the product of 40 00 .. 00 and 00 .. 01 is e1 00 .. 00 |
| ModeForms.GhashTwo | cipher/cipher-gcm-ppc.c:375-420 | a block is added and then multiplied |
| Poly1305.NoOverflow | cipher/chacha20-ppc.c:436-461 | for accumulators and clamped keys no 64- or 128-bit intermediate of a multiplication overflows |
| Poly1305.MulMeans | cipher/chacha20-ppc.c:436-461 | the limb product is congruent to h times r modulo 2^130 - 5 and its top limb is at most 4 |
| Poly1305.Add1305Means | cipher/poly1305.c:202-210 | the three-limb addition is addition when the top limb does not overflow |
| Poly1305.StepMeans | cipher/chacha20-ppc.c:463-476 | a block step takes h to a number congruent to (h + m) * r |
| Poly1305.AccPadConcat | cipher/poly1305.c:238-290 | absorbing two strings of whole blocks one after the other is absorbing their concatenation |
| Poly1305.FinalWordsMean | cipher/poly1305.c:330-348 | the conditional subtraction and the addition of the key give the tag words of section 2.5 of RFC 8439 |
| Poly1305.Context.Blocks | cipher/poly1305.c:238-290 | the loop over limbs leaves the residue of the specified accumulator |
| Poly1305.Context.Update | cipher/poly1305.c:598-655 | pieces of any length append to what has been absorbed |
| Poly1305.Context.Finish | cipher/poly1305.c:306-350 | the tag is that of section 2.5 of RFC 8439 for everything absorbed, in whatever pieces |
| Poly1305Vectors.TagVector | cipher/poly1305.c:238-350 | the tag of the message of section 2.5.2 of RFC 8439, with its last block of two octets |
| ChaCha20.RowsRefine | cipher/chacha20-ppc.c:125-131 | the row-vector double round, with its rotated rows, is the scalar double round |
| ChaCha20.LanesRefine | cipher/chacha20-ppc.c:335-357 | each lane of the transposed double round is the scalar double round of that lane |
| ChaCha20.Counters | cipher/chacha20-ppc.c:308-330 | adding lane numbers and borrowing by comparison gives each lane the counter of its block, also when the low word wraps inside the batch |
| ChaCha20.AddU64Is | cipher/chacha20-ppc.c:92-105 | the 64-bit vector addition is the scalar counter step with its carry |
| ChaCha20.LanesStart | cipher/chacha20-ppc.c:312-333 | lane j starts as the input state j blocks later |
| ChaCha20.FourBlocks | cipher/chacha20-ppc.c:341-366 | rounds, feed-forward and transposition leave four consecutive blocks |
| ChaCha20.TransposeIs | cipher/chacha20-ppc.c:264-273 | the merges exchange rows and columns |
| ChaCha20.ScalarBlocks | cipher/chacha20.c:280-361 | output and final state for any number of blocks |
| ChaCha20.VectorBlocks1 | cipher/chacha20-ppc.c:139-259 | two blocks at a time in row vectors: the same output and final state as the scalar form, in place or not |
| ChaCha20.VectorBlocks4 | cipher/chacha20-ppc.c:285-417 | four blocks at a time in lanes: the same again |
| ChaCha20.StreamIsKeyStream | cipher/chacha20.c:280-361 | blocks made from a later counter are the key stream from that position on |
| ChaCha20.CryptConcat | cipher/chacha20.c:716-753 | the output for a piece depends only on its position in the stream |
| ChaCha20.CryptTwice | cipher/chacha20.c:716-753 | the stream undoes itself |
| ChaChaVectors.WordIsLittleEndian | cipher/chacha20.c:277-278 | a word is stored as its little-endian octets |
| ChaChaVectors.LoadIsLittleEndian | cipher/chacha20.c:277-278 | and loaded from them |
| ChaChaVectors.NextCounterMeans | cipher/chacha20.c:334-335 | the two counter words are one number of 64 bits that is counted up |
| ChaChaVectors.FirstBlock | cipher/chacha20.c:1328-1397 | the first block of key stream that the selftest expects, from the state its key and nonce are loaded into |
| ChaChaStream.Ctx.StreamTail | cipher/chacha20.c:565-713 | whatever block functions the processor offers, the output is the key stream at the position reached, and the pad keeps what a short last block leaves |
| ChaChaStream.Ctx.LastBlock | cipher/chacha20.c:700-707 | a last block shorter than 64 octets is masked from a fresh pad, whose rest is kept |
| ChaChaStream.Ctx.Leftover | cipher/chacha20.c:726-745 | the unused octets of the pad are used first, each once |
| ChaChaPoly.StitchedRounds | cipher/chacha20-ppc.c:536-600 | the interleaved loop does ten double rounds in every lane and sixteen Poly1305 blocks |
| ChaChaPoly.StitchedBlocks4 | cipher/chacha20-ppc.c:471-628 | the stitched function makes the stream output and absorbs the octets at its second pointer, which lags by a group or is the input |
| ChaChaAead.Aead.EncryptStage | cipher/chacha20.c:923-1052 | a stitched stage hashes only octets already written: Poly1305 stays the fixed lag behind the output |
| ChaChaAead.Aead.CatchUp | cipher/chacha20.c:1054-1061 | after the last stage the lag is hashed and the two pointers meet, as asserted |
| ChaChaAead.Aead.EncryptStitched | cipher/chacha20.c:799-1062 | whatever stages run, Poly1305 has absorbed exactly what they wrote |
| ChaChaAead.Aead.Encrypt | cipher/chacha20.c:756-1108 | output is the ciphertext at the stream position; Poly1305 absorbs it once and in order; the leftover assertion holds; the log of all calls follows |
| ChaChaAead.Aead.Decrypt | cipher/chacha20.c:1111-1323 | output is the plaintext; Poly1305 absorbs the ciphertext, in place or not; the log of all calls follows |
| ChaChaAead.Aead.GetTag | cipher/cipher-poly1305.c:261-292 | padding, lengths and final reduction give the Poly1305 tag of associated data and ciphertext |
| ChaChaAead.FinalPads | cipher/cipher-poly1305.c:261-292 | what the tag is made from: ciphertext, the fewest zeros up to a whole block, lengths |
| ChaChaAead.OpenUndoesSeal | cipher/chacha20.c:756-1323 | two handles on the same stream holding the same ciphertext hold the same message, in whatever calls and on whatever processor, and with the same key and associated data give the same tag |
| BitHelp.CtzIsNtz | cipher/bithelp.h:86-112 | the mod-37 table lookup counts trailing zeros for every nonzero 32-bit word |
| BitHelp.WordIs | cipher/bithelp.h:86-112 | the expression -x & x on a 32-bit word is the lowest set bit of its number |
| BitHelp.CtzWordIsNtz | cipher/bithelp.h:86-112 | the whole expression on words, with its 32 for zero, counts trailing zeros |
| BitHelp.Ctz64IsNtz | cipher/bithelp.h:117-138 | the two-word form does so for 64 bits |
| BitHelp.NtzTruncated | cipher/bithelp.h:117-138 | the count of a number is that of its low bits when they are not all zero |
| Ocb.DoubleBlockWords | cipher/cipher-ocb.c:50-66 | shifting two words with a conditional 135 is double of section 2 of RFC 7253 |
| Doubling.OcbDoubles | cipher/cipher-ocb.c:50-66 | double of OCB is the doubling of CMAC for sixteen octets |
| Ocb.BitCopy | cipher/cipher-ocb.c:69-86 | 128 of 192 bits from any bit offset below 64 |
| Ocb.GetL | cipher/cipher-internal.h:759-777 | for numbers that are not multiples of 65536 the table entry is L of the trailing zeros, though only 32 bits are counted |
| Ocb.GetLBig | cipher/cipher-ocb.c:89-107 | refuses numbers with fewer than sixteen trailing zeros and doubles up to L otherwise |
| Ocb.SetKeyTable | cipher/cipher-ocb.c:110-150 | the table is L_* doubled repeatedly |
| Ocb.StartOffset | cipher/cipher-ocb.c:184-200 | the first offset is that of section 4.2 of RFC 7253 |
| OcbForms.NonceNumber | cipher/cipher-ocb.c:185-189 | the nonce block as a number: tag length, a one bit, nonce |
| OcbForms.BottomMeans | cipher/cipher-ocb.c:190-191 | bottom is that number modulo 64, and Ktop is made from the rest |
| OcbForms.StretchNumber | cipher/cipher-ocb.c:69-86 | the 128 bits taken from Stretch, as a quotient and remainder of numbers |
| OcbForms.StartMeans | cipher/cipher-ocb.c:184-200 | the first offset from the nonce, as numbers throughout |
| Ocb.Handle.SetNonce | cipher/cipher-ocb.c:154-236 | nonces of 8 to 15 octets start an empty session at the offset of RFC 7253, others are refused and change nothing |
| Ocb.CryptRun | cipher/cipher-ocb.c:530-594 | blocks one at a time with table values are the full-block part of RFC 7253; the assertion on block numbers holds |
| Ocb.Handle.Crypt | cipher/cipher-ocb.c:473-675 | any sequence of calls, the last of any length, in place or not: what has been put out is the RFC 7253 ciphertext (or plaintext) of everything put in, and offset and checksum are the specified ones |
| Ocb.Handle.Authenticate | cipher/cipher-ocb.c:243-405 | pieces of associated data in any split leave the sum of HASH, and the assertion trips exactly when Trips says |
| Ocb.TripsWhen | cipher/cipher-ocb.c:264-297 | the exact condition, in octets given so far: the call completes a buffered block whose number is a multiple of 65536 |
| Ocb.TripExample | cipher/cipher-ocb.c:281-285 | 65535 blocks and one octet, then fifteen octets: the assertion trips |
| Ocb.TripRun | cipher/cipher-ocb.c:154-405 | a new handle, a nonce and those two calls: the second trips the assertion |
| Ocb.Handle.AadFinalize | cipher/cipher-ocb.c:411-453 | the leftover octets, padded, complete HASH of section 4.1 of RFC 7253 once |
| Ocb.Handle.GetTag | cipher/cipher-ocb.c:708-741 | the tag of RFC 7253 for the data and associated data given |
| Ocb.Handle.CheckTag | cipher/cipher-ocb.c:743-763 | accepts exactly that tag |
| Ocb.OpenUndoesSeal | cipher/cipher-ocb.c:473-741 | handles holding the same ciphertext hold the same plaintext, offset and checksum, and with the same associated data the same tag |
| OcbForms.FirstOffsets | cipher/cipher-internal.h:759-777 | what is added for blocks 1 to 4, in doublings of L_* |
| OcbForms.ShortMessage | cipher/cipher-ocb.c:473-741 | ciphertext and tag of a block and a shorter rest, written out |
| OcbForms.ShortAad | cipher/cipher-ocb.c:243-453 | HASH of a block and a shorter rest, written out |
| OcbForms.TagWithAad | cipher/cipher-ocb.c:708-741 | associated data adds its HASH to the tag |
| Rfc7253.FullRoundTrip | cipher/cipher-ocb.c:473-594 | whole blocks decrypt to what was encrypted, and the reverse |
| Rfc7253.SealInjective | cipher/cipher-ocb.c:473-675 | the ciphertext, with its short last block, determines the plaintext |
| OcbBulk.PatternMeans | cipher/bulkhelp.h:40-133 | in a rotated array, slot j holds the trailing zeros of block blkn + j + 1, except the one multiple of the batch size |
| OcbBulk.Prepare64 | cipher/bulkhelp.h:40-66 | the loop and the seven extra stores write that pattern |
| OcbBulk.Prepare32 | cipher/bulkhelp.h:69-92 | the same for thirty-two slots |
| OcbBulk.Prepare16 | cipher/bulkhelp.h:94-114 | the same for sixteen |
| OcbBulk.Prepare8 | cipher/bulkhelp.h:117-133 | the eight-slot form |
| OcbBulk.Patch | cipher/camellia-glue.c:1451-1456 | patching the returned slot makes the whole array right for the batch |
| CamelliaGlue.OcbCrypt | cipher/camellia-glue.c:1415-1590 | batches of 64, 32 and 16 blocks with patched pointer arrays and the generic rest give the blocks, offset and checksum of RFC 7253, in place or not |
| CamelliaGlue.Kernel | cipher/camellia-glue.c:1458-1461 | a batch function given a patched array computes the blocks, offset and checksum of RFC 7253 for its blocks |
| CamelliaGlue.OcbAuth | cipher/camellia-glue.c:1594-1718 | the same for associated data: offset and sum of HASH, whatever batches run |
| CamelliaGlue.BulkOcbAuth | cipher/bulkhelp.h:361-398 | batches through tmpbuf of any size continue the sum of HASH |
| CamelliaGlue.AadSumMore | cipher/bulkhelp.h:376-394 | offsets and blocks added, enciphered together and summed are HASH a block at a time |
| Counter.BlockAddIs | cipher/cipher-internal.h:789-808 | two-word addition with a compared carry is addition modulo the block size |
| Counter.CtrConcat | cipher/cipher-ctr.c:33-121 | output depends on the stream position only |
| Counter.CtrTwice | cipher/cipher-ctr.c:33-121 | counter mode undoes itself |
| ModeForms.AddMeans | cipher/cipher-internal.h:789-808 | a counter block is a big-endian number that wraps at its own length |
| ModeForms.CtrTwo | cipher/cipher-ctr.c:33-121 | the first block is masked by the counter as given, the next by its successor |
| Ctr.State.EncryptAny | cipher/cipher-ctr.c:33-121 | saved octets first, then fresh blocks, whatever the saved octets are |
| Ctr.State.EncryptFrom | cipher/cipher-ctr.c:33-121 | a call on a stream that begins with octets left over from another one: those first, then key stream, at the position reached |
| Ctr.State.Encrypt | cipher/cipher-ctr.c:33-121 | in a state of its own making a call is counter mode at the position reached |
| CbcMac.Mac.Feed | cipher/cipher-ccm.c:37-116 | pieces of any length, a full block possibly staying in the buffer, chain the same blocks as one call; padding adds the fewest zeros |
| Ccm.SetNonce | cipher/cipher-ccm.c:119-160 | nonces of 7 to 13 octets start a session with nothing in the MAC, others are refused |
| Ccm.MakeB0 | cipher/cipher-ccm.c:189-199 | the loop that stores the message length a byte at a time gives B_0 of section 2.2 of RFC 3610 |
| Ccm.LengthPrefix | cipher/cipher-ccm.c:204-225 | the three encodings of the length of the associated data |
| Rfc3610.FormatPrefixFree | cipher/cipher-ccm.c:120-229 | for lengths that fit, no packet has a MAC input that is a prefix of another packet's, over all three length encodings |
| Rfc3610.FormatWraps | cipher/cipher-ccm.c:188-194 | a message length collides with that of a packet a caller may authenticate if and only if it does not fit the length field |
| Rfc3610.CounterStays | cipher/cipher-ctr.c:82-97 | the counter after i blocks still holds the nonce octets while i fits the length field |
| Rfc3610.CounterCarries | cipher/cipher-ctr.c:82-97 | until the whole counter wraps, the octets of the nonce are in place after i blocks if and only if i fits the length field |
| Rfc3610.StreamIsS | cipher/cipher-ccm.c:225-229 | block q of the stream from counter 1 is S_(q+1) of section 2.3 of RFC 3610 |
| CcmForms.FlagsFields | cipher/cipher-ccm.c:182-194 | the three fields of the flags octet |
| CcmForms.FirstVector | cipher/cipher-ccm.c:120-229 | first block, first counter and length prefix of packet vector #1 of section 8 of RFC 3610 |
| CcmForms.PrefixEdges | cipher/cipher-ccm.c:204-225 | the encoding of the length on both sides of its limits |
| CcmForms.ShortPacket | cipher/cipher-ccm.c:36-229 | the tag of a packet whose associated data and message fit a block each, written out |
| CcmForms.EmptyPacket | cipher/cipher-ccm.c:120-229 | the tag of an empty packet when enciphering changes nothing |
| Ccm.Handle.SetLengths | cipher/cipher-ccm.c:163-236 | B0 and the length prefix go to the MAC, S_0 is kept, and bad tag lengths and states are refused |
| Ccm.Handle.Authenticate | cipher/cipher-ccm.c:240-260 | associated data in any pieces; the piece that completes it pads, and so does an empty one later, whose place is noted |
| Ccm.Handle.Crypt | cipher/cipher-ccm.c:326-419 | chunks go to the MAC before encryption or after decryption; the output is counter mode from counter 1 |
| Ccm.Handle.GetTag | cipher/cipher-ccm.c:263-307 | the tag of what the MAC was given, for any calls; it is that of sections 2.2 and 2.3 of RFC 3610 unless an empty authenticate call came inside a block with message to come |
| Ccm.Handle.CheckTag | cipher/cipher-ccm.c:263-324 | accepts exactly that tag; refuses wrong lengths, states and unfinished messages as GetTag does |
| Ccm.AadStep | cipher/cipher-ccm.c:240-260 | what an authenticate call does to a session: what the MAC holds afterwards in every case, with the zeros an empty one adds |
| CcmPadding.PaddingExact | cipher/cipher-ccm.c:36-116 | for every way of making the calls, the tag is right for all ciphers and messages of a length if and only if no empty authenticate call comes inside a block with message still to come |
| CcmPadding.LateIsRight | cipher/cipher-ccm.c:50-73 | empty calls between blocks or after the last octet leave the MAC input as specified |
| CcmPadding.WrongTag | cipher/cipher-ccm.c:240-260 | otherwise a cipher and a message with a wrong tag |
| CcmPadding.PaddingExample | cipher/cipher-ccm.c:240-260 | one octet, an empty call, fifteen octets: the MAC input is one block too long, for every message |
| Ccm.PadEarly | cipher/cipher-ccm.c:240-372 | that run on a handle, with the tag it gives |
| Ccm.OpenUndoesSeal | cipher/cipher-ccm.c:263-419 | handles holding the same ciphertext hold the same message and, padded in the right place, the same tag |
| Rfc8452.NistMulIsDot | cipher/cipher-gcm-siv.c:82-89 | multiplying in GHASH by a key divided by x is the dot product of section 3 of RFC 8452 |
| Rfc8452.IncNext | cipher/cipher-gcm-siv.c:212-219 | one more than the counter n steps on is the counter n + 1 steps on, across the wrap |
| Rfc8452.CountersDiffer | cipher/cipher-gcm-siv.c:212-219 | no counter repeats within 2^32 blocks and the other 96 bits never change |
| Rfc8452.OpenUndoesSeal | cipher/cipher-gcm-siv.c:436-598 | opening a text and tag gives a message if and only if they are the seal of that message |
| Rfc8452.NeverMasked | cipher/cipher-gcm-siv.c:492-496 | no counter block of any message is ever what is enciphered for a tag |
| Rfc8452.TopBitOnly | cipher/cipher-gcm-siv.c:492-496 | counter and masked block differ from the tag in their highest bit alone, set in one and clear in the other |
| Rfc8452.LengthBlockMeans | cipher/cipher-gcm-siv.c:474-481 | both lengths in bits, associated data first |
| Rfc8452.PolyvalTwo | cipher/cipher-gcm-siv.c:92-190 | POLYVAL of two blocks written out |
| Rfc8452.ShortTag | cipher/cipher-gcm-siv.c:458-500 | what is hashed for short inputs, and the tag of none |
| Doubling.LoadNumber | cipher/cipher-gcm-siv.c:82-89 | a block is the polynomial whose bits are those of its little-endian number |
| Doubling.DotUnit | cipher/cipher-gcm-siv.c:82-89 | the dot product by 01 00 .. 00 c2, which is x^128, changes nothing |
| GcmSiv.DerivedKeys | cipher/cipher-gcm-siv.c:340-404 | the derived keys when enciphering changes nothing: numbers 0 to 5, each with the nonce |
| GcmSiv.MulxGhash | cipher/cipher-gcm-siv.c:35-47 | shifts and mask on two words divide by x |
| GcmSiv.CounterExact | cipher/cipher-gcm-siv.c:50-63 | the byte counter is exact if and only if it does not overflow and the call has fewer than 2^32 octets or carries out of the low word |
| GcmSiv.CounterExample | cipher/cipher-gcm-siv.c:59-62 | a first call of 2^32 octets is counted as 2^33 |
| GcmSiv.CheckLenMeans | cipher/cipher-gcm-siv.c:66-79 | the test on two words is the limit of 2^36 - 32 octets |
| GcmSiv.BitLengthMeans | cipher/cipher-gcm-siv.c:473-479 | the shifted words are the number of bits |
| GcmSiv.Hash.Feed | cipher/cipher-gcm-siv.c:92-190 | for every split the same zero-padded blocks are hashed, reversed and sixteen at a time or not |
| GcmSiv.Hash.DigestIs | cipher/cipher-gcm-siv.c:485-487 | the reversed hash is POLYVAL of section 3 of RFC 8452 |
| GcmSiv.DoCtrLe32 | cipher/cipher-gcm-siv.c:193-245 | with or without the bulk function, the output is the counter mode of section 4 of RFC 8452 |
| GcmSiv.LengthsExact | cipher/cipher-gcm-siv.c:458-483 | the length block is right if and only if the message has fewer than 2^32 octets, given exact associated data |
| GcmSiv.SetNonce | cipher/cipher-gcm-siv.c:325-404 | the two keys are derived as in section 4 of RFC 8452; other nonce lengths, no key, and a nonce already set are refused |
| GcmSiv.Handle.Authenticate | cipher/cipher-gcm-siv.c:408-432 | what each state answers, and that pieces of associated data add up |
| GcmSiv.Handle.Encrypt | cipher/cipher-gcm-siv.c:436-500 | text and tag are the seal for the lengths as counted |
| GcmSiv.Handle.SetDecryptionTag | cipher/cipher-gcm-siv.c:504-518 | keeps a tag of 16 octets for decryption, once |
| GcmSiv.Handle.Decrypt | cipher/cipher-gcm-siv.c:522-598 | the message when the tag is right, otherwise zeros and a refusal |
| GcmSiv.Handle.GetTag | cipher/cipher-gcm-siv.c:601-655 | the tag of the message, or of an empty one |
| GcmSiv.Handle.CheckTag | cipher/cipher-gcm-siv.c:601-664 | accepts exactly that tag |
| GcmSiv.DecryptUndoesEncrypt | cipher/cipher-gcm-siv.c:436-598 | two handles with the same keys, nonce and associated data counted exactly, one that has sealed a message and one that has opened that text with that tag: the answer was the message |
| Rfc3394.StepUndone | cipher/cipher-aeswrap.c:210-246 | one step of unwrap undoes the step of wrap with the same number, and StepRedone the reverse |
| Rfc3394.UnwrapInvertsWrap | cipher/cipher-aeswrap.c:33-262 | unwrap and wrap are inverse permutations for every block permutation and every number of words |
| KeyWrap.IncCounts | cipher/cipher-aeswrap.c:77-79 | adding one with carries counts |
| KeyWrap.Increment | cipher/cipher-aeswrap.c:77-79 | the loop over octets adds one |
| KeyWrap.Decrement | cipher/cipher-aeswrap.c:244-246 | the loop over octets subtracts one |
| KeyWrap.WrapInPlace | cipher/cipher-aeswrap.c:33-91 | the nested loops over the buffer are section 2.2.1 of RFC 3394 |
| KeyWrap.UnwrapTo | cipher/cipher-aeswrap.c:190-259 | the nested loops with the counter running down are section 2.2.2 |
| KeyWrap.Handle.Encrypt | cipher/cipher-aeswrap.c:97-131 | KW under the initial value that was set or the default one, for overlapping buffers too |
| KeyWrap.Handle.EncryptPadding | cipher/cipher-aeswrap.c:140-185 | section 4.1 of RFC 5649; without input, the initial value and eight octets of the output buffer as they were, enciphered |
| KeyWrap.Handle.DecryptAuto | cipher/cipher-aeswrap.c:264-380 | the answer, the output and the stored plaintext length, or the early refusals |
| KeyWrap.PadCheckMeans | cipher/cipher-aeswrap.c:343-360 | the padding test in 32-bit arithmetic means fewer than eight zeros, for every packet whose length fits |
| KeyWrap.KwExact | cipher/cipher-aeswrap.c:97-380 | KW round-trips under the set or default value, and what is accepted is such a wrap or a KWP packet |
| KeyWrap.KwpTrips | cipher/cipher-aeswrap.c:140-380 | KWP: an input opens to the data and its length if and only if it is the seal of the data and the data is not eight octets long |
| KeyWrap.KwpShort | cipher/cipher-aeswrap.c:172-325 | the one-block case of it, with the refusal of eight octets |
| KeyWrap.KwpEmpty | cipher/cipher-aeswrap.c:140-325 | what an empty input gives opens to nothing, with no length stored, whatever the output buffer held |
| KeyWrapForms.WrapExample | cipher/cipher-aeswrap.c:33-91 | three words wrapped by a permutation that exchanges halves: six passes, the words in turn, t counting up |
| KeyWrapForms.KwpInputExample | cipher/cipher-aeswrap.c:137-185 | the constant, the length and the zeros of RFC 5649, octet by octet |
| Blake2.CounterCounts | cipher/blake2.c:229-233 | the two words count up and down, the carry found by comparison and the sign corrected |
| Blake2.Context.Write | cipher/blake2.c:173-215 | once there is data 1 to a block of it stay buffered, the rest is hashed, and the pieces append |
| Blake2.Context.Final | cipher/blake2.c:395-422 | the buffer starts with the digest of section 3.3 of RFC 7693 of everything written; a second call changes nothing |
| Blake2.Digest | cipher/blake2.c:511-562 | initialised, written twice and finished, a context holds the digest of both pieces together, or the size is refused |
| Blake2.InitCtx | cipher/blake2.c:451-503 | the keyed start is that of RFC 7693 if and only if the key given is not empty |
| Blake2.EmptyKey | cipher/blake2.c:472-476 | an empty key that is given all the same adds a block of zeros |
| Blake2.VlHash | cipher/blake2.c:506-562 | every output octet is that of the variable-length hash of section 3.3 of RFC 9106 |
| Rfc7693.StateNumber | cipher/blake2.c:412-414 | the octets of the state are its words as digits of one little-endian number |
| Rfc7693.AlgoSizes | cipher/blake2.c:70-76 | block, word and digest sizes, and the values of a word |
| Rfc7693.WordsMean | cipher/blake2.c:229-233 | the two counter words hold the count |
| Rfc7693.OneBlockHash | cipher/blake2.c:395-422 | the digest of at most one block, written out |
| Rfc7693.TwoBlockHash | cipher/blake2.c:173-422 | the digest of two blocks: what each is counted as, and which is marked the last |
| Rfc7693.ShortOutputs | cipher/blake2.c:506-562 | outputs up to 96 octets, written out |
| Sp80038B.DoubleLinear | cipher/cipher-cmac.c:151-166 | doubling is additive |
| Cmac.DoubleInPlace | cipher/cipher-cmac.c:151-166 | the byte-wise shift with its carry and conditional 0x87 or 0x1b is multiplication by x in GF(2^128) or GF(2^64) |
| Doubling.DoubleMeans | cipher/cipher-cmac.c:151-166 | for all blocks, doubling is twice the big-endian number, with 0x87 or 0x1b added to the last octet when a bit was lost |
| Cmac.GenerateSubkeys | cipher/cipher-cmac.c:125-174 | the subkeys of section 6.1 of SP 800-38B |
| Cmac.TakenExact | cipher/cipher-cmac.c:83-103 | a call takes in exactly its input if and only if the bulk function is absent or fewer than 2^32 octets follow the buffered block |
| CmacCalls.TakenCallIs | cipher/cipher-cmac.c:36-121 | what a context takes in of a call, by the number of octets taken in before |
| CmacCalls.CallExact | cipher/cipher-cmac.c:36-121 | for the octets taken in before and the length of a call: the MAC is that of the input for every cipher and all data if and only if the bulk function is absent or fewer than 2^32 octets follow those that complete the buffered block |
| CmacCalls.WrongMac | cipher/cipher-cmac.c:83-103 | for each failing length a cipher and an input whose tag differs in its first octet |
| Cmac.Context.Write | cipher/cipher-cmac.c:36-121 | what each call takes in; its BUG() is not reached |
| Cmac.Context.Final | cipher/cipher-cmac.c:177-210 | the chaining value is the MAC of section 6.2 of SP 800-38B |
| Sp80038B.NothingMac | cipher/cipher-cmac.c:177-210 | the MAC of nothing, written out |
| Sp80038B.TwoBlockMac | cipher/cipher-cmac.c:36-210 | of two blocks, the second full |
| Sp80038B.ShortMac | cipher/cipher-cmac.c:36-210 | of a block and a shorter rest |
| Cmac.Context.GetTag | cipher/cipher-cmac.c:213-240 | the MAC of everything taken in, in whatever pieces |
| Cmac.Context.CheckTag | cipher/cipher-cmac.c:213-240 | accepts exactly its leading octets |
| Eax.Handle.SetNonce | cipher/cipher-eax.c:167-229 | a fresh session whose stream begins with whatever key stream was saved before; the message so far joins the earlier ones |
| Eax.Handle.Authenticate | cipher/cipher-eax.c:130-147 | associated data appends |
| Eax.Handle.Crypt | cipher/cipher-eax.c:32-127 | the output is the next octets of that stream, which is counter mode from the nonce MAC when nothing was saved; the MAC takes in the ciphertext; message and ciphertext of all calls are kept |
| Eax.Handle.GetTag | cipher/cipher-eax.c:232-286 | the xor of the nonce, header and ciphertext MACs |
| Eax.Handle.CheckTag | cipher/cipher-eax.c:232-293 | accepts exactly its leading octets |
| Eax.TweakNumber | cipher/cipher-eax.c:205-220 | the block before nonce, header and ciphertext is its number, most significant octet first |
| Eax.TagOfBlocks | cipher/cipher-eax.c:167-286 | the tag of one block each, written out: 0 goes with the nonce, 1 with the header, 2 with the ciphertext |
| Eax.EmptyTag | cipher/cipher-eax.c:167-286 | the tag of nothing when enciphering changes nothing is 00 .. 03 |
| Eax.OpenUndoesSeal | cipher/cipher-eax.c:32-278 | handles with the same nonce and ciphertext hold the same message in whatever calls, it seals to that ciphertext, and with the same associated data they have the same tag |
| Eax.StaleExact | cipher/cipher-eax.c:167-229 | for the lengths of any messages of a handle and of the next one: the next is EAX for every cipher, nonces and data if and only if the octets of the messages so far make whole blocks together, or it is empty |
| Eax.SavedIs | cipher/cipher-eax.c:167-229 | in every state of a handle, the key stream it holds for its next set_nonce is what all its messages since it was made or reset leave, one after the other |
| Eax.SavedNothing | cipher/cipher-eax.c:167-229 | a handle holds no such key stream if and only if the octets of all its messages make whole blocks together, however many messages there were |
| Eax.SavedLength | cipher/cipher-ctr.c:53-121 | messages leave as many octets of key stream as their octets together lack of whole blocks |
| Eax.StaleWrong | cipher/cipher-eax.c:167-229 | a cipher, nonces and data for each failing list of lengths |
| Eax.StaleRun | cipher/cipher-eax.c:32-229 | a run on a handle whose second message is not EAX |
| Eax.StaleRunOfThree | cipher/cipher-eax.c:32-229 | a run with messages of one, sixteen and one octets, in which the third is not EAX although the second ended a block |
| Cfb.State.Crypt | cipher/cipher-cfb.c:33-227 | plaintext and ciphertext of all calls together stay in the relation of cipher feedback, the IV holds the current block's ciphertext and its unused masks |
| Cfb.RoundTrip | cipher/cipher-cfb.c:33-227 | plaintext determines ciphertext and ciphertext plaintext, so any split decrypts what any other made |
| Cfb.StepRelated | cipher/cipher-cfb.c:51-72 | more of the current block, masked, extends the relation |
| Cfb.StepIv | cipher/cipher-cfb.c:51-121 | the new ciphertext takes the place of the masks in the IV |
| Cfb.State8.Crypt | cipher/cipher-cfb.c:230-317 | the same for eight-bit feedback with its shifted IV |
| Cfb.RoundTrip8 | cipher/cipher-cfb.c:230-317 | and its round trip |
| ModeForms.CfbTwo | cipher/cipher-cfb.c:33-227 | two blocks written out |
| ModeForms.Cfb8Two | cipher/cipher-cfb.c:230-317 | two octets of eight-bit feedback written out |
| Cbc.CbcRoundTrip | cipher/cipher-cbc.c:34-227 | CBC decryption undoes encryption |
| Cbc.CtsSealIs | cipher/cipher-cbc.c:103-166 | moving the last full block up under the final one is CBC-CS3 of the addendum to SP 800-38A |
| Cbc.CtsRoundTrip | cipher/cipher-cbc.c:103-292 | ciphertext stealing round-trips from the same IV for every length above one block |
| Cbc.CtsIvs | cipher/cipher-cbc.c:159-286 | the IVs the two directions leave, the block enciphered last and the block stolen from, and when they are equal |
| ModeForms.CbcTwo | cipher/cipher-cbc.c:34-99 | two blocks written out |
| ModeForms.CtsTwo | cipher/cipher-cbc.c:103-166 | a block and a shorter rest with stealing, written out |
| Cbc.State.Encrypt | cipher/cipher-cbc.c:76-99 | CBC, or its last block only for a MAC, in place or not |
| Cbc.State.Decrypt | cipher/cipher-cbc.c:204-227 | CBC decryption in place |
| Cbc.State.Steal | cipher/cipher-cbc.c:136-154 | the loop moves the block while it is being overwritten |
| Cbc.State.CtsEncrypt | cipher/cipher-cbc.c:103-166 | CBC-CS3 above one block, plain CBC up to it |
| Cbc.State.CtsDecrypt | cipher/cipher-cbc.c:230-292 | its inverse, in place |
| CbcCalls.IvsAgree | cipher/cipher-cbc.c:103-292 | for every accepted length, both directions leave the same IV for all ciphers, IVs and data if and only if it is at most one block |
| CbcCalls.IvsDiffer | cipher/cipher-cbc.c:103-292 | otherwise an input at which they differ |
| CbcCalls.AnyCall | cipher/cipher-cbc.c:103-292 | for the lengths of any accepted calls and of the next one: the next decrypts to its plaintext for every cipher, IV and data if and only if it is empty, or the last earlier call that was not empty has at most one block, or there is none |
| CbcCalls.IvsMeet | cipher/cipher-cbc.c:103-292 | in that case the two sides, started at one IV, stand at one IV again |
| CbcCalls.IvsPart | cipher/cipher-cbc.c:103-292 | otherwise a cipher, IV and calls after which they stand apart |
| CbcCalls.WrongIv | cipher/cipher-cbc.c:169-292 | a text opens under another IV than its own only if it is empty |
| CbcCalls.SealChains | cipher/cipher-cbc.c:34-99 | two calls of plain CBC make the ciphertext and IV of one |
| CbcCalls.OpenChains | cipher/cipher-cbc.c:169-227 | and so do two calls of decryption |
| CbcCalls.AnySplit | cipher/cipher-cbc.c:34-227 | a text made in two calls decrypts in any two others, to the same IV |
| Bulk.BulkCtr | cipher/bulkhelp.h:136-177 | the data masked block by block and the advanced counter, with the number of every block as batches and 32-bit additions make it, for every number of blocks and every size of tmpbuf |
| Bulk.BulkCtrExact | cipher/bulkhelp.h:136-177 | that is counter mode with the counter advanced by the number of blocks, for every cipher, counter and data, if and only if no batch has 2^32 blocks |
| Bulk.BatchMasks | cipher/bulkhelp.h:154-163 | a batch of counters put through the cipher together is the next masks |
| Bulk.BulkCtr32Le | cipher/bulkhelp.h:180-226 | the counter mode of RFC 8452; the 64-bit arithmetic changes the first four octets only |
| Bulk.LowWordIsInc | cipher/bulkhelp.h:201-209 | masking and adding to the low half of a 64-bit word is the 32-bit step |
| Bulk.BulkCbcDec | cipher/bulkhelp.h:229-262 | CBC decryption, in place |
| Bulk.BulkCfbDec | cipher/bulkhelp.h:265-303 | plaintext in the relation of cipher feedback, in place |
| Bulk.MaskedIsRelated | cipher/bulkhelp.h:265-303 | masks made a batch at a time are those of cipher feedback |
| Bulk.BulkOcb | cipher/bulkhelp.h:306-358 | offsets, blocks and checksum of RFC 7253 |
| Bulk.BulkXts | cipher/bulkhelp.h:401-470 | XTS a block at a time, and the next tweak |
| Bulk.NextTweak | cipher/bulkhelp.h:425-433 | shifts and a conditional 0x87 on two words multiply the tweak by x in GF(2^128) |
| Bulk.XtsRoundTrip | cipher/bulkhelp.h:401-470 | the same tweaks with the inverse block function give the data back |
| Doubling.AlphaMeans | cipher/bulkhelp.h:425-433 | for all tweaks, the next is twice the little-endian number, with 0x87 added to the first octet when a bit was lost |
| ModeForms.XtsTwo | cipher/bulkhelp.h:401-470 | two blocks written out |
| Bulk.MasksGiveStream | cipher/bulkhelp.h:153-165 | masks of batches below 2^32 blocks are the key stream, whatever the size of tmpbuf |
| Bulk.CryptFullIsWhiten | cipher/bulkhelp.h:306-358 | RFC 7253 blocks one at a time are one whitened pass over the run |

## Left out

- Assembly, SIMD dispatch and ABI glue: an accelerated function stands for the contract of its C counterpart.
- The Power 10 kernels and the s390x Poly1305 blocks: register forms of what is modelled.
- S-box tables, selftests, object identifiers and cipher descriptions: data and plumbing; the methods of Camellia take any S-boxes, those of RFC 3713 are written down for its vectors.
- Stack burning, wiping and constant-time comparison: no functional meaning; comparison is equality.
- Allocation, null pointers and arguments a caller cannot form; lengths are bounded only where the code's own word arithmetic matters.
- The compression function of BLAKE2 and the xor of its parameter block into the initial value: parameters of the model, used through their counter and finalization words.
- The block registers u_iv, u_ctr, lastiv and the subkey tables: values of type sequence that methods reassign, so aliasing of those small buffers is not modelled; input, output, MAC and scratch buffers are arrays.
- 64-bit words in OCB, GHASH, GCM-SIV and XTS doubling: sequences of bits; adding a word to itself is a shift, adding disjoint bits an or.
- The two words of a Camellia half travel as one 64-bit value, and the halves of a rotation, which have no bit in common, are joined with or where the code adds them; the key bytes are taken as already loaded.
- Associated data, read once and never written, is a sequence rather than an array.
- tmpbuf of the XTS loop holds the tweak octets themselves, not host-order words: the two orders are read back as they were written.
- num_used_tmpblocks of the bulk loops: only tells how much to wipe.
- bulk_ecb_crypt_128: an easier sibling of the loops modelled.
- Bulk paths inside CBC and CFB encryption: the C loop with the same contract.
- Changing the key after set_nonce in GCM-SIV when the derived key is refused: the derived key is taken to be accepted.
- OFB, GCM proper, XTS with ciphertext stealing, SIV and stream ciphers other than ChaCha20: not modelled.
- BitHelp rotations and swaps, blowfish.c, cast5.c, arcfour.c, aria.c: easier or dominated by tables.
- ChaChaAead.Aead.GetTag: takes the encoded lengths as given, because the counters are kept by cipher-poly1305.c.
- Cmac.Context.Write: in the overlong case states what is taken in, not a MAC of the input.
- Ctr.State.Encrypt: starts at a whole counter block, as a freshly set counter does.
- Cfb.State.Crypt: does not model the sync operation that realigns the IV.
- Ocb.Handle.Crypt: bounds the message so that block numbers stay below 2^64.
- GcmSiv.Handle.Encrypt: takes the message in one call, as the code demands.
