# libakrypt block-cipher keys and the MGM mode, in Dafny

This project models the core of libakrypt's symmetric layer. That core is
declared in `source/ak_bckey.h` and `source/ak_mgm.h`.

- **The block-cipher key** (`struct bckey`, class `Bckey.BlockCipherKey`): a
  block size of 8 or 16 bytes, a 32-byte key, and the cipher's single-block
  transforms `encrypt` and `decrypt`. It also holds the `ivector` buffer,
  which is always exactly one block long; the invariant `Valid` keeps it so. The key offers these modes of operation:
  - ECB, section 5.1 of GOST R 34.13-2015;
  - CTR, section 5.2 of that standard;
  - CTR-ACPKM with ACPKM key evolution, sections 6.2.1 and 6.2.2 of RFC 8645;
  - OMAC, section 5.6 of GOST R 34.13-2015.

  Each mode is a method that loops over blocks. Each method is proved against a
  pure function in module `Modes`, and the properties of the modes are lemmas
  about those functions.
- **The MGM context** (`struct mgm_ctx`, class `Mgm.MgmContext`):
  - the fields are `sum`, `ycount`, `zcount`, `pbitlen`, `abitlen` and `flags`;
  - the calls are authentication clean, update and finalize, and encryption
    clean, encryption update and decryption update, each updating the fields in
    place;
  - each call is proved to perform one step of the pure state machine in module
    `MgmSpec`, which is the streaming form of section 4 of RFC 9058.

  `MgmSpec` also states the whole-message mode as formulas: the ciphertext and
  the tag. Lemmas prove that the streaming calls, made in order and over any
  chunking, yield exactly those formulas, and that decryption undoes encryption.
- **The one-shot calls** `encrypt_mgm` and `decrypt_mgm` (`Mgm.EncryptMgm`,
  `Mgm.DecryptMgm`). They run clean → associated data → encryption clean →
  data → finalize on a fresh context. Both are declared in both headers.
- **The MGM MAC object** (`struct mgm`, class `Mgm.MgmMac`): a key, a
  context and a stored IV. It is driven by set_iv, set_key, clean, update and
  finalize.

The block cipher (Magma or Kuznechik) is abstract. It is a pair of
length-preserving transforms on blocks, with decryption inverse to encryption
(`Modes.ValidCipher`). Multiplication in GF(2^n) is also abstract: a
length-preserving function `gf` (`MgmSpec.FieldMul`). Byte strings are
big-endian (`Octets.ToNat`).

The two headers declare the operations but do not define them, so their
behaviour is taken from standards. `source/ak_bckey.h` cites GOST R 34.13-2015
for CTR and OMAC (ak_bckey.h:84, :89); the ECB declarations (:80, :82) cite
none, and the model follows section 5.1 of that standard. The header cites
R 1323565.1.017-2018 (RFC 8645) for CTR-ACPKM, and
R 1323565.1.012-2018 for the ACPKM key evolution `NextAcpkmKey`, which RFC 8645
section 6.2.1 states in the same form. `source/ak_mgm.h` cites no standard; for
MGM the model follows RFC 9058 (R 1323565.1.026-2019), the published definition
of the mode.
The choices the model makes where those standards leave room are listed under
"## Left out", each on a line that starts with the member concerned.

## Model

| member | source | states |
|---|---|---|
| Bckey.BlockCipherKey.constructor | source/ak_bckey.h:30-46 | a key of block size n over the given transforms and 32-byte key; the ivector is one zero block and marked not set, and the invariant `Valid` holds |
| Bckey.BlockCipherKey.Create | source/ak_bckey.h:50 | creation fails with InvalidParameter exactly for an unsupported block size and with InvalidKeyLength for a key not 32 bytes long; otherwise a fresh valid key with that size, transforms and key |
| Bckey.BlockCipherKey.Copy | source/ak_bckey.h:73-74 | create_and_set_bckey: the new key has the source's bsize, encrypt, decrypt and key value, and a fresh unset ivector |
| Bckey.BlockCipherKey.SetKey | source/ak_bckey.h:66 | a 32-byte key replaces the old one; any other length is refused with InvalidKeyLength and leaves the key unchanged |
| Bckey.BlockCipherKey.EcbLoop | source/ak_bckey.h:80-83 | the block loop computes the ECB function of whole-block data |
| Bckey.BlockCipherKey.EncryptEcb | source/ak_bckey.h:80-81 | succeeds exactly when the length is a multiple of bsize, with the ECB encryption; otherwise InvalidLength |
| Bckey.BlockCipherKey.DecryptEcb | source/ak_bckey.h:82-83 | the same with the decryption transform |
| Bckey.BlockCipherKey.CtrStart | source/ak_bckey.h:84-85 | the starting counter: IV of exactly bsize/2 bytes followed by zeros, or the stored counter when no IV is given; fails exactly when the IV has the wrong length or there is nothing to continue |
| Bckey.BlockCipherKey.CtrLoop | source/ak_bckey.h:84-85 | the block loop computes the CTR function and the counter after the last whole block |
| Bckey.BlockCipherKey.Ctr | source/ak_bckey.h:84-85 | on a bad start nothing changes; otherwise the output is the CTR function, the stored counter is advanced one step per whole block, and continuation is allowed only if the data ended on a block boundary |
| Bckey.BlockCipherKey.NextAcpkmKey | source/ak_bckey.h:75-77 | the key is replaced by NextKey of the old key, the ECB encryption of D_1..D_J; block size and transforms are constants |
| Bckey.BlockCipherKey.CtrAcpkm | source/ak_bckey.h:86-88 | InvalidParameter unless the section is a positive multiple of bsize, InvalidIVLength unless the IV is bsize/2 bytes (nothing changes on error); otherwise the CTR-ACPKM function, the key left evolved once per section boundary crossed, the counter advanced per whole block |
| Bckey.BlockCipherKey.AcpkmLoop | source/ak_bckey.h:86-88 | the section loop computes the CTR-ACPKM function, the final key and the final counter |
| Bckey.BlockCipherKey.Omac | source/ak_bckey.h:89-90 | the loop computes the OMAC function of the data |
| Modes.WholeBlocksMod | source/ak_bckey.h:35-37 | a length is whole blocks exactly when it is a multiple of the block size |
| Modes.BlocksValue | source/ak_bckey.h:84-85 | the number of whole blocks in len bytes is len / n |
| Modes.EcbRoundTrip | source/ak_bckey.h:80-83 | ECB decryption undoes ECB encryption for a valid cipher on whole-block data |
| Modes.CtrInvolution | source/ak_bckey.h:84-85 | CTR applied twice with the same key and counter restores any data |
| Modes.CtrConcat | source/ak_bckey.h:84-85 | CTR over x then y (x whole blocks) equals CTR over x + y, the second call starting from the counter advanced once per block of x |
| Modes.CtrBlock | source/ak_bckey.h:84-85 | keystream block i is the encryption of the counter advanced i steps |
| Modes.CtrCounterValue | source/ak_bckey.h:84-85 | after j steps the counter started at IV‖0^h holds IV·256^h + j modulo 256^(len(IV)+h) |
| Modes.NextKey | source/ak_bckey.h:75-77 | the next ACPKM key is a key length long |
| Modes.AcpkmKeyAfterCount | source/ak_bckey.h:86-88 | after len bytes the key has been evolved once per whole section before the last byte |
| Modes.CtrAcpkmFirst | source/ak_bckey.h:86-88 | the first section of CTR-ACPKM is plain CTR under the original key |
| Modes.CtrAcpkmSection | source/ak_bckey.h:86-88 | section i of CTR-ACPKM is plain CTR under the key evolved i times, with the counter not reset |
| Modes.ShiftInValue | source/ak_bckey.h:89-90 | a one-bit left shift doubles the value, the top bit going out and the carry coming in |
| Modes.SubkeyValue | source/ak_bckey.h:89-90 | the OMAC subkey step is doubling with the top bit dropped, followed by xor with B_n exactly when that bit was set |
| Modes.UnpadPad | source/ak_bckey.h:89-90 | removing the OMAC padding recovers the short block |
| Modes.OmacPadInjective | source/ak_bckey.h:89-90 | distinct short blocks have distinct paddings |
| Modes.OmacFormula | source/ak_bckey.h:89-90 | the OMAC tag is E(P_q ⊕ C_(q-1) ⊕ K1) for a full last block and E(pad(P_q) ⊕ C_(q-1) ⊕ K2) for a short one |
| Octets.XorCancel | source/ak_bckey.h:84-85 | xoring the same keystream twice cancels |
| Octets.IncrementValue | source/ak_bckey.h:84-85 | the counter step is +1 modulo 2^(8n) |
| Octets.IterateIncrementValue | source/ak_bckey.h:84-85 | j counter steps add j modulo 2^(8n) |
| Octets.FromNatToNat | source/ak_mgm.h:25-27 | a bit count below 2^(8h) is written in h big-endian bytes without loss |
| Octets.IterateRight | source/ak_mgm.h:21 | incr_r steps count in the right half of Y only |
| Octets.IterateLeft | source/ak_mgm.h:23 | incr_l steps count in the left half of Z only |
| MgmSpec.Nonce | source/ak_mgm.h:47 | the initial counter block is the IV preceded by zero bytes, its leading bit forced to the given marker and the other bits kept |
| MgmSpec.NonceInjective | source/ak_mgm.h:47 | two IVs of one length that start the same counter are equal, except that a full-block IV may differ in its leading bit only |
| MgmSpec.NonceDistinct | source/ak_mgm.h:47 | Y_1 and Z_1 are never computed from the same block |
| MgmSpec.AbsorbConcat | source/ak_mgm.h:49 | authenticating whole blocks x and then y is authenticating x + y |
| MgmSpec.AbsorbShort | source/ak_mgm.h:49 | a short block has been taken exactly when the data is not whole blocks |
| MgmSpec.LenBlockInjective | source/ak_mgm.h:25-27 | bit counts that fit their fields are recovered from the final lengths block |
| MgmSpec.MgmRoundTrip | source/ak_mgm.h:63-70 | opening the sealed ciphertext with its tag gives back the plaintext and true; a tag of the same length is accepted only if it is the sealed one (a shorter tag is checked at its own length, see MgmTagPrefix) |
| MgmSpec.MgmTagPrefix | source/ak_mgm.h:68-70 | the tag of length t is the leading t bytes of every longer tag over the same data, so a leading part of the genuine tag is accepted at its own length |
| MgmSpec.AuthClean | source/ak_mgm.h:47 | fails with InvalidIVLength exactly for an IV not 1..n bytes long; otherwise sum 0, Z = E(1‖ICN), both bit counts 0, associated data open |
| MgmSpec.AuthUpdate | source/ak_mgm.h:49 | PhaseViolation unless associated data is open, DataTooLong once the bit count would not fit its field; otherwise the count grows by 8·len (never decreasing), the plaintext count and Y are kept |
| MgmSpec.EncClean | source/ak_mgm.h:54 | InvalidIVLength for a bad IV, PhaseViolation unless after the associated data; otherwise Y = E(0‖ICN), the plaintext count 0, the rest kept, the data phase open |
| MgmSpec.EncUpdate | source/ak_mgm.h:56-57 | PhaseViolation unless the data phase is open, DataTooLong on overflow; otherwise the output is CTR with incr_r from Y, the count grows by 8·len and the associated count is kept |
| MgmSpec.DecUpdate | source/ak_mgm.h:59-60 | the same errors and output, with the input authenticated instead |
| MgmSpec.Finalize | source/ak_mgm.h:51-52 | InvalidParameter for a tag length outside 1..n, PhaseViolation before a clean or after a finalize; otherwise the lengths block is authenticated, the tag is the leading s bytes of E(sum) and the context is finished |
| MgmSpec.FinalizeCloses | source/ak_mgm.h:51-52 | after finalize every update, encryption clean and second finalize fails with PhaseViolation until authentication clean reopens the context |
| MgmSpec.DecUndoesEnc | source/ak_mgm.h:56-60 | decrypting the ciphertext from the same state returns the plaintext and the very same next state |
| MgmSpec.AuthUpdateCloses | source/ak_mgm.h:49 | an update closes the associated data exactly when its chunk ends in a short block, after which updates fail |
| MgmSpec.AuthUpdateConcat | source/ak_mgm.h:49 | two associated-data updates, the first of whole blocks, equal one update over the concatenation |
| MgmSpec.CipherNextConcat | source/ak_mgm.h:56-60 | two data steps, the first of whole blocks, equal one step over the concatenation |
| MgmSpec.CounterConcat | source/ak_mgm.h:21 | advancing Y over whole blocks and then more is advancing it over both |
| MgmSpec.EncUpdateConcat | source/ak_mgm.h:56-57 | two encryption updates, the first of whole blocks, equal one update over the concatenation, outputs joined |
| MgmSpec.DecUpdateConcat | source/ak_mgm.h:59-60 | the same for two decryption updates |
| MgmSpec.AuthUpdatesFlatten | source/ak_mgm.h:49 | any chunking of the associated data with only the last chunk short gives the same result as one update |
| MgmSpec.EncUpdatesFlatten | source/ak_mgm.h:56-57 | the same for the plaintext, outputs concatenated |
| MgmSpec.DecUpdatesFlatten | source/ak_mgm.h:59-60 | the same for the ciphertext, outputs concatenated |
| MgmSpec.AuthUpdatesCount | source/ak_mgm.h:25-27 | accepted associated-data chunks count exactly their bits and leave the data count alone |
| MgmSpec.EncUpdatesCount | source/ak_mgm.h:25-27 | accepted data chunks count exactly their bits, leave the associated count alone and output as many bytes as they take |
| MgmSpec.AuthSteps | source/ak_mgm.h:47-49 | clean and one update over A succeed and leave the accumulator of the formula over A |
| MgmSpec.SealCipherSteps | source/ak_mgm.h:54-57 | encryption clean and one update over P succeed with the formula's ciphertext, which is what gets authenticated |
| MgmSpec.OpenCipherSteps | source/ak_mgm.h:54-60 | encryption clean and one decryption update over C succeed with the formula's plaintext, C being authenticated |
| MgmSpec.FinalStep | source/ak_mgm.h:51-52 | finalize after A and C gives the formula's tag |
| MgmSpec.SealSteps | source/ak_mgm.h:64-66 | the five calls in order from any state produce the formula's ciphertext and tag |
| MgmSpec.OpenSteps | source/ak_mgm.h:68-70 | the five calls with decryption produce the formula's plaintext and the tag over the received ciphertext |
| MgmSpec.SealRun | source/ak_mgm.h:64-66 | the call chain of encrypt_mgm yields a ciphertext as long as the plaintext and a tag of the asked length |
| MgmSpec.SealRunResult | source/ak_mgm.h:64-66 | that chain fails with InvalidIVLength, then DataTooLong, then InvalidParameter on a bad tag length, in that order, and otherwise gives the formula's ciphertext and tag |
| MgmSpec.OpenRunResult | source/ak_mgm.h:68-70 | the decrypting chain fails in the same order and otherwise gives the formula's plaintext and the tag over the ciphertext |
| MgmSpec.MacFinalStep | source/ak_mgm.h:101 | finalize straight after the associated data gives the tag over A with empty C |
| MgmSpec.MacSteps | source/ak_mgm.h:97-101 | clean, a whole-block update and a last update (skipped when empty) followed by finalize give the tag over the whole message |
| MgmSpec.ChunkedSeal | source/ak_mgm.h:47-57 | however A and P are cut into chunks, with only the last of each short, the streaming calls give the formula's ciphertext and tag |
| MgmSpec.ChunkedOpen | source/ak_mgm.h:47-60 | however A and C are cut into chunks, with only the last of each short, clean, the updates, decryption and finalize give the formula's plaintext and the tag over the received ciphertext |
| Mgm.MgmContext.State | source/ak_mgm.h:17-30 | the fields read as a state of the machine, well-sized exactly when sum and both counters are one block long |
| Mgm.MgmContext.constructor | source/ak_mgm.h:17-30 | a context of block size n, zeroed and not cleaned |
| Mgm.MgmContext.AuthenticationClean | source/ak_mgm.h:47 | performs AuthClean on the fields; on error the fields are unchanged |
| Mgm.MgmContext.AuthenticationUpdate | source/ak_mgm.h:49 | performs AuthUpdate on the fields; on error the fields are unchanged |
| Mgm.MgmContext.EncryptionClean | source/ak_mgm.h:54 | performs EncClean on the fields; on error the fields are unchanged |
| Mgm.MgmContext.EncryptionUpdate | source/ak_mgm.h:56-57 | performs EncUpdate, returning its ciphertext; on error the fields are unchanged |
| Mgm.MgmContext.DecryptionUpdate | source/ak_mgm.h:59-60 | performs DecUpdate, returning its plaintext; on error the fields are unchanged |
| Mgm.MgmContext.AuthenticationFinalize | source/ak_mgm.h:51-52 | performs Finalize, returning its tag; on error the fields are unchanged |
| Mgm.MgmContext.CipherUpdate | source/ak_mgm.h:56-60 | the shared block loop returns CTR with incr_r from ycount and leaves the fields at the next data state |
| Mgm.MgmMac.constructor | source/ak_mgm.h:35-42 | a MAC object over a fresh private copy of the key (same block size, transforms and key value), with a fresh uncleaned context and no IV |
| Mgm.MgmMac.SetIv | source/ak_mgm.h:87 | an IV of 1..bsize bytes is stored; any other is refused with InvalidIVLength and the old one kept |
| Mgm.MgmMac.SetKey | source/ak_mgm.h:89 | as the key's set_key: a 32-byte key replaces the old one, others are refused |
| Mgm.MgmMac.Clean | source/ak_mgm.h:97 | authentication clean from the stored IV |
| Mgm.MgmMac.Update | source/ak_mgm.h:99 | authentication update over the chunk |
| Mgm.MgmMac.Finalize | source/ak_mgm.h:101 | a non-empty last chunk is first authenticated, then a tag of bsize bytes; the first error stops and is returned |
| Mgm.EncryptMgm | source/ak_mgm.h:64-66 | InvalidParameter for keys of different block sizes; otherwise the errors of SealRunResult in order, or exactly the formula's ciphertext and tag |
| Mgm.Seal | source/ak_mgm.h:64-66 | the five context calls in order compute SealRun from the context's state |
| Mgm.DecryptMgm | source/ak_bckey.h:98-100 | true only for matching block sizes, valid parameters and lengths within bounds; then the verdict is that of the whole-message formula and, when true, the output is its plaintext; on false nothing is output |
| Mgm.Open | source/ak_mgm.h:68-70 | the five context calls with decryption compute OpenRun from the context's state |
| Mgm.AbsorbLoop | source/ak_mgm.h:49 | the block loop of authentication update computes Absorb, a short final block zero-padded |
| Mgm.CipherLoop | source/ak_mgm.h:56-60 | the block loop of encryption and decryption update computes the CTR output, the accumulator over the ciphertext and Y advanced per whole block |

## Left out

- The Magma and Kuznechik round functions, their key schedules (`schedule_keys`, `delete_keys`) and their tables are not modelled. The cipher is an abstract pair of inverse transforms, which is all the modes depend on.
- Multiplication in GF(2^64) and GF(2^128) is an abstract length-preserving function. No algebraic property of it is needed or assumed.
- create_magma, create_kuznechik and create_oid (for both the key and the MGM object), destroy and delete are left out. They are allocation and registry lookups; `Create`, `Copy` and the constructors stand for them.
- set_key_random and set_key_from_password are left out. They need randomness and password hashing from outside this core.
- The integrity checksum and masking of the key in `struct skey`, and set_key's third argument (whether the key buffer is copied), are left out. They concern storage, not values.
- Null arguments, allocation failures, buffer alignment and in-place operation (input and output sharing memory) are left out, because values have no addresses.
- The self-tests (`ak_bckey_test_mgm`, `ak_bckey_test_magma`, `ak_bckey_test_kuznechik`, `ak_bckey_test_acpkm`) and the Kuznechik table initialisation are left out. They run fixed vectors and have no state of their own.
- ssize_t and size_t widths are not modelled. Bit counts are unbounded, and each is limited only by the field it must fit into: fewer than 2^(8·n/2) bits. The 128-bit fields are used at the block length.
- The variants of encrypt_mgm and decrypt_mgm that take a missing encryption or authentication key are left out. Both keys are always present.
- Mgm.DecryptMgm: on every failure, a tag mismatch included, the output is empty, so no unauthenticated plaintext is released. The tag comparison is not stated to run in constant time, because timing is not modelled.
- Mgm.EncryptMgm: keys of different block sizes are refused with InvalidParameter. The order of the other errors follows the order of the calls.
- Bckey.BlockCipherKey.Ctr: the IV must be exactly bsize/2 bytes. A stream that ended in a partial block cannot be continued.
- Bckey.BlockCipherKey.CtrAcpkm: the key evolves only between sections, and the ivector is left not set.
- Bckey.BlockCipherKey.Create: creation and set_key are combined.
- Bckey.BlockCipherKey.EncryptEcb: the empty input is accepted.
- Bckey.BlockCipherKey.SetKey: the ivector is not reset.
- Mgm.MgmMac.Finalize: the tag is always bsize bytes long.
- Mgm.MgmContext.constructor: the context is fixed to one block size.
- The claim that CTR-ACPKM's keystream after a section boundary differs from plain CTR is not stated. It depends on the concrete cipher.
- The flags word is modelled as the enumeration `Phase`.
- MgmSpec.Nonce: an IV of 1 to n bytes is accepted. A short IV is preceded by zero bytes. A full-block IV gives up its leading bit to the Y/Z marker, which is the (n-1)-bit nonce of section 4 of RFC 9058.
- MgmSpec.Finalize: the lengths block len(A) ‖ len(C) is multiplied by H = E(Z) and the product added to the sum, as in section 4 of RFC 9058.
- MgmSpec.AuthUpdate: each bit count is bounded on its own, by the n/2-byte field it is written into. The joint condition of section 4 of RFC 9058 on the two lengths together (A and P not both empty, and their sum below 2^(n/2) bits) is not enforced. So an empty A with an empty P, and an A and P each within bounds but too long together, are accepted, by EncUpdate, DecUpdate, SealRunResult and OpenRunResult as well.
- MgmSpec.AuthClean: both bit counts are reset, the plaintext count as well as the associated-data count.
- Modes.CtrAcpkm: the counter steps by +1 modulo 2^n over the whole block, as in plain CTR. Section 6.2.2 of RFC 8645 counts in the low n/2 bits only. The two differ only after 2^(n/2) blocks, which is beyond the mode's length limits.
