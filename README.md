# SM4, SM4-GCM, SM3 and SM2 in Dafny

This project models the Chinese national-standard primitives of the repository and proves properties of the model:

- **SM4** is the block cipher of GB/T 32907-2016. It comes in three copies:
  - the `SM4` class of Project-1/sm4_gcm_modopt.cpp;
  - the same class in Project-1/sm4.cpp, without `encryptBlocks`/`decryptBlocks`; its remaining members are identical to those of sm4_gcm_modopt.cpp and are modelled once;
  - the functions of Project-1/sm4.py.
- **SM4-GCM** is the authenticated mode of Project-1/sm4_gcm_modopt.cpp, with its own multiplication in GF(2^128), GHASH, counter derivation, counter mode and tag.
- **The Python modes**: PKCS#7 padding and the ECB, CBC, CFB, CTR and OFB modes of Project-1/sm4.py.
- **SM3** is the hash of GB/T 32905-2016. It comes in two versions:
  - the plain `SM3` class of Project-4/sm3.cpp;
  - the copy in Project-4/sm3_optimization.cpp, whose round loop is unrolled eight ways.
- **SM2** curve arithmetic: affine point addition and double-and-add scalar multiplication in Project-5/sm2.py, and the 4-bit window variant of Project-5/sm2_optimization.py.

Each piece is specified by pure functions: the SM4 network, the key schedule, the mode definitions, the SM3 compression function, and SM2's `point_add`. The pieces of the source that work in place become methods on Dafny arrays or sequences:
- the C++ loops over `x[36]`, `k`, `W`, `W1` and `V`;
- the GCM buffers;
- the Python loops that append to lists;
- the `while` loops of `scalar_mult`.

Each method is proved against those functions, with one method per loop of the source.

Words and bytes are bounded integers (`word` is below 2^32, `byte` below 256). The C++ code uses `uint32_t` wrap-around in two places, and both are written out:
- `Add32` is addition modulo 2^32;
- the SM3 bit length `len * 8` is reduced modulo 2^64, as `size_t` arithmetic does.

Files:

| file | module | contents |
|---|---|---|
| wrappers.dfy | Wrappers | `Option`, `Result`, and the Python exceptions the code can raise |
| words.dfy | Words | bitwise operations, rotation, big-endian packing, XOR of byte strings |
| sm4.dfy | Sm4 | S-box, linear maps, key schedule, the 32-round network, block round trip |
| sm4_cpp.dfy | Sm4Cpp | the C++ `SM4` class as array methods |
| sm4_py.dfy | Sm4Py | `_key_expansion`, `_round_func`, `_crypt_block` |
| modes.dfy | Modes | padding, block splitting, and the five modes over any block function |
| sm4_py_modes.dfy | Sm4PyModes | the mode functions of sm4.py instantiated with SM4, as loops |
| gf128.dfy | Gf128 | `gfmul` as written, and the multiplication of SP 800-38D section 6.3 |
| gcm_spec.dfy | GcmSpec | inc32, GHASH, J0, GCTR, tag, seal and open as functions |
| gcm.dfy | Gcm | the `SM4_GCM` class as array methods |
| sm3.dfy | Sm3 | SM3 padding, expansion, compression, and class `SM3` of sm3.cpp |
| sm3_unrolled.dfy | Sm3Unrolled | the unrolled round loop of sm3_optimization.cpp |
| sm2.dfy | Sm2 | curve constants, modular inverse, `point_add`, `scalar_mult` |
| sm2_window.dfy | Sm2Window | `precomputed_G` and `scalar_mult_optimized` |

### Modelling choices

**SM4.** The network and the key schedule take their mixing function as a parameter. This lets the decryption round trip be proved for any `T` and any 32 round keys (`Sm4.RunReversed`), and lets one loop proof serve every copy. `Sm4.T` and `Sm4.TPrime` are `t` and `tPrime`.

**Where SM4 is used as a block function.** In the modes and in GCM the cipher appears only as a block function `f` with `IsEncryption(f, key)`. The methods and lemmas there hold for any block function. The instantiation with SM4 happens at the top-level method.

**Python exceptions.** The exceptions the Python code raises form the error half of a `Result`:
- `struct.error` for a key, block or IV of the wrong size;
- `IndexError` from `data[-1]` on empty data;
- `OverflowError` from `to_bytes(16, 'big')`;
- `ValueError` from `pow(x, -1, p)` and from `int('b…', 2)`.

A thrown `invalid_argument` in C++ becomes a `thrown` result.

**Python slices.** `zip` truncation and Python slicing are modelled as they behave. `unpad` trusts the last byte; it returns the empty string when that byte is 0 or larger than the data.

**SM3 rotation counts.** The standard rotates `T_j` by `j mod 32` (section 5.3.3). `leftRotate(T[j], j)` has no defined value for `j = 0` or `j >= 32`. The compression function uses `RotlMod`, the rotation by `j mod 32`, which is also what processors that reduce shift counts compute. The call as written is `Sm3.RoundConstantAsWritten`, which can only be applied where `0 < j < 32`.

**Where the specification and the code disagree, the model follows the code.** The SM3 digests use the table as written (`TAsWritten`), and the GCM methods use `gfmul` as written. The corrected definitions sit next to them, with their properties proved (see "## Findings").

## Model

| member | source | states |
|---|---|---|
| `Words.RotlBit` | Project-1/sm4_gcm_modopt.cpp:21-23 | `leftRotate(x, n)` with 0 < n < 32 moves bit m of x to bit (m + n) mod 32: it is a true 32-bit rotation |
| `Words.BeWordsOfBytes` | Project-1/sm4_gcm_modopt.cpp:104-109 | reading big-endian words from the bytes written for them gives the words back |
| `Words.BeBytesOfWords` | Project-1/sm4_gcm_modopt.cpp:117-122 | writing big-endian the words read from a byte string gives the bytes back |
| `Words.ZipXorCancel` | Project-1/sm4.py:125 | XORing twice with the same keystream, truncated to the shorter operand as `zip` does, restores the data |
| `Sm4.KeyWordsRecurrence` | Project-1/sm4_gcm_modopt.cpp:88-90 | every word k[i + 4] of the schedule is k[i] ^ T'(k[i + 1] ^ k[i + 2] ^ k[i + 3] ^ CK[i]) |
| `Sm4.RoundIsF` | Project-1/sm4_gcm_modopt.cpp:64-66 | a round with `t` shifts the state one word and appends f(x0, x1, x2, x3, rk) = x0 ^ T(x1 ^ x2 ^ x3 ^ rk) |
| `Sm4.RoundSwap` | Project-1/sm4.cpp:138-140 | one round applied to the reversed output of the same round gives back the reversed input, for any mixing function |
| `Sm4.RunReversed` | Project-1/sm4_gcm_modopt.cpp:141 | the network with the round keys reversed undoes the network on the reversed state, for any round keys and mixing function |
| `Sm4.LoadStore` | Project-1/sm4.cpp:115-120 | reading the output bytes back as four words gives x[35], x[34], x[33], x[32] |
| `Sm4.StoreLoad` | Project-1/sm4.cpp:102-107 | storing the loaded words in reverse order, as the output loop does after the state is reversed, reproduces the block |
| `Sm4.CryptReversed` | Project-1/sm4_gcm_modopt.cpp:98-151 | running the block transformation with reversed round keys after it restores any block |
| `Sm4.RoundTrip` | Project-1/sm4.cpp:96-149 | `decrypt(encrypt(b, key), key) == b` and `encrypt(decrypt(b, key), key) == b` for every 16-byte key and block |
| `Sm4.RoundKeys` | Project-1/sm4_gcm_modopt.cpp:93 | the key schedule returns exactly 32 words |
| `Sm4.MapBlocksAt` | Project-1/sm4_gcm_modopt.cpp:154-161 | block i of the output of a blockwise transformation is the transformation of block i of the input |
| `Sm4.MapBlocksInverse` | Project-1/sm4_gcm_modopt.cpp:164-171 | a blockwise transformation with an inverse block function is undone blockwise |
| `Sm4.BlocksRoundTrip` | Project-1/sm4_gcm_modopt.cpp:154-171 | `decryptBlocks` undoes `encryptBlocks` and vice versa on any whole number of blocks |
| `Sm4Cpp.KeyExpansion` | Project-1/sm4_gcm_modopt.cpp:69-94 | `keyExpansion` returns the 32 words k[4..36) of the MK ^ FK / CK recurrence, the round keys of GB/T 32907-2016 |
| `Sm4Cpp.ReadKey` | Project-1/sm4_gcm_modopt.cpp:72-77 | MK[i] is read big-endian from key[4i .. 4i + 4) |
| `Sm4Cpp.InitKey` | Project-1/sm4_gcm_modopt.cpp:83-85 | k[0..4) becomes MK ^ FK |
| `Sm4Cpp.ExpandKey` | Project-1/sm4_gcm_modopt.cpp:88-90 | the 32 steps fill k with the recurrence for any mixing function |
| `Sm4Cpp.LoadWords` | Project-1/sm4.cpp:102-107 | x[0..4) are the four big-endian words of the input block |
| `Sm4Cpp.Rounds` | Project-1/sm4_gcm_modopt.cpp:112-114 | x[32..36) is the state after 32 rounds from x[0..4) with the given round keys |
| `Sm4Cpp.StoreWords` | Project-1/sm4_gcm_modopt.cpp:117-122 | the output block holds x[35], x[34], x[33], x[32] big-endian; nothing outside it changes |
| `Sm4Cpp.CryptBlock` | Project-1/sm4_gcm_modopt.cpp:98-123 | the block written is the network applied to the input block read before any write, so input and output may alias |
| `Sm4Cpp.Encrypt` | Project-1/sm4.cpp:96-121 | `encrypt` writes the SM4 encryption of the input block and nothing else |
| `Sm4Cpp.Decrypt` | Project-1/sm4.cpp:124-149 | `decrypt` writes the SM4 decryption of the input block and nothing else |
| `Sm4Cpp.ReverseKeys` | Project-1/sm4.cpp:139 | round i of `decrypt` uses rk[31 - i]: the reversed key list |
| `Sm4Cpp.EncryptBuffer` | Project-1/sm4_gcm_modopt.cpp:154-161 | `encryptBlocks` encrypts block i of the input into block i of the output for every i < numBlocks, and leaves the rest of the output alone |
| `Sm4Cpp.DecryptBuffer` | Project-1/sm4_gcm_modopt.cpp:164-171 | `decryptBlocks` decrypts block i of the input into block i of the output, and leaves the rest of the output alone |
| `Sm4Py.RoundFuncIsRound` | Project-1/sm4.py:59-61 | `_round_func(X[-4:], rk)` is f of the last four words; appending it advances the state one round |
| `Sm4Py.KeyExpansion` | Project-1/sm4.py:50-57 | `_key_expansion` raises `struct.error` unless the key is 16 bytes, and otherwise returns the 32 SM4 round keys |
| `Sm4Py.AppendKeyWords` | Project-1/sm4.py:53-56 | the list K grows, from MK ^ FK, by the 32 words of the recurrence |
| `Sm4Py.AppendRounds` | Project-1/sm4.py:68-70 | X grows to 36 words whose last four are the state after the 32 rounds |
| `Sm4Py.CryptBlock` | Project-1/sm4.py:63-71 | `_crypt_block` raises `struct.error` unless key and block are 16 bytes; otherwise it is SM4 encryption, or decryption with the reversed keys |
| `Modes.Pad` | Project-1/sm4.py:73-76 | `pad` keeps the data as a prefix, appends 1 to 16 bytes each equal to their count, and makes the length a multiple of 16 |
| `Modes.Unpad` | Project-1/sm4.py:78-80 | `unpad` raises `IndexError` exactly on empty data; otherwise it returns a prefix, shorter by the last byte when that fits and empty when it does not |
| `Modes.UnpadPad` | Project-1/sm4.py:73-80 | `unpad(pad(d)) == d` |
| `Modes.SplitBlocks` | Project-1/sm4.py:82-84 | `_split_blocks` yields ceil(len / 16) non-empty pieces, all but the last 16 bytes, whose concatenation is the data |
| `Modes.SplitJoin` | Project-1/sm4.py:82-84 | splitting the concatenation of 16-byte blocks gives the blocks back |
| `Modes.EcbEncryptLength` | Project-1/sm4.py:86-88 | ECB encryption never fails and its output is as long as the padded plaintext |
| `Modes.EcbRoundTrip` | Project-1/sm4.py:86-93 | ECB decryption with an inverse block function recovers the plaintext |
| `Modes.EcbDecryptErrors` | Project-1/sm4.py:90-93 | ECB decryption raises `struct.error` on a ragged ciphertext, and `IndexError` on an empty one |
| `Modes.CbcEncryptLength` | Project-1/sm4.py:95-104 | CBC encryption fails, with `struct.error`, exactly when the IV is shorter than 16 bytes; otherwise the output has the padded length |
| `Modes.CbcRoundTrip` | Project-1/sm4.py:95-113 | CBC decryption recovers the plaintext for any IV of at least 16 bytes |
| `Modes.CbcDecryptErrors` | Project-1/sm4.py:106-113 | CBC decryption raises `struct.error` on a ragged ciphertext, and `IndexError` on an empty one |
| `Modes.CfbEncryptLength` | Project-1/sm4.py:151-160 | CFB encryption fails, with `struct.error`, exactly when the IV is not 16 bytes; otherwise the output has the padded length |
| `Modes.CfbRoundTrip` | Project-1/sm4.py:151-170 | CFB decryption recovers the plaintext |
| `Modes.CfbDecryptErrors` | Project-1/sm4.py:162-170 | CFB decryption succeeds exactly when the ciphertext is non-empty and the IV is 16 bytes, raising `IndexError` or `struct.error` otherwise |
| `Modes.ToBytesChecked` | Project-1/sm4.py:122 | `counter.to_bytes(16, 'big')` succeeds exactly when the counter fits, then reads back as the counter, and otherwise raises `OverflowError` |
| `Modes.CtrStreamError` | Project-1/sm4.py:117-126 | CTR fails exactly when the data is non-empty and the last counter it needs does not fit in 16 bytes, and the failure is `OverflowError` |
| `Modes.CtrInvolution` | Project-1/sm4.py:115-131 | CTR output is as long as its input, and applying it twice with the same IV is the identity, so `decrypt_ctr` undoes `encrypt_ctr` |
| `Modes.OfbError` | Project-1/sm4.py:133-144 | OFB fails exactly when the data is non-empty and the IV is not 16 bytes, and the failure is `struct.error` |
| `Modes.OfbInvolution` | Project-1/sm4.py:133-148 | OFB output is as long as its input, and applying it twice with the same IV is the identity |
| `Sm4PyModes.EncryptEcb` | Project-1/sm4.py:86-88 | `encrypt_ecb` with SM4 succeeds exactly when the key is 16 bytes, then returning as many bytes as the padded plaintext; otherwise `struct.error` |
| `Sm4PyModes.DecryptEcb` | Project-1/sm4.py:90-93 | `decrypt_ecb` raises `struct.error` on a ragged ciphertext, `IndexError` on an empty one, and `struct.error` on any other ciphertext when the key is not 16 bytes |
| `Sm4PyModes.EcbRoundTripSm4` | Project-1/sm4.py:86-93 | `decrypt_ecb(key, encrypt_ecb(key, p)) == p` |
| `Sm4PyModes.CipherInverse` | Project-1/sm4.py:63-71 | `_crypt_block(..., decrypt=True)` inverts `_crypt_block` on every block |
| `Sm4PyModes.EncryptCbc` | Project-1/sm4.py:95-104 | for a 16-byte key the loop carrying `prev` computes CBC encryption with SM4; any other key raises `struct.error` |
| `Sm4PyModes.DecryptCbc` | Project-1/sm4.py:106-113 | for a 16-byte key the loop computes CBC decryption with SM4 decryption; any other key raises `struct.error`, or `IndexError` from `unpad` when there is no block |
| `Sm4PyModes.EncryptCfb` | Project-1/sm4.py:151-160 | for a 16-byte key the loop computes CFB encryption with SM4; any other key raises `struct.error` |
| `Sm4PyModes.DecryptCfb` | Project-1/sm4.py:162-170 | for a 16-byte key the loop computes CFB decryption, which uses SM4 encryption; any other key raises `struct.error`, or `IndexError` from `unpad` when there is no block |
| `Sm4PyModes.EncryptCtr` | Project-1/sm4.py:115-127 | for a 16-byte key the while loop advancing offset and counter computes CTR with SM4; any other key gives `b''` on empty data and otherwise fails, with OverflowError when the first counter does not fit 16 bytes and `struct.error` when it does |
| `Sm4PyModes.CtrKeyFailure` | Project-1/sm4.py:117-122 | with a key that is not 16 bytes, CTR returns `b''` exactly on empty data, and otherwise fails with OverflowError exactly when the IV as a counter does not fit 16 bytes (`to_bytes` runs before `_crypt_block`) |
| `Sm4PyModes.DecryptCtr` | Project-1/sm4.py:129-131 | `decrypt_ctr` is `encrypt_ctr`, for every key |
| `Sm4PyModes.EncryptOfb` | Project-1/sm4.py:133-144 | for a 16-byte key the while loop advancing offset and output computes OFB with SM4; any other key gives `b''` on empty data and `struct.error` otherwise |
| `Sm4PyModes.DecryptOfb` | Project-1/sm4.py:146-148 | `decrypt_ofb` is `encrypt_ofb`, for every key |
| `Gf128.MulOneRight` | Project-1/sm4_gcm_modopt.cpp:273-306 | the multiplication of SP 800-38D section 6.3 has the block 80 00 .. 00 as right unit |
| `Gf128.MulOneLeft` | Project-1/sm4_gcm_modopt.cpp:273-306 | it is a left unit too |
| `Gf128.MulZeroRight` | Project-1/sm4_gcm_modopt.cpp:273-306 | a product with the zero block is zero |
| `Gf128.MulAsWrittenZero` | Project-1/sm4_gcm_modopt.cpp:277-285 | the product as written, with an all-zero x, is zero |
| `Gf128.ShiftOne` | Project-1/sm4_gcm_modopt.cpp:289-301 | one instance: the block 80 00 .. 00 shifted as written becomes 00 .. 00 E1, so the top bit of byte 0 leaves and the reduction XORs 0xE1 into byte 15 |
| `Gf128.MulAsWrittenMirrored` | Project-1/sm4_gcm_modopt.cpp:289-301 | for x = 40 00 .. 00 and y the unit, the product as written is 00 .. 00 E1 while the standard product is x |
| `GcmSpec.IncBytesValue` | Project-1/sm4_gcm_modopt.cpp:310-311 | the carry loop adds one to the big-endian value of the bytes, wrapping to zero at the top |
| `GcmSpec.Inc32Value` | Project-1/sm4_gcm_modopt.cpp:309-313 | `incrementCounter` keeps bytes 0 .. 11 and adds 1 modulo 2^32 to the big-endian value of bytes 12 .. 15 |
| `GcmSpec.ChunkContents` | Project-1/sm4_gcm_modopt.cpp:323-328 | chunk i holds the data bytes 16i .. 16i + 15, zero beyond its end |
| `GcmSpec.LengthBlockValue` | Project-1/sm4_gcm_modopt.cpp:349-355 | the length block is the AAD bit length, then the ciphertext bit length, each 64-bit big-endian |
| `GcmSpec.GhashInput` | Project-1/sm4_gcm_modopt.cpp:322-360 | GHASH folds ceil(aad/16) AAD chunks, then the ciphertext chunks, then the length block, which comes last even for empty inputs |
| `GcmSpec.InPlaceProductZero` | Project-1/sm4_gcm_modopt.cpp:277 | `gfmul(y, h, y)` clears y before reading it, so it yields the zero block |
| `GcmSpec.GhashAsWrittenZero` | Project-1/sm4_gcm_modopt.cpp:316-363 | `ghash` as written returns the zero block for every key, AAD and ciphertext |
| `GcmSpec.GhashCorrectedSeesCiphertext` | Project-1/sm4_gcm_modopt.cpp:336-346 | with H = 1 (the block 80 00 .. 00), GHASH with the standard product distinguishes two different one-block ciphertexts and empty AAD |
| `GcmSpec.InitialCounterZero` | Project-1/sm4_gcm_modopt.cpp:375-379 | every IV that is not 12 bytes yields the zero J0 |
| `GcmSpec.InitialCounterCollision` | Project-1/sm4_gcm_modopt.cpp:366-380 | two IVs that are not 12 bytes always yield the same J0 |
| `GcmSpec.InitialCounterCorrectedSeesIv` | Project-1/sm4_gcm_modopt.cpp:376-378 | with H = 1 (the block 80 00 .. 00), J0 derived as in section 7.1 of SP 800-38D distinguishes two different 16-byte IVs |
| `GcmSpec.GctrInvolution` | Project-1/sm4_gcm_modopt.cpp:406-433 | counter mode applied twice from the same counter block is the identity |
| `GcmSpec.Seal` | Project-1/sm4_gcm_modopt.cpp:384-443 | `encrypt` fails exactly for tag lengths outside 12 .. 16; otherwise the ciphertext is as long as the plaintext and the tag is tag_len bytes |
| `GcmSpec.Open` | Project-1/sm4_gcm_modopt.cpp:446-510 | `decrypt` succeeds exactly when the recomputed tag equals the given one, and then returns as many bytes as the ciphertext |
| `GcmSpec.SealOpen` | Project-1/sm4_gcm_modopt.cpp:384-510 | decrypting what `encrypt` produced, with its tag, gives the plaintext back, for any product |
| `GcmSpec.TagAsWritten` | Project-1/sm4_gcm_modopt.cpp:440-442 | as written, the tag is the first tag_len bytes of E(J0), independent of AAD and ciphertext |
| `GcmSpec.TamperAccepted` | Project-1/sm4_gcm_modopt.cpp:654-662 | as written, a tag is accepted with any other AAD and any other ciphertext under the same IV |
| `GcmSpec.EmptyTagAccepted` | Project-1/sm4_gcm_modopt.cpp:469-477 | with no tag-length check, `decrypt` accepts an empty tag for any input |
| `GcmSpec.OpenChecked` | Project-1/sm4_gcm_modopt.cpp:388-390 | with the check of `encrypt`, decryption succeeds exactly when the tag has 12 .. 16 bytes and matches |
| `GcmSpec.SealOpenChecked` | Project-1/sm4_gcm_modopt.cpp:384-510 | the checked decryption still opens every sealed message |
| `Gcm.GfMul` | Project-1/sm4_gcm_modopt.cpp:273-306 | z becomes the product as written of x and y, with x read as zero when the caller passes z for x |
| `Gcm.GfMulLoop` | Project-1/sm4_gcm_modopt.cpp:279-305 | the nested loops compute the 128 passes of the product as written |
| `Gcm.ShiftV` | Project-1/sm4_gcm_modopt.cpp:289-301 | the shift of v with its feedback and reduction |
| `Gcm.IncrementCounter` | Project-1/sm4_gcm_modopt.cpp:309-313 | the counter becomes inc32 of its old value: bytes 0 .. 11 unchanged |
| `Gcm.StoreLengths` | Project-1/sm4_gcm_modopt.cpp:349-355 | the block becomes the length block |
| `Gcm.FoldChunks` | Project-1/sm4_gcm_modopt.cpp:323-333 | the chunk loop folds the zero-padded chunks of the data into y |
| `Gcm.Ghash` | Project-1/sm4_gcm_modopt.cpp:316-363 | output becomes GHASH as written of the AAD and ciphertext prefixes |
| `Gcm.GenerateInitialCounter` | Project-1/sm4_gcm_modopt.cpp:366-380 | the counter becomes J0: iv ‖ 00 00 00 01 for a 12-byte IV, GHASH under the zero key otherwise |
| `Gcm.CounterMode` | Project-1/sm4_gcm_modopt.cpp:406-433 | the full blocks and the partial last block are XORed with E(counter + i); exactly len bytes of the output change |
| `Gcm.StoreTag` | Project-1/sm4_gcm_modopt.cpp:440-442 | the first tag_len bytes of the tag become E(J0) ^ S, and the rest stay |
| `Gcm.Encrypt` | Project-1/sm4_gcm_modopt.cpp:384-443 | `encrypt` throws exactly for tag lengths outside 12 .. 16, leaving both outputs untouched; otherwise it writes exactly the ciphertext and tag of `Seal` |
| `Gcm.BytesEqual` | Project-1/sm4_gcm_modopt.cpp:474 | `memcmp(...) == 0` exactly when the first n bytes agree |
| `Gcm.Decrypt` | Project-1/sm4_gcm_modopt.cpp:446-510 | `decrypt` returns true exactly when `Open` succeeds, and then has written its result; on false the plaintext buffer is unchanged |
| `Sm3.TableAsWrittenTail` | Project-4/sm3.cpp:114-130 | the table as written agrees with T_j of section 4.2 on entries 0 .. 59, and holds 0 instead of 0x7A879D8A on 60 .. 63 |
| `Sm3.RotlModBit` | Project-4/sm3.cpp:12-14 | the rotation by n mod 32 moves bit m to bit (m + n) mod 32 for every n |
| `Sm3.RoundConstantAgrees` | Project-4/sm3.cpp:77 | where `leftRotate(T[j], j)` is defined (0 < j < 32), it is the rotation by j mod 32 |
| `Sm3.FFBit` | Project-4/sm3.cpp:16-18 | FF is bitwise parity for j < 16 and bitwise majority after |
| `Sm3.GGBit` | Project-4/sm3.cpp:20-22 | GG is bitwise parity for j < 16 and bitwise choice after |
| `Sm3.P0Bit` | Project-4/sm3.cpp:24-26 | P0(x) = x ^ (x <<< 9) ^ (x <<< 17), bit by bit |
| `Sm3.P1Bit` | Project-4/sm3.cpp:28-30 | P1(x) = x ^ (x <<< 15) ^ (x <<< 23), bit by bit |
| `Sm3.PaddedLength` | Project-4/sm3.cpp:34-36 | the padded length is len + 9 + the zero fill, a multiple of 64 |
| `Sm3.PaddedLayout` | Project-4/sm3.cpp:33-47 | padding keeps the message as a prefix, writes 0x80 at index len, then zeros, then len * 8 as the last 8 big-endian bytes; the length is a multiple of 64 between len + 9 and len + 72 |
| `Sm3.PaddedShortest` | Project-4/sm3.cpp:35-36 | no multiple of 64 that leaves room for the 9 bytes is shorter than the padded message |
| `Sm3.DigestBlocks` | Project-4/sm3.cpp:55 | the padded message has len / 64 + 1 blocks, or one more when len mod 64 > 55 |
| `Sm3.Pad` | Project-4/sm3.cpp:33-47 | `pad` returns a fresh buffer holding the padded message |
| `Sm3.ExpandRecurrence` | Project-4/sm3.cpp:62-67 | W[0..16) are the block's big-endian words, and W[j] for j >= 16 follows the P1 recurrence |
| `Sm3.ExpandMessage` | Project-4/sm3.cpp:61-70 | the three expansion loops fill W and W1 with the expanded message |
| `Sm3.RoundsAsWrittenBefore60` | Project-4/sm3.cpp:114-130 | the first 60 rounds with the table as written are those of the standard |
| `Sm3.CompressRounds` | Project-4/sm3.cpp:72-90 | the round loop leaves in A .. H the registers after 64 rounds from V |
| `Sm3.UpdateV` | Project-4/sm3.cpp:93-94 | V becomes V ^ (A .. H) |
| `Sm3.StoreDigest` | Project-4/sm3.cpp:98-103 | the digest is V written big-endian |
| `Sm3.CompressBlocks` | Project-4/sm3.cpp:55-95 | the block loop compresses exactly msg.size() / 64 blocks into V, in order |
| `Sm3.Hash` | Project-4/sm3.cpp:50-104 | `hash` writes the SM3 digest of data[..len] computed from IV with the table as written |
| `Sm3Unrolled.EightRounds` | Project-4/sm3_optimization.cpp:75-82 | the inner loop runs rounds j .. j + 7, each exactly once |
| `Sm3Unrolled.CompressRoundsUnrolled` | Project-4/sm3_optimization.cpp:74-83 | the unrolled loop ends with the registers of 64 rounds, the same as the single loop of `Sm3.CompressRounds` |
| `Sm3Unrolled.CompressBlocks` | Project-4/sm3_optimization.cpp:55-87 | the block loop compresses every block of the padded message into V |
| `Sm3Unrolled.Hash` | Project-4/sm3_optimization.cpp:48-95 | the optimised `hash` writes the same digest as `Sm3.Hash` |
| `Sm2.ExtGcd` | Project-5/sm2.py:18 | extended Euclid returns g and s, t with g = a s + b t, and g > 0 unless both inputs are 0 |
| `Sm2.GcdDivides` | Project-5/sm2.py:20 | the g of `ExtGcd` divides both arguments |
| `Sm2.ModInverse` | Project-5/sm2.py:18-20 | `pow(x, -1, m)` returns the inverse in [0, m) when one exists and raises `ValueError` exactly when none does, in particular for x ≡ 0 |
| `Sm2.PointAdd` | Project-5/sm2.py:14-23 | (0, 0) on either side returns the other point. Otherwise `ValueError` comes exactly when the slope's denominator has no inverse, in particular when it is ≡ 0 (P + (-P), doubling with y ≡ 0); otherwise the result has coordinates in [0, p) and is the chord or tangent sum for a slope λ with λ · den ≡ num |
| `Sm2.ScalarMult` | Project-5/sm2.py:26-33 | the while loop computes the double-and-add recursion, and on success it runs bit_length(k) times |
| `Sm2.ScalarMultZero` | Project-5/sm2.py:27-28 | `scalar_mult(0, P) == (0, 0)` |
| `Sm2.ScalarMultOne` | Project-5/sm2.py:29-31 | `scalar_mult(1, P) == P` whenever P can be doubled, and `ValueError` otherwise |
| `Sm2.DoubleAndAddScales` | Project-5/sm2.py:26-33 | over the integers the loop computes r + k · p, so its schedule of adds and doublings is scalar multiplication |
| `Sm2Window.Table` | Project-5/sm2_optimization.py:40 | `precomputed_G` has n entries with entry j - 1 = `scalar_mult(j, G)`, and it raises exactly when one of those multiples does |
| `Sm2Window.TableOfMultiples` | Project-5/sm2_optimization.py:40 | over the integers the table is 1 .. 16 |
| `Sm2Window.BinValue` | Project-5/sm2_optimization.py:45 | `int(bin(k)[2:], 2) == k` |
| `Sm2Window.WindowDigit` | Project-5/sm2_optimization.py:55-56 | a window starting with '1' of at most four digits has value in [1, 15], so `precomputed_G[digit - 1]` is in range |
| `Sm2Window.ValueBounds` | Project-5/sm2_optimization.py:55 | a digit string starting with '1' of length n has value in [2^(n-1), 2^n) |
| `Sm2Window.Shrink` | Project-5/sm2_optimization.py:53-54 | the shrinking loop never widens the window and leaves it alone when the window starts with '1' |
| `Sm2Window.Width` | Project-5/sm2_optimization.py:52-54 | at a '1' digit the width is min(4, len(k_bin) - i), between 1 and 4, and the window stays inside k_bin |
| `Sm2Window.DoubleTimes` | Project-5/sm2_optimization.py:57-58 | the doubling loop doubles R once per digit |
| `Sm2Window.OneWindow` | Project-5/sm2_optimization.py:51-59 | the else branch picks the width and adds the table entry, then doubles |
| `Sm2Window.LoopBody` | Project-5/sm2_optimization.py:47-59 | each pass strictly advances i without passing len(k_bin), so every digit is consumed once and the loop ends |
| `Sm2Window.ScalarMultOptimized` | Project-5/sm2_optimization.py:42-60 | for k < 0 it raises `ValueError`; for k >= 0 it computes the window recursion over bin(k) from (0, 0) using only the table, never the argument P |
| `Sm2Window.OptimizedZero` | Project-5/sm2_optimization.py:44-50 | k = 0 gives (0, 0) |
| `Sm2Window.OptimizedOne` | Project-5/sm2_optimization.py:56-58 | k = 1 gives `point_add(G, G)` (table entry 0 doubled), not G |
| `Sm2Window.WindowedAsWrittenOne` | Project-5/sm2_optimization.py:56-58 | over the integers the loop as written maps k = 1 to 2 |
| `Sm2Window.DoubledScales` | Project-5/sm2_optimization.py:57-58 | over the integers n doublings multiply by 2^n |
| `Sm2Window.WindowedCorrectedScales` | Project-5/sm2_optimization.py:47-59 | over the integers the window method with doubling before adding computes r · 2^(digits left) + the value of the digits left |
| `Sm2Window.WindowedCorrectedIsScalar` | Project-5/sm2_optimization.py:42-60 | over the integers the corrected window method maps k to k |

## Left out

- Timing and throughput code is not modelled. This covers `measureEncryptTime`, `measureDecryptTime`, `SM4_GCM::measurePerformance`, every `main` and `printHex`. They are clocks, floating point and console output.
- The tag comparison is modelled as plain equality (`Gcm.BytesEqual`). Whether `memcmp` runs in constant time cannot be expressed.
- These files are out of scope:
  - Project-1/sm4-cli.py is argument parsing and file I/O.
  - Project-1/example.py is a usage script.
  - Project-2/watermark.py is image I/O.
  - Project-6/ddh-based-protocol.py is a script over a Paillier library, SHA-256 and randomness.
- `simple_hash`, `sm2_encrypt`, `sm2_encrypt_optimized` and the top-level SM2 script lines are not modelled. Python's `hash` of a string is salted per process and `random.randrange` is nondeterministic, so none of them is a reproducible function.
- Group-law theorems of the curve are not stated: associativity, and that `scalar_mult(k, P)` is k · P on the curve. Their place is taken by the integer instances (`Sm2.DoubleAndAddScales`, `Sm2Window.WindowedCorrectedIsScalar`), which show that the loops' schedules of additions and doublings compute k.
- Sm2.ModInverse: it does not claim that every nonzero residue modulo p has an inverse. That needs p to be prime, which is not proved.
- Sm2.ScalarMult: requires k >= 0. For negative k, `k >>= 1` stops at -1 and the Python loop never ends.
- Words.Rotl: requires 0 < n < 32. That is the only range on which the C++ `leftRotate` is defined. The SM3 call sites outside it are modelled by `Sm3.RotlMod` (see "## Findings").
- Gcm.Encrypt: requires the ciphertext and tag buffers to be distinct from each other and from the inputs. Encrypting in place into the plaintext buffer is not modelled.
- Gcm.Decrypt: requires the plaintext buffer to be distinct from the inputs, and requires tag_len <= 16. A longer tag overruns the 16-byte `computed_tag` in the C++ code.
- Gcm.GenerateInitialCounter: requires the counter buffer to be distinct from the IV.
- GcmSpec.GhashCorrectedSeesCiphertext: proved only for H = 1 (the block 80 00 .. 00), not for every nonzero hash key. The general claim needs multiplication by a nonzero element of GF(2^128) to be injective, and field inverses in GF(2^128) are not part of this model.
- GcmSpec.InitialCounterCorrectedSeesIv: proved only for H = 1, for the same reason.
- Gf128.ShiftOne: states one instance of the as-written shift, the block 80 00 .. 00. The shift of every block is defined by `ShiftAsWritten`, which `Gcm.ShiftV` is proved to compute; no closed form of it, such as a doubling in GF(2^128), is stated.
- Sm4Cpp.EncryptBuffer: nothing about the round keys that `encryptBlocks` computes first is stated. They are computed and discarded, as in the source (the local `unused`), and each block's `encrypt` call expands the key again.
- No known-answer vectors are stated, because the SM3 digests follow the table as written and differ from the standard's examples. The SM4 example of Appendix A of GB/T 32907-2016 (in `main`) is not evaluated either, since symbolic evaluation of the full cipher is beyond the solver's reach.
- Pure one-expression definitions appear in the model but not in the table above, because their properties are stated by the lemmas listed there. They are: `tau`/`_tau` (`Sm4.Tau`), `t`/`_l` (`Sm4.T`), `tPrime`/`_l_prime` (`Sm4.TPrime`), `f` (`Sm4.F`), `_rotl` (`Words.Rotl`), SBOX/FK/CK, and SM3's `FF`, `GG`, `P0`, `P1`, `IV` and `T`. The SM3 message expansion's second loop (`Sm3.Words64`) and one compression round (`Sm3.Round`) are steps of this kind too; what they compute is stated through `Sm3.ExpandMessage` and `Sm3.CompressRounds` in the rows above. The step lemmas `Sm4.KeyWordsNext`, `Sm4.RunNext` and `Sm3.IterateNext` only carry one loop iteration of a proof and have no row.

## Findings

| source | as written | input that shows it | evidently intended | confidence | as-written member | corrected member |
|---|---|---|---|---|---|---|
| Project-1/sm4_gcm_modopt.cpp:277,332,345,360 | `gfmul(y, h, y)` clears z, which is x, before reading x, so every GHASH product is zero | any AAD and ciphertext: GHASH is 0^128, and a tag verifies with any other AAD and ciphertext under the same IV | multiply y by H into a separate buffer; the corrected GHASH is shown to tell ciphertexts apart for H = 1 only | not executed | `GcmSpec.TamperAccepted` | `GcmSpec.GhashCorrectedSeesCiphertext` |
| Project-1/sm4_gcm_modopt.cpp:289-301 | the shift runs toward byte 0, tests `v[0] & 0x80` and reduces into `v[15]` | x = 40 00 .. 00, y = 80 00 .. 00: as written 00 .. 00 E1, standard product x | the shift toward byte 15 of SP 800-38D section 6.3, reducing into byte 0 | not executed | `Gf128.MulAsWrittenMirrored` | `Gf128.MulOneRight` |
| Project-1/sm4_gcm_modopt.cpp:376-378 | a non-12-byte IV is hashed under the zero key (and with the as-written GHASH), so J0 is always zero | any two IVs of 16 bytes give the same J0 | J0 = GHASH_H(IV ‖ 0 pad ‖ [0]64 ‖ [len(IV)]64), section 7.1 of SP 800-38D; the corrected J0 is shown to tell IVs apart for H = 1 only | not executed | `GcmSpec.InitialCounterCollision` | `GcmSpec.InitialCounterCorrectedSeesIv` |
| Project-1/sm4_gcm_modopt.cpp:469-477 | `decrypt` does not check tag_len | tag_len = 0: every ciphertext is accepted | reject tag lengths outside 12 .. 16 as `encrypt` does | not executed | `GcmSpec.EmptyTagAccepted` | `GcmSpec.SealOpenChecked` |
| Project-4/sm3.cpp:114-130 | the 64-entry table has only 60 initialisers, so T[60..63] = 0 | j = 60: T[60] = 0 instead of 0x7A879D8A | T_j = 0x7A879D8A for 16 <= j <= 63 (GB/T 32905-2016 section 4.2) | not executed | `Sm3.TableAsWrittenTail` | `Sm3.T` |
| Project-4/sm3.cpp:77 | `leftRotate(T[j], j)` shifts by 32 - j for j = 0 and by j >= 32 later, both undefined in C++ | j = 0 and j = 32 | T_j <<< (j mod 32), section 5.3.3 | not executed | `Sm3.RoundConstantAsWritten` | `Sm3.RoundConstant` |
| Project-5/sm2_optimization.py:56-58 | the window's table entry is added before the doublings | k = 1: the result is `point_add(G, G)`, not G | double once per window digit, then add the entry | not executed | `Sm2Window.OptimizedOne` | `Sm2Window.WindowedCorrectedIsScalar` |
