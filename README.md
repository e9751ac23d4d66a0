# Stirlitz engine — a Dafny model

Stirlitz is a desktop tool for end-to-end encryption of text and files
between two people who have swapped Ed25519 public keys. This project models
its engine, the `Stirlitz` class, together with the dialog that validates
the opponent's public key (`KeySetWindow::checkInput`). It then proves the
properties the engine's code and header promise.

The model covers:

- `toHex`/`fromHex`: the hexadecimal codec (module `Hex`).
- `encryptData`/`decryptData`: in-memory encryption and decryption. A random
  leading block goes in front of the data, and AES-256 in CBC mode with
  ciphertext stealing runs under the key BLAKE2s-256(user name ‖ password).
  Decryption drops the first decrypted block, which is the only block that
  depends on the IV (modules `Cbc` and `Stirlitz`).
- `encryptFile`/`decryptFile`: chunked file encryption and decryption over a
  file system given as a map from paths to bytes (module `FileCodec`). Each
  10485744-byte plain chunk becomes exactly one 10485760-byte encrypted
  record.
- `getPublicKeyString` and `generatePublicKeyExp`: public-key S-expressions.
  S-expressions are trees, and `gcry_sexp_find_token` is a search in
  printing order (modules `SExps` and `Stirlitz`).
- `genUsernamePasswordEncryption`/`Decryption`: the derivation of user name
  and password from two ECDH shared values (module `Stirlitz`).
- `printGcryptError`: the exception message it builds (module `Errors`).
- `KeySetWindow::checkInput`: the hex-digit filter and the 64-digit
  acceptance rule. The window is a class whose fields are its key field,
  whether it is open, the keys it has emitted and the dialogs it has shown
  (module `KeySetWindow`).

libgcrypt stays abstract. It is a value `Gcrypt.Backend` of functions:
- AES-256 block encryption and decryption;
- the BLAKE2s-256 digest;
- `gcry_pk_encrypt`;
- the text `gpg_strerror_r` writes.

The only thing the proofs assume about these is the predicate
`Gcrypt.Valid`: block decryption inverts block encryption. The CBC-CTS mode
itself is modelled byte for byte, following libgcrypt:
- A buffer of 16 bytes or fewer that is not a multiple of 16 is refused with
  `GPG_ERR_INV_LENGTH`.
- Every longer buffer is CBC-encrypted and its last two blocks are swapped,
  whether or not it ends on a block boundary; a final piece shorter than a
  block is completed with ciphertext stolen from the block before it.

Nonces and random blocks are inputs of the operations, and so is the file
system:
- every call uses a fresh nonce as the IV;
- the padding is a random leading block of 16 bytes, with no length byte.

Two libgcrypt lookups are given as plain definitions, since they are calls
into the library and not engine logic: `SExps.NthData` is
`gcry_sexp_nth_data` (the bytes of element n of a list when that element is
an atom), and `SExps.FindToken` is `gcry_sexp_find_token`, whose search
order `SExps.FindTokenIsFirstNode` pins down.

Where the engine has a loop, there is a method and a function beside it: the
method (`Stirlitz.EncryptData`, `Stirlitz.DecryptData`,
`FileCodec.EncryptFile`, `FileCodec.DecryptFile`, `Hex.ToHex`,
`Hex.FromHex`, `KeySetWindow.KeepHexDigits`) follows the code step by step,
and the function (`Stirlitz.EncryptedData`, `Stirlitz.DecryptedData`,
`FileCodec.EncryptedFile`, `FileCodec.DecryptedFile`, `Hex.HexOf`,
`Hex.HexDecode`, `KeySetWindow.HexOnly`) is its specification, about which
the round trips and other properties are proved.

## Model

| member | source | states |
|---|---|---|
| Bytes.Xor | stirlitz/src/Stirlitz.cpp:342-351 | the XOR the chaining mode applies is byte-wise and keeps the length |
| Bytes.XorCancel | stirlitz/src/Stirlitz.cpp:342-351 | XOR-ing the same block twice restores the input, which CBC decryption relies on |
| Filtering.Filter | src/KeySetWindow.cpp:89-106 | the elements that remain all pass the test, and there are no more of them than in the input |
| Filtering.FilterAppend | src/KeySetWindow.cpp:89-106 | filtering a concatenation filters each part in turn, so order is kept |
| Filtering.FilterMembership | src/KeySetWindow.cpp:89-106 | an element survives if and only if it was in the input and passes the test |
| Filtering.FilterKeepsAll | src/KeySetWindow.cpp:89-106 | input whose every element passes is kept whole |
| Filtering.FilterIdempotent | src/KeySetWindow.cpp:89-106 | filtering twice gives the same result as filtering once |
| Errors.DecimalString | stirlitz/src/Stirlitz.cpp:1024-1027 | the error code is printed as a non-empty string of decimal digits |
| Errors.DecimalRoundTrip | stirlitz/src/Stirlitz.cpp:1024-1027 | the printed code reads back as the code |
| Errors.DecimalNoLeadingZero | stirlitz/src/Stirlitz.cpp:1024-1027 | the printed code starts with '0' only when the code is 0 |
| Errors.GcryptErrorMessage | stirlitz/src/Stirlitz.cpp:1005-1036 | when the strerror buffer holds a non-NUL character, the message is the prefix, a space, the decimal code and " (" + the buffer with its NULs removed + ")"; when the buffer is all NULs it is just the prefix, a space and the code. It ends in ')' exactly in the first case |
| Errors.NonNulSurvives | stirlitz/src/Stirlitz.cpp:1011-1022 | removing NULs leaves something if and only if the buffer held a non-NUL character |
| Errors.GcryptErrorMessageHasNoNul | stirlitz/src/Stirlitz.cpp:1011-1035 | with a NUL-free prefix, the message contains no NUL at all |
| Hex.LowerHexDigit | stirlitz/src/Stirlitz.cpp:171-173 | a nibble prints as one lowercase hexadecimal digit |
| Hex.HexDigitValue | stirlitz/src/Stirlitz.cpp:138-149 | a hexadecimal digit, in either case, has a value below 16 |
| Hex.DigitValue | stirlitz/src/Stirlitz.cpp:138-149 | the digit printed for a nibble reads back as the nibble |
| Hex.ValueDigit | stirlitz/src/Stirlitz.cpp:171-183 | a lowercase digit's value prints back as that digit |
| Hex.StreamHex | stirlitz/src/Stirlitz.cpp:171-173 | `std::hex` output has at least one digit, and at least two for values of 16 or more |
| Hex.ByteHex | stirlitz/src/Stirlitz.cpp:174-183 | each byte is written as exactly two lowercase digits |
| Hex.StreamHexBelow256 | stirlitz/src/Stirlitz.cpp:171-183 | for a value below 256, '0' before the single stream digit (at most 15) or the two stream digits (otherwise) are the digits of its high and low nibble |
| Hex.StreamHexPadded | stirlitz/src/Stirlitz.cpp:174-183 | the two characters written for a byte are '0' and the single stream digit when the byte is at most 15, and the two stream digits otherwise |
| Hex.NibbleValues | stirlitz/src/Stirlitz.cpp:174-183 | splitting a byte into high and low nibble agrees with integer division by 16 |
| Hex.ByteHexDecodes | stirlitz/src/Stirlitz.cpp:138-149 | the two digits of a byte are hexadecimal and fold back into the byte |
| Hex.PairValueEncodes | stirlitz/src/Stirlitz.cpp:138-149 | a pair of lowercase digits folds into a byte that prints as the same pair |
| Hex.HexOf | stirlitz/include/Stirlitz.h:69-78 | the text of a byte sequence has two characters per byte |
| Hex.HexOfAppend | stirlitz/src/Stirlitz.cpp:164-186 | the text of a concatenation is the concatenation of the texts |
| Hex.HexOfAt | stirlitz/src/Stirlitz.cpp:164-186 | characters 2i and 2i+1 of the text are the two digits of byte i |
| Hex.HexOfIsLowerHex | stirlitz/src/Stirlitz.cpp:164-186 | the text contains only `[0-9a-f]` |
| Hex.HexOfShape | stirlitz/src/Stirlitz.cpp:158-187 | the length is exactly 2·|input|, only `[0-9a-f]` appears, and a byte ≤ 15 is '0' followed by its one digit |
| Hex.HexDecode | stirlitz/include/Stirlitz.h:80-90 | an even run of digits folds into half as many bytes |
| Hex.PairValue | stirlitz/src/Stirlitz.cpp:138-149 | definition: the byte a pair of digits folds into, high digit first; `Hex.ByteHexDecodes` and `Hex.PairValueEncodes` tie it to `Hex.ByteHex` |
| Hex.HexDigitsSlice | stirlitz/src/Stirlitz.cpp:138-149 | every slice of a run of hexadecimal digits is one too |
| Hex.HexDigitsAppend | stirlitz/src/Stirlitz.cpp:138-149 | two runs of hexadecimal digits make one when joined |
| Hex.HexDecodeAppend | stirlitz/src/Stirlitz.cpp:138-149 | decoding a concatenation of even runs decodes each run in turn |
| Hex.HexRoundTrip | stirlitz/src/Stirlitz.cpp:125-187 | `fromHex(toHex(b)) == b` for every byte sequence |
| Hex.HexDecodeThenEncode | stirlitz/src/Stirlitz.cpp:125-187 | `toHex(fromHex(h)) == h` for every even run of lowercase digits |
| Hex.ToHexStep | stirlitz/src/Stirlitz.cpp:164-186 | writing the next byte's two digits extends the text of the prefix already processed |
| Hex.PutByteHex | stirlitz/src/Stirlitz.cpp:174-184 | the two digits of the byte land at `count` and `count+1`, and every other cell is unchanged |
| Hex.ToHex | stirlitz/src/Stirlitz.cpp:158-187 | the loop over a presized string yields the text of the input, so it has `HexOfShape`'s properties |
| Hex.FromHexStep | stirlitz/src/Stirlitz.cpp:138-149 | folding the next digit pair extends the decoding of the prefix already read |
| Hex.FromHex | stirlitz/src/Stirlitz.cpp:125-152 | odd length throws "Stirlitz::fromHex: incompatible size of hex value"; otherwise the result is the |hex|/2 bytes the digit pairs encode |
| Cbc.CbcEncrypt | stirlitz/src/Stirlitz.cpp:281-291 | CBC encryption of whole blocks keeps the length |
| Cbc.ChainState | stirlitz/src/Stirlitz.cpp:281-291 | definition: the chaining value CBC carries into the next block; `Cbc.ChainStateIsLastBlock` proves it is the last ciphertext block |
| Cbc.CbcDecrypt | stirlitz/src/Stirlitz.cpp:342-351 | CBC decryption of whole blocks keeps the length |
| Cbc.ChainStateIsLastBlock | stirlitz/src/Stirlitz.cpp:281-291 | the chaining value after CBC is the last ciphertext block, or the IV when nothing was encrypted |
| Cbc.CbcRoundTrip | stirlitz/src/Stirlitz.cpp:281-351 | CBC decryption under the same IV inverts CBC encryption |
| Cbc.CbcDecryptIvLocal | stirlitz/src/Stirlitz.cpp:342-353 | in CBC decryption only the first block depends on the IV |
| Cbc.TailLength | stirlitz/src/Stirlitz.cpp:281-291 | the final piece of a buffer is 1 to 16 bytes long and the rest is whole blocks |
| Cbc.HeadLength | stirlitz/src/Stirlitz.cpp:281-291 | a buffer longer than a block splits into whole blocks, one more block, and the final piece |
| Cbc.StealEncrypt | stirlitz/src/Stirlitz.cpp:281-291 | ciphertext stealing on the last two pieces keeps their length |
| Cbc.StealDecrypt | stirlitz/src/Stirlitz.cpp:342-351 | reversing the stealing keeps the length |
| Cbc.CtsEncrypt | stirlitz/src/Stirlitz.cpp:281-291 | CBC with ciphertext stealing produces as many bytes as it is given |
| Cbc.CtsDecrypt | stirlitz/src/Stirlitz.cpp:342-351 | CTS decryption produces as many bytes as it is given |
| Cbc.StealLastPiece | stirlitz/src/Stirlitz.cpp:281-351 | the stolen ciphertext bytes and the short final piece decrypt back to the plaintext piece |
| Cbc.StealRoundTrip | stirlitz/src/Stirlitz.cpp:281-351 | the stealing step on the last two pieces is undone by its decryption |
| Cbc.CtsRoundTrip | stirlitz/src/Stirlitz.cpp:281-351 | CTS decryption inverts CTS encryption under the same IV |
| Cbc.StealDecryptPrevLocal | stirlitz/src/Stirlitz.cpp:342-353 | only the first block of a stolen pair depends on the block before it |
| Cbc.CtsDecryptIvLocal | stirlitz/src/Stirlitz.cpp:342-353 | in CTS decryption only the first block depends on the IV |
| Cbc.LengthAccepted | stirlitz/src/Stirlitz.cpp:281-291 | definition: the lengths a CBC-CTS handle accepts, a multiple of 16 or more than 16; `Cbc.CipherEncrypt` and `Cbc.CipherDecrypt` fail exactly outside them |
| Cbc.CipherEncrypt | stirlitz/src/Stirlitz.cpp:281-291 | `gcry_cipher_encrypt` on a CBC-CTS handle fails with `GPG_ERR_INV_LENGTH` exactly when the length is at most 16 and not a multiple of 16; otherwise the output is as long as the input |
| Cbc.CipherDecrypt | stirlitz/src/Stirlitz.cpp:342-351 | the same length rule and error code for `gcry_cipher_decrypt` |
| Cbc.CipherRoundTrip | stirlitz/src/Stirlitz.cpp:281-351 | with block decryption inverting encryption, decrypting under the same IV gives the plaintext back |
| Cbc.CipherDecryptIvLocal | stirlitz/src/Stirlitz.cpp:342-353 | for at least one block of input, the decryption never fails, and past the first block it is the same under every IV |
| Cbc.CipherRoundTripPastFirstBlock | stirlitz/src/Stirlitz.cpp:253-353 | decrypting under any other IV recovers everything after the first block |
| SExps.FindToken | stirlitz/include/Stirlitz.h:180-187 | a token search only ever finds a list headed by the token |
| SExps.FindTokenIn | stirlitz/include/Stirlitz.h:180-187 | the same property, searching among a list's elements |
| SExps.FirstHeaded | stirlitz/include/Stirlitz.h:180-187 | the first node headed by the token, or nothing when no node is headed by it |
| SExps.FirstHeadedIsFirst | stirlitz/include/Stirlitz.h:180-187 | the node found sits at some position k, and no node before k is headed by the token |
| SExps.FirstHeadedAppend | stirlitz/include/Stirlitz.h:180-187 | the first match in a concatenation is the first part's match, if there is one |
| SExps.FindTokenIsFirstNode | stirlitz/src/Stirlitz.cpp:667-686 | the recursive search returns exactly the first node in printing order that is headed by the token |
| SExps.FindTokenInIsFirstNode | stirlitz/src/Stirlitz.cpp:667-686 | the same among a list's elements |
| Gcrypt.ValidInverts | stirlitz/src/Stirlitz.cpp:264-271 | a valid backend's block decryption inverts block encryption under every key |
| Gcrypt.Encryptor | stirlitz/src/Stirlitz.cpp:444-475 | definition: the encryption of an AES-256 CBC-CTS handle keyed with `key`; `Gcrypt.HandlesCheckLength` and `Gcrypt.HandlesRecover` state what it does |
| Gcrypt.Decryptor | stirlitz/src/Stirlitz.cpp:596-607 | definition: the decryption of such a handle, with the same two lemmas about it |
| Gcrypt.HandlesCheckLength | stirlitz/src/Stirlitz.cpp:431-486 | the encryption and decryption of a keyed handle both follow the CTS length rule and keep the length |
| Gcrypt.HandlesRecover | stirlitz/src/Stirlitz.cpp:444-617 | a handle's decryption under any IV recovers everything after the first block of what its encryption produced |
| Gcrypt.ErrorMessage | stirlitz/src/Stirlitz.cpp:1005-1036 | `printGcryptError` with the backend's strerror text: the message starts with the prefix and a space (its full shape is `Errors.GcryptErrorMessage`) |
| Stirlitz.HashString | stirlitz/src/Stirlitz.cpp:92-123 | the copied digest is the 32-byte BLAKE2s-256 digest of the data |
| Stirlitz.DataKey | stirlitz/src/Stirlitz.cpp:264-265 | definition: the AES-256 key, BLAKE2s-256 of the user name followed by the password; `Stirlitz.KeyDependsOnConcatenation` shows only the concatenation matters |
| Stirlitz.CopyInto | stirlitz/src/Stirlitz.cpp:273-279 | the bytes land at the offset, and everything around them is unchanged |
| Stirlitz.EncryptedData | stirlitz/src/Stirlitz.cpp:229-292 | the specification of `encryptData` (the method is `Stirlitz.EncryptData`): the random block and the data encrypted as one buffer, 16 bytes longer than the data; its round trip is `Stirlitz.DataRoundTrip` |
| Stirlitz.DecryptedData | stirlitz/src/Stirlitz.cpp:294-357 | the specification of `decryptData` (the method is `Stirlitz.DecryptData`): empty for input shorter than 16 bytes, and otherwise 16 bytes shorter than the input |
| Stirlitz.EncryptData | stirlitz/src/Stirlitz.cpp:229-292 | the method of `encryptData`: the output is |data|+16 bytes, the random block followed by the data, encrypted under the nonce IV and the key BLAKE2s-256(user name ‖ password) |
| Stirlitz.DecryptData | stirlitz/src/Stirlitz.cpp:294-357 | the method of `decryptData`: input shorter than 16 bytes yields an empty result and no error; otherwise the decryption without its first block, equal to `Stirlitz.DecryptedData` |
| Stirlitz.EraseFirstBlock | stirlitz/src/Stirlitz.cpp:353 | `erase` of the first block: the bytes after it move to the front of the buffer, the last 16 cells are untouched, and the moved bytes are the result |
| Stirlitz.KeyDependsOnConcatenation | stirlitz/src/Stirlitz.cpp:264-271 | only u‖p reaches the key: credentials with the same concatenation encrypt and decrypt alike |
| Stirlitz.DataRoundTrip | stirlitz/src/Stirlitz.cpp:229-357 | `decryptData(u, p, encryptData(u, p, d)) == d` whatever nonces either call draws |
| Stirlitz.GetPublicKeyString | stirlitz/src/Stirlitz.cpp:662-713 | takes the first node in printing order headed by `public-key`, then the first headed by `q` inside it: when either is missing the result is ""; when element 1 of the `q` list is an atom the result is `toHex` of its bytes; otherwise it throws "incorrect data". Every result is an even run of lowercase digits |
| Stirlitz.PublicKeyExp | stirlitz/src/Stirlitz.cpp:724-731 | definition: the tree of `(public-key (ecc (curve Ed25519)(flags eddsa)(q k)))`; `Stirlitz.PublicKeyRoundTrip` reads k back out of it |
| Stirlitz.GeneratePublicKeyExp | stirlitz/src/Stirlitz.cpp:715-749 | throws "incorrect key size" exactly when the key is not 32 bytes; otherwise the result is exactly `Stirlitz.PublicKeyExp(key)`, the `(public-key (ecc (curve Ed25519)(flags eddsa)(q key)))` tree, which the search for `public-key` finds at its root |
| Stirlitz.PairHasNoToken | stirlitz/src/Stirlitz.cpp:724-725 | the `(curve Ed25519)` and `(flags eddsa)` pairs hold no `q` |
| Stirlitz.PublicKeyRoundTrip | stirlitz/include/Stirlitz.h:180-199 | for a 32-byte k, `getPublicKeyString(generatePublicKeyExp(k)) == toHex(k)`, which is 64 digits that `fromHex` maps back to k |
| Stirlitz.Thrown | stirlitz/src/Stirlitz.cpp:773-816 | a thrown message starts with the function's prefix and a space |
| Stirlitz.SharedSecret | stirlitz/src/Stirlitz.cpp:760-816 | definition: element 1 of the `s` sub-list of the `ecdh` sub-list of `gcry_pk_encrypt(data, pkey)`, when all of these exist; `Stirlitz.SharedValue` succeeds exactly when it does |
| Stirlitz.SharedValue | stirlitz/src/Stirlitz.cpp:760-816 | one extraction succeeds exactly when `pk_encrypt` succeeds and its `ecdh`→`s` element 1 is an atom, and then returns that atom; every failure message starts with the prefix |
| Stirlitz.GenUsernamePasswordEncryption | stirlitz/src/Stirlitz.cpp:751-876 | succeeds exactly when both shared values exist; the user name is S(own, opponent) and the password S(own, own); errors carry the function's prefix |
| Stirlitz.GenUsernamePasswordDecryption | stirlitz/src/Stirlitz.cpp:878-1003 | succeeds exactly when both shared values exist; the user name is S(own, own) and the password S(own, opponent); errors carry the function's prefix |
| Stirlitz.CredentialsSwapped | stirlitz/include/Stirlitz.h:201-237 | for the same keys the two derivations succeed together and return the same pair in opposite order |
| FileCodec.ChunksStep | stirlitz/src/Stirlitz.cpp:431-486 | the chunk count ⌈n/10485744⌉ drops by one per full chunk consumed |
| FileCodec.EncryptedChunk | stirlitz/src/Stirlitz.cpp:444-475 | definition: pass i encrypts nonce 2i+1 followed by the chunk, under nonce 2i as IV; `FileCodec.ChunkEncrypts` proves it succeeds with chunk+16 bytes |
| FileCodec.EncryptedChunks | stirlitz/src/Stirlitz.cpp:431-486 | definition: the specification of the encryption loop, the encrypted chunks of min(10485744, remaining) bytes in order or the first pass's error; `FileCodec.EncryptedChunksOk` and `FileCodec.FileRoundTrip` are about it |
| FileCodec.DecryptedRecord | stirlitz/src/Stirlitz.cpp:596-617 | definition: pass i decrypts one record under nonce i and drops its first 16 bytes, failing with the cipher's error or on a short result; `FileCodec.RecordDecrypts` says when it fails |
| FileCodec.DecryptedRecords | stirlitz/src/Stirlitz.cpp:562-620 | definition: the specification of the decryption loop over records of min(10485760, remaining) bytes; `FileCodec.DecryptedRecordsError` says exactly when it fails |
| FileCodec.EncryptedFile | stirlitz/src/Stirlitz.cpp:359-489 | definition: the specification of `encryptFile`'s output, the loop under the key `Stirlitz.DataKey`; `FileCodec.FileDecryptsBack` proves its round trip |
| FileCodec.DecryptedFile | stirlitz/src/Stirlitz.cpp:491-623 | definition: the specification of `decryptFile`'s output under the same key |
| FileCodec.RecordErrorMessage | stirlitz/src/Stirlitz.cpp:599-615 | definition: a cipher error is thrown through `printGcryptError` with the prefix "Stirlitz::decryptFile:", a short record as "Stirlitz::decryptFile: incorrect file" |
| FileCodec.ChunkEncrypts | stirlitz/src/Stirlitz.cpp:456-475 | a non-empty chunk with its leading block always encrypts, to chunk+16 bytes |
| FileCodec.EncryptedChunksOk | stirlitz/src/Stirlitz.cpp:431-486 | the encryption loop never fails, and writes fsz + 16·⌈fsz/10485744⌉ bytes |
| FileCodec.RecordDecrypts | stirlitz/src/Stirlitz.cpp:596-617 | a non-empty record fails exactly when it is shorter than 16 bytes, and then with `GPG_ERR_INV_LENGTH`, never by the short-buffer check |
| FileCodec.DecryptedRecordsError | stirlitz/src/Stirlitz.cpp:562-620 | the decryption loop fails exactly when the last record is 1 to 15 bytes long, and then by the cipher's length error |
| FileCodec.EncryptedChunksSplit | stirlitz/src/Stirlitz.cpp:431-486 | the first encrypted chunk is one full record (or all of the output), and the records after it are the encryption of the rest |
| FileCodec.ChunkRoundTrip | stirlitz/src/Stirlitz.cpp:444-617 | decrypting an encrypted chunk, under any IV, gives back the chunk |
| FileCodec.DecryptedRecordsCons | stirlitz/src/Stirlitz.cpp:562-620 | the loop's output is the first record's plaintext followed by the rest's |
| FileCodec.FileRoundTrip | stirlitz/src/Stirlitz.cpp:431-620 | the record decryption of the chunk encryption of any data is the data, whatever nonces either side draws |
| FileCodec.FileDecryptsBack | stirlitz/src/Stirlitz.cpp:359-623 | with a valid backend, a non-empty file encrypts to more than 16 bytes, and that decrypts back to the file |
| FileCodec.EncryptLoopStep | stirlitz/src/Stirlitz.cpp:431-486 | a successful pass extends what is written towards the whole output; a failing pass is the error of the whole loop |
| FileCodec.DecryptLoopStep | stirlitz/src/Stirlitz.cpp:562-620 | the same for the decryption loop |
| FileCodec.EncryptPass | stirlitz/src/Stirlitz.cpp:444-475 | reads min(10485744, remaining) bytes and encrypts the nonce block followed by them under the next nonce IV |
| FileCodec.EncryptPasses | stirlitz/src/Stirlitz.cpp:431-486 | the method of the loop: when every pass succeeds, the destination holds exactly the encrypted chunks `FileCodec.EncryptedChunks` of the data, in order, and the outcome is success; when a pass fails, the destination is removed and the message `printGcryptError` builds for that pass's error code is thrown |
| FileCodec.EncryptFile | stirlitz/src/Stirlitz.cpp:359-489 | the method of `encryptFile`, tied to its specification `FileCodec.EncryptedFile`: a missing source changes nothing; an empty source leaves an empty destination and throws "incorrect file"; otherwise as `EncryptPasses` on the source's bytes under BLAKE2s-256(u‖p) |
| FileCodec.DecryptPass | stirlitz/src/Stirlitz.cpp:575-615 | reads min(10485760, remaining) bytes and decrypts them under the next nonce IV, failing on a short result |
| FileCodec.DecryptPasses | stirlitz/src/Stirlitz.cpp:562-620 | the method of the loop: when every pass succeeds, the destination holds exactly `FileCodec.DecryptedRecords` of the data (each record without its first 16 bytes, in order); when a pass fails, the destination is removed and that pass's message is thrown |
| FileCodec.DecryptFile | stirlitz/src/Stirlitz.cpp:491-623 | the method of `decryptFile`, tied to its specification `FileCodec.DecryptedFile`: a missing source changes nothing; a source shorter than 16 bytes leaves an empty destination and throws "incorrect file(1)"; otherwise as `DecryptPasses` |
| FileCodec.EncryptThenDecryptFile | stirlitz/src/Stirlitz.cpp:359-623 | encrypting a non-empty file and decrypting the result both succeed, and the second destination holds the original bytes |
| KeySetWindow.HexOnlyStep | src/KeySetWindow.cpp:89-106 | one more character of the text is kept exactly when it is a hexadecimal digit |
| KeySetWindow.HexOnly | src/KeySetWindow.cpp:89-106 | the filtered key contains only the characters 0-9, A-F and a-f, and is no longer than the text |
| KeySetWindow.KeepHexDigits | src/KeySetWindow.cpp:89-106 | the in-place `erase(remove_if(...))` leaves exactly the hexadecimal digits of the text, in order |
| KeySetWindow.KeySetWindow.constructor | src/KeySetWindow.cpp:25-85 | a new window is open, holds the text of its key field (an input: the typing and pasting are not modelled), and has emitted nothing and shown no dialog |
| KeySetWindow.KeySetWindow.CheckInput | src/KeySetWindow.cpp:87-125 | with exactly 64 digits, emits the filtered string and closes; otherwise shows "Incorrect key!", emits nothing and stays open; the key field is unchanged |
| KeySetWindow.HexOnlyMembership | src/KeySetWindow.cpp:89-106 | a character is in the result if and only if it is in the text and is 0-9, A-F or a-f |
| KeySetWindow.HexOnlyInOrder | src/KeySetWindow.cpp:89-106 | the filter keeps the order of the text |
| KeySetWindow.HexOnlyIdempotent | src/KeySetWindow.cpp:89-106 | filtering an accepted key again yields the same string |
| KeySetWindow.HexOnlyKeepsDigits | src/KeySetWindow.cpp:89-106 | text made only of hexadecimal digits passes unchanged |
| KeySetWindow.AcceptedKeyBuildsPublicKey | src/MainWindow.cpp:573-576 | an accepted key decodes to exactly 32 bytes, so `generatePublicKeyExp` accepts it |
| KeySetWindow.AcceptKey | src/MainWindow.cpp:573-576 | `fromHex` followed by `generatePublicKeyExp` on an accepted key never throws |

Proof helpers without a row of their own: `Bytes.Zeros`, `Bytes.XorZeros`,
`Bytes.StringBytes`, `Cbc.DropFirstBlock` (a slice identity),
`FileCodec.ChunkFillsRecord` (10485744 + 16 == 10485760),
`FileCodec.RecordRemainder` (modular arithmetic), `FileCodec.LoopStart` and
`FileCodec.Min`/`FileCodec.Chunks`.

## Left out

- The constructor (libgcrypt initialisation, secure memory and the version check) is global library state.
- Logging to stdout or Android is I/O.
- The primitives stay abstract, because they are foreign calls: AES-256, BLAKE2s-256, `gcry_create_nonce`/`gcry_randomize`, `gcry_pk_genkey` (so `generateKeyPair`) and `gcry_pk_encrypt`. Nonces and random blocks are inputs, and block decryption inverting block encryption is a precondition (`Gcrypt.Valid`), not an axiom.
- `sexpToString`/`sexpFromString` and the S-expression building in `gcry_sexp_build` are not modelled: S-expressions exist only as trees. A failure of `gcry_sexp_build` is not modelled either.
- Failures of `gcry_cipher_open`, `gcry_cipher_setkey`, `gcry_cipher_setiv`, `gcry_cipher_reset` and `gcry_md_open` are left out. The model assumes these calls succeed. With the fixed algorithm, mode and 32-byte key the engine passes, they can still fail when secure memory runs out, since the handles are opened with the secure flags; those error paths are not modelled.
- `gcry_cipher_encrypt`/`gcry_cipher_decrypt` can only fail through the CTS length rule of `Cbc.CipherEncrypt`.
- Stirlitz.HashString: only the BLAKE2s-256 digest the engine asks for is modelled, not other algorithms.
- File-system details are left out: `create_directories`, seek/tell, stream failure states, and the "cannot write to resulting file" error when the destination stream fails to open. Files are a map from paths to bytes, and the source is read as a whole when it is opened.
- Hex.FromHex: requires every character to be a hexadecimal digit. On other characters the source takes its value from iostream `std::hex` extraction, which skips whitespace and gives 0 on failure.
- Hex.ToHex: it takes bytes, which covers both template instantiations. The `std::string` instantiation reads each `char` as a byte.
- Stirlitz.CredentialsSwapped: it states only the pairing. It does not state that two peers derive matching credentials, because that depends on what `gcry_pk_encrypt` computes for a key pair passed as data, which is not modelled.
- KeySetWindow.KeySetWindow.CheckInput: the Qt widgets, the `QMessageBox` and `toStdString` are dialog state. The model records only the shown message and the emitted key. Non-ASCII characters are dropped by the filter whatever their UTF-8 encoding.
- KeySetWindow.KeySetWindow.constructor: the key field starts empty in `createWindow` and is filled by typing or pasting; the model takes its final text as a constructor input and does not model the editing.
- The rest of the Qt application is not part of this model: the main window, the tabs, profiles, the worker thread and the output-name suggestion.
- `decryptFile` has a check that the decrypted buffer is at least 16 bytes. The model keeps it (`FileCodec.DecryptedRecord`), but `FileCodec.DecryptedRecordsError` shows it is never reached: a 1-15 byte final record is already refused by the cipher's length rule.
