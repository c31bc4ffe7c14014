# Chunked RSA file encryption — a verified model

This project models the block-chunking core of `crypto::Crypto`
(`src/Crypto/Crypto.cpp`). The core turns the single-block RSA primitive
(`RSA_public_encrypt` / `RSA_private_decrypt` with PKCS#1 v1.5 padding) into
whole-buffer and whole-file transforms:

- **Encryption** (`PerformEncryption`, `EncryptWithPublicKey`) cuts the input
  into consecutive slices of at most `K - 42` bytes, where `K = RSA_size(key)`,
  encrypts each slice into one `K`-byte block and appends the blocks in order.
- **Decryption** (`PerformDecryption`, `DecryptWithPrivateKey`) cuts the
  ciphertext at `K`-byte boundaries, decrypts each block and appends the
  plaintexts. The ciphertext has no framing, so decryption only works when
  these boundaries line up with the encryptor's blocks.
- **Streaming** (`EncryptFile`, `DecryptFile`) reads the file in windows of
  10000 bytes and applies the buffer transform to each window.
- **Key ownership** (the two constructors and the destructor) uses the flags
  `keys_.first` and `keys_.second` to decide which key handles the destructor
  frees.

The files:

- `primitive.dfy`: the primitive, seen through its contract. A key holds `K`
  and the primitive as a function value. `ValidPublicKey`, `ValidPrivateKey`
  and `KeyPair` state the library's promises:
  - every ciphertext block is `K` bytes;
  - a recovered message is at most `K - 11` bytes (section 7.2.2 of RFC 8017);
  - decryption undoes encryption for blocks of `1..K-42` bytes.

  PKCS#1 v1.5 padding is random (section 7.2.1 of RFC 8017). The encrypt
  function therefore also takes a draw number, and the chunkers take the
  random source `rng` as a parameter. Block `i` of a call uses `rng(draw + i)`.
  Equal plaintext blocks are never assumed to give equal ciphertext.
- `slicing.dfy`: `Slices(s, m)`, the front-to-back partition that every loop
  walks, with its properties.
- `chunking.dfy`: `Encrypted` and `Decrypted`, the specifications of the buffer
  transforms; the four methods proved equal to them; the lemmas for the length
  law, error propagation, truncation detection and round trip; the
  error-swallowing loop as written.
- `streaming.dfy`: `EncryptFile`; a `DecryptFile` that carries leftover bytes
  from one window to the next; the written per-window decryption and what goes
  wrong with it.
- `keyslots.dfy`: the `Crypto` class reduced to its key slots, ownership flags
  and the log of released handles.

Three facts about the code shape the model:

- Streaming encryption equals one-pass encryption when the window is a whole
  number of plaintext blocks (`StreamMatchesOnePass`). For the usual key sizes
  (`K` = 128, 256, 384 or 512 bytes), `K - 42` does not divide 10000. For a
  file longer than one window, each full 10000-byte window therefore ends in a
  short block, and the window boundary cuts the plaintext into different slices
  than one pass does. The round trip holds for every window size
  (`StreamRoundTrip`).
- A key reader that fails returns a null key (src/Crypto/Crypto.cpp:61-72).
  That path never reaches the constructor's catch block, so the public key is
  kept. Only an exception thrown while reading the private key reaches the
  catch block (src/Crypto/Crypto.cpp:208-210), which frees the public key.
  The corrected constructor keeps that release and clears `keys_.first` with
  it.
- The code's 42-byte margin is the OAEP-SHA1 overhead, but the padding it asks
  for is PKCS#1 v1.5. The model keeps 42 (`Primitive.Overhead`).

## Model

| member | source | states |
|---|---|---|
| `Chunking.EncryptBlocks` | src/Crypto/Crypto.cpp:154-161 | encrypting the blocks in order gives exactly `K` bytes per block, and any failure is a `CipherError` |
| `Chunking.DecryptBlocks` | src/Crypto/Crypto.cpp:173-179 | decryption succeeds only if every block it was handed is exactly `K` bytes |
| `Chunking.PerformEncryption` | src/Crypto/Crypto.cpp:91-120 | for at most `K-42` bytes, the `K`-byte buffer loop (writes at `total_encrypted_length`, then trims) returns `Encrypted` of the input; every write is in bounds, and a `-1` from the primitive becomes `CipherError` |
| `Chunking.PerformDecryption` | src/Crypto/Crypto.cpp:122-146 | for one `K`-byte block, the buffer loop returns `Decrypted` of the block; the `K - 11` bound on a plaintext keeps the write at `total_decrypted_length` in bounds |
| `Chunking.EncryptWithPublicKey` | src/Crypto/Crypto.cpp:148-164 | the offset loop returns `Encrypted` of the input; every call to `PerformEncryption` meets its `K-42` limit; empty input gives empty output |
| `Chunking.DecryptWithPrivateKey` | src/Crypto/Crypto.cpp:166-182 | the `K`-step offset loop returns `Decrypted` of the input; a short final slice is reported as `TruncatedInput` instead of being read past the end |
| `Chunking.DecryptedAppend` | src/Crypto/Crypto.cpp:173-178 | if the first part is whole `K`-byte blocks, decrypting the concatenation is decrypting the first part and then the second |
| `Chunking.CiphertextLength` | src/Crypto/Crypto.cpp:149-161 | successful ciphertext is `K * ceil(n / (K-42))` bytes (0 for empty input), a multiple of `K` |
| `Chunking.SliceBound` | src/Crypto/Crypto.cpp:149-157 | every slice given to the primitive is `1..K-42` bytes, all but the last are exactly `K-42` bytes, and together they rebuild the input |
| `Chunking.EncryptFailsIff` | src/Crypto/Crypto.cpp:158-159 | encryption fails if and only if the primitive fails on some block, with that block's own random draw |
| `Chunking.DecryptFailsIff` | src/Crypto/Crypto.cpp:176-177 | decryption fails if and only if some block is short or is rejected by the primitive |
| `Chunking.TruncatedBlocks` | src/Crypto/Crypto.cpp:173-179 | blocks are checked in order: the call fails with `TruncatedInput` if and only if some block is short and every block before it is whole and accepted |
| `Chunking.TruncatedInputRejected` | src/Crypto/Crypto.cpp:173-175 | ciphertext whose length is not a multiple of `K` never decrypts; it fails with `TruncatedInput` if and only if its length is not a multiple of `K` and every whole block in front of the short tail is accepted |
| `Chunking.BlocksRoundTrip` | src/Crypto/Crypto.cpp:154-179 | blocks encrypted with a matching key decrypt back to the concatenated plaintext slices |
| `Chunking.RoundTrip` | src/Crypto/Crypto.cpp:148-182 | for every random draw, decrypting successful `EncryptWithPublicKey` output with the matching key gives back the input |
| `Chunking.EncryptBlocksSwallowing` | src/Crypto/Crypto.cpp:154-161 | the written loop, which appends an empty vector for a failed block, never returns more than `K` bytes per block, and exactly `K` per block when no block fails |
| `Chunking.SwallowedFailure` | src/Crypto/Crypto.cpp:158-159 | the written loop, which appends an empty vector for a failed block, agrees with the model when nothing fails; when some block fails it still returns normally, with fewer than `K` bytes per block |
| `Chunking.DecryptBlocksSwallowing` | src/Crypto/Crypto.cpp:168-179 | the written decrypt loop, which appends an empty vector for a rejected block, returns at most `K - 11` bytes per block |
| `Chunking.DecryptSwallowingAgrees` | src/Crypto/Crypto.cpp:168-179 | when no block is rejected, the written decrypt loop returns what the model returns |
| `Chunking.RejectedBlockDropped` | src/Crypto/Crypto.cpp:176-177 | when block `j` is rejected, the written decrypt loop still returns normally, with the output of the blocks before and after `j` and nothing for `j`, while the model fails |
| `Chunking.AsWrittenDecryptSlicesInBounds` | src/Crypto/Crypto.cpp:173-178 | every slice the written loop takes is inside the input if and only if its length is a multiple of `K` |
| `Slicing.SlicesPartition` | src/Crypto/Crypto.cpp:154-161 | the slices concatenate back to the input |
| `Slicing.SlicesSizes` | src/Crypto/Crypto.cpp:155 | no slice is empty or longer than the step, and all slices but the last are exactly the step |
| `Slicing.SliceAt` | src/Crypto/Crypto.cpp:155-160 | slice `i` starts at offset `i*m`, so slices are consecutive, non-overlapping and in input order |
| `Slicing.SliceCount` | src/Crypto/Crypto.cpp:154-161 | the loop runs `ceil(n/m)` times, and never for empty input |
| `Streaming.EncryptFile` | src/Crypto/Crypto.cpp:243-253 | the output is the concatenation, over successive windows of at most 10000 bytes, of `EncryptWithPublicKey` of each window; the random draws carry on from window to window |
| `Streaming.DecryptFile` | src/Crypto/Crypto.cpp:276-287 | the window loop with a leftover buffer returns `Decrypted` of the whole file; the leftover stays under one block |
| `Streaming.StreamRoundTrip` | src/Crypto/Crypto.cpp:243-287 | for any window size, decrypting the streamed ciphertext as one stream gives back the file |
| `Streaming.StreamMatchesOnePass` | src/Crypto/Crypto.cpp:243-253 | if the window is a multiple of `K-42`, window-by-window encryption equals one-pass encryption |
| `Streaming.DecryptedPerWindow` | src/Crypto/Crypto.cpp:276-287 | the window structure of the written `DecryptFile`: each read window is decrypted on its own, with the corrected `Decrypted`. It succeeds only if every window is a whole number of `K`-byte blocks |
| `Streaming.AlignedWindowsAgree` | src/Crypto/Crypto.cpp:276-287 | when the window is a multiple of `K`, decrypting each window on its own with the corrected `Decrypted` equals decrypting the file as one buffer |
| `Streaming.MisalignedWindowFails` | src/Crypto/Crypto.cpp:276-287 | when the window is not a multiple of `K`, decrypting each window on its own fails for every input longer than one window |
| `Streaming.TenThousandByteWindowsFail` | src/Crypto/Crypto.cpp:276-284 | for `K = 256`, streamed ciphertext longer than 10000 bytes decrypts correctly as one stream but fails with the written 10000-byte windows |
| `KeySlots.Crypto.FromString` | src/Crypto/Crypto.cpp:184-192 | the string constructor stores the parsed handle (null on failure), owns the public slot only, and has released nothing |
| `KeySlots.Crypto.FromFilesAsWritten` | src/Crypto/Crypto.cpp:194-214 | the written two-file constructor: if the private read throws, the public handle is freed while `keys_.first` stays set |
| `KeySlots.Crypto.FromFiles` | src/Crypto/Crypto.cpp:194-214 | the corrected constructor: the catch path frees the public handle and gives up ownership of it; the object invariant holds afterwards |
| `KeySlots.Crypto.Release` | src/Crypto/Crypto.cpp:216-223 | the destructor frees exactly the handles whose flag is set, public then private; from a valid state nothing is freed twice |
| `KeySlots.SessionLifetime` | src/Crypto/Crypto.cpp:194-223 | construct-then-destroy frees every handle obtained exactly once and frees nothing else, whichever reads failed |
| `KeySlots.StringSessionLifetime` | src/Crypto/Crypto.cpp:184-223 | a string session frees its parsed public key once, or frees nothing |
| `KeySlots.AsWrittenSessionLifetime` | src/Crypto/Crypto.cpp:201-223 | with the written constructor, some handle is freed twice if and only if the public key was read and the private read threw |

## Left out

- The RSA primitive itself (`RSA_public_encrypt`, `RSA_private_decrypt`, `RSA_size`) is a library call. Only its contract is modelled: the length and inverse predicates in `primitive.dfy`. Detecting a wrong key is the primitive's job, not the chunker's.
- PEM key handling is not modelled: `GetPublicKeyAsString`, `CreatePublicKeyFromString`, `ReadPublicKeyFromPEM` and `ReadPrivateKeyFromPEM` are I/O over OpenSSL. Their result is the `KeyRead` parameter of the constructors.
- File and filesystem I/O is not modelled:
  - `ReadFileBytes`/`WriteFileBytes`;
  - the `exists`/`is_open` checks and their exceptions;
  - the output-path construction (`temp_directory_path`, `current_path`, the `encrypted_`/`2_` prefixes).

  The file is a byte sequence, and each `read` is the next window of up to 10000 bytes. The `eof`/`gcount` loop is the same as iterating over these windows. The file methods return bytes, not a path.
- Console logging is not modelled.
- Partial output is not modelled. On a failure the source has already written the earlier windows to the output file; the model returns only the error.
- `int` offsets are modelled as unbounded integers. In the source they overflow for inputs of 2 GiB or more.
- Null keys are not modelled. `EncryptFile` and `DecryptFile` with a null `public_key_`/`private_key_` call `RSA_size(nullptr)`; the file methods take a key that is present.
- The chunking methods require `K > 42`. With `K = 42`, `input_block_size` is 0 and the encrypt loop never advances. With `K < 42` it is negative, and the chunk at src/Crypto/Crypto.cpp:157 is built from an end iterator that lies before its begin, which is undefined behaviour.
- The class declaration is not part of this model. Its initial values are assumed: both handles null and both `keys_` flags false.
- `Chunking.PerformEncryption`: requires at most `K - 42` bytes. With more, the source writes past its `K`-byte buffer, which is undefined behaviour, and `EncryptWithPublicKey` never passes more.
- `Chunking.PerformDecryption`: requires zero or one `K`-byte block. Misaligned input reads past the end, and a second block would overflow the `K`-byte buffer; `DecryptWithPrivateKey` always passes exactly one block.
- `Streaming.DecryptedPerWindow` models only the window structure of the written `DecryptFile`. It decrypts each window with the corrected `Decrypted`, which differs from the source in two ways:
  - It reports a misaligned window as `TruncatedInput`. In the source, that window is read past its end.
  - A window holding a rejected block fails with `CipherError`. The written loop drops that block's plaintext and carries on (see `Chunking.RejectedBlockDropped`).
- `Chunking.DecryptBlocksSwallowing` passes a short final slice to the primitive as it is. In the source that slice is read past the end of the input (the out-of-range slice finding), which has no defined result.
- `Chunking.TruncatedInputRejected`: misaligned ciphertext is reported as `TruncatedInput` only when every whole block before the short tail is accepted. If an earlier block is rejected, the model reports `CipherError`, because blocks are checked in input order and the first failure wins. The length is not checked up front.

## Findings

| source | as written | input that shows it | evidently intended | confidence | as-written member | corrected member |
|---|---|---|---|---|---|---|
| src/Crypto/Crypto.cpp:158-159 | `PerformEncryption` returns an empty vector when the primitive fails. The caller appends it, keeps looping and returns normally. | Any input on which the primitive returns `-1` for one slice. The output is shorter than `K` bytes per block and decrypts to the input without that slice. | A failed block fails the whole call. | high; not executed | `Chunking.SwallowedFailure` | `Chunking.EncryptFailsIff` |
| src/Crypto/Crypto.cpp:176-177 | `PerformDecryption` returns an empty vector when the primitive rejects a block. The caller appends it, keeps looping and returns normally. | Ciphertext whose block `j` the primitive rejects, such as a corrupted block. The output is the plaintext of the other blocks, with block `j`'s plaintext missing. | A rejected block fails the whole call. | high; not executed | `Chunking.RejectedBlockDropped` | `Chunking.DecryptFailsIff` |
| src/Crypto/Crypto.cpp:173-175 | The slice `[offset, offset + K)` is taken even when fewer than `K` bytes remain. | 300 bytes of ciphertext with `K = 256`: the second slice is `[256, 512)`. | Report truncated ciphertext. | high; not executed | `Chunking.AsWrittenDecryptSlicesInBounds` | `Chunking.TruncatedInputRejected` |
| src/Crypto/Crypto.cpp:276-284 | Each 10000-byte read window is decrypted on its own, but 10000 is not a multiple of `K`. | `K = 256` and a plaintext of 8347 bytes or more (40 or more blocks). The ciphertext exceeds 10000 bytes, and the first window ends 16 bytes into block 40. | Carry leftover bytes into the next window, and decrypt only whole blocks. | high; not executed | `Streaming.TenThousandByteWindowsFail` | `Streaming.DecryptFile` |
| src/Crypto/Crypto.cpp:203-213 | The catch block frees `public_key_` but leaves `keys_.first` set, so `~Crypto` frees it again. | The public key is read, then reading the private key throws. | Each handle is freed once. | medium (the readers return null instead of throwing, so only an exception such as `std::bad_alloc` reaches this path); not executed | `KeySlots.AsWrittenSessionLifetime` | `KeySlots.SessionLifetime` |
