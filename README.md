# Mnemonic backup: entropy, word encoding and the encryptor's selection logic

This project models, in Dafny, the non-cryptographic core of a small JavaScript library for
backing up secrets. The library makes a 154-bit entropy string, turns it into a 14-word
mnemonic using a 2048-word list, and encrypts the first 13 words of the mnemonic with AES-256-GCM. The model covers:

- `generateEntropy`, `validateEntropy`, `entropyToMnemonic` and the `mnemonic` dispatcher of
  `src/mnemonic.js` (module `MnemonicCodec`);
- `cypher` of `src/cypher.js` (module `Encryptor`): the word-count check, the plaintext
  built from the first 13 words, the IV used for encryption, the IV reported back, and the
  returned envelope.

The JavaScript built-ins this code depends on are modelled in their own modules:

- `JsStrings`: `split` with a one-character separator, `join`, `slice`, `toString(2)`,
  `padStart` and `parseInt(s, 2)`;
- `Hex`: `Buffer.toString('hex')`, together with a strict decoder that serves as its inverse;
- `Binary`: binary digit strings and the big-endian values they denote;
- `Results`: the `Result` and `Option` wrappers. A thrown `Error` surfaces as an `Err` value.

Inputs the code obtains from outside are parameters of the model:

- The random bytes from `crypto.randomBytes` are a parameter whose length is the number of
  bytes requested.
- The imported English wordlist is a parameter `wl`. The encoder's theorems assume
  `ValidWordlist(wl)`: 2048 entries, none empty, none containing a space.
- AES-256-GCM is a parameter `gcm` of function type. Nothing is assumed about it. It maps
  (hex key, IV, plaintext) to the hex outputs of `update`, `final` and `getAuthTag`, or to
  `Refused` when Node would throw.

Three facts about the code shape the model:

- `cypher` encrypts only the first 13 words of the mnemonic; the 14th never reaches the cipher
  (src/cypher.js:8, src/cypher.js:14).
- `cypher` checks neither the key length nor the IV length; any such failure is the
  primitive's (src/cypher.js:11-12).
- `validateEntropy` checks only the length of its argument, never whether it is made of
  binary digits (src/mnemonic.js:14).

One behaviour stands out. An empty-string IV is falsy, so the random IV encrypts the plaintext,
but it is not `null`, so `""` is reported in the envelope (`Encryptor.EmptyIvIsMisreported`).
The model keeps that behaviour as written.

## Model

| member | source | states |
|---|---|---|
| JsStrings.Split | src/cypher.js:4 | `split(' ')` returns exactly one more piece than the string has separators, and no piece contains the separator |
| JsStrings.Join | src/mnemonic.js:26 | `Array.prototype.join` on strings; it has no contract of its own, and its meaning is given by `JoinOfSplit`, `SplitOfJoin`, `JoinEnds` and `JoinAt` |
| JsStrings.JoinAt | src/cypher.js:8 | a join is the join of its first n elements, the separator, and the join of the rest |
| JsStrings.Render | src/mnemonic.js:26 | `join` renders an `undefined` slot as the empty string and a word as itself |
| JsStrings.RenderAll | src/mnemonic.js:26 | every slot of the array is rendered in place, one for one |
| JsStrings.JoinArray | src/mnemonic.js:26 | `words.join(' ')` on an array whose slots may be `undefined`; its meaning is given by `MnemonicCodec.SplitMnemonic` and `MnemonicCodec.MnemonicIsSingleSpaced` |
| JsStrings.JoinOfSplit | src/cypher.js:4-8 | joining the pieces of a split with the same separator gives back the original string |
| JsStrings.SplitOfJoin | src/mnemonic.js:26 | splitting a join of separator-free words gives back exactly those words, in order |
| JsStrings.JoinEnds | src/mnemonic.js:26 | a join of non-empty, separator-free words is non-empty and neither starts nor ends with the separator |
| JsStrings.Slice | src/mnemonic.js:23 | `slice(i, i + 11)` clamps both bounds to the string's length and returns the characters from `i` on |
| JsStrings.ToStringRadix2 | src/mnemonic.js:8 | `toString(2)` is a binary string whose value is the number; it starts with `1`, or is exactly `"0"` for zero |
| JsStrings.PadStart | src/mnemonic.js:8 | `padStart(8, '0')` produces the larger of the two lengths, keeps the string as a suffix, and fills the front with the pad character |
| JsStrings.PadStartWithZeros | src/mnemonic.js:8 | zero-padding a binary string keeps it binary and keeps its value |
| JsStrings.ParseIntBase2 | src/mnemonic.js:23 | `parseInt(s, 2)` is NaN or a number whose magnitude is below 2^\|s\| |
| JsStrings.ParseIntOfBinary | src/mnemonic.js:23 | on a non-empty binary string, `parseInt(s, 2)` is the string's big-endian value |
| Hex.ToHex | src/cypher.js:23 | hex rendering produces two characters per byte |
| Hex.HexRoundTrip | src/cypher.js:23 | decoding the hex rendering of a byte sequence gives back that byte sequence |
| MnemonicCodec.ByteToBinary | src/mnemonic.js:8 | each byte becomes exactly 8 binary digits, most significant first, whose value is the byte |
| MnemonicCodec.BitString | src/mnemonic.js:7-9 | the concatenated renderings have 8 digits per byte and are the big-endian bit string of the whole byte sequence |
| MnemonicCodec.BitStringAt | src/mnemonic.js:7-9 | character k of the bit string is digit k mod 8 of byte k div 8 |
| MnemonicCodec.ByteCount | src/mnemonic.js:5 | `Math.ceil(bits / 8)` is the least number of bytes that can hold `bits` bits |
| MnemonicCodec.GenerateEntropy | src/mnemonic.js:4-11 | generated entropy has exactly `bits` binary digits; digit k is bit k mod 8 (high bit first) of random byte k div 8 |
| MnemonicCodec.GenerateEntropyValue | src/mnemonic.js:7-10 | the entropy's value is the big-endian value of the random bytes with the `8 * ceil(bits / 8) - bits` cut-off bits shifted out; for a whole number of bytes it is exactly that big-endian value |
| MnemonicCodec.ValidateEntropy | src/mnemonic.js:13-18 | fails, reporting the length, exactly when the input is shorter than 154 characters; otherwise returns its 154-character prefix, whatever the characters are |
| MnemonicCodec.ValidateEntropyIdempotent | src/mnemonic.js:17 | validating already-validated entropy returns the same result |
| MnemonicCodec.GroupCount | src/mnemonic.js:22 | the loop runs `ceil(n / 11)` times |
| MnemonicCodec.WordAt | src/mnemonic.js:24 | `wordlist[index]` is a word exactly when the index is a number inside the list, and then it is that entry |
| MnemonicCodec.GroupWord | src/mnemonic.js:23-24 | the slot for group k; `GroupWordOfBinary` states its value for binary entropy |
| MnemonicCodec.WordsUpTo | src/mnemonic.js:21-25 | after n steps the `words` array has n slots; slot k is the lookup of characters 11k..11k+10 |
| MnemonicCodec.Words | src/mnemonic.js:21-25 | the finished `words` array has one slot per 11-character group, `ceil(n / 11)` in all |
| MnemonicCodec.MnemonicOf | src/mnemonic.js:20-27 | what `entropyToMnemonic` returns; `EntropyToMnemonic`, `SplitMnemonic` and `EncodeBinaryEntropy` give its meaning |
| MnemonicCodec.EntropyToMnemonic | src/mnemonic.js:20-27 | the loop's result is the join, with single spaces, of one lookup per 11-character group |
| MnemonicCodec.SplitMnemonic | src/mnemonic.js:26 | with a valid wordlist, splitting the mnemonic on spaces gives back the rendered slots one for one, for any entropy characters |
| MnemonicCodec.GroupWordOfBinary | src/mnemonic.js:23-24 | for binary entropy, every group's value is below 2048 and its slot holds that wordlist entry |
| MnemonicCodec.EncodeBinaryEntropy | src/mnemonic.js:21-26 | for binary entropy, word k of the mnemonic is `wl[v]`, where v < 2048 is the big-endian value of characters 11k..11k+10 |
| MnemonicCodec.MnemonicWordsAreListed | src/mnemonic.js:20-27 | 154 binary characters give exactly 14 words, each a non-empty wordlist entry |
| MnemonicCodec.MnemonicIsSingleSpaced | src/mnemonic.js:26 | that mnemonic has no empty word and no leading or trailing space |
| MnemonicCodec.IsTruthy | src/mnemonic.js:31 | `if (entropy)`: only a non-empty string is truthy; `Mnemonic`'s contract branches on it |
| MnemonicCodec.Mnemonic | src/mnemonic.js:29-37 | a falsy argument uses generated entropy; a truthy one fails exactly when shorter than 154 characters and is otherwise cut to 154; every result has 14 words, and with generated entropy every word is in the list |
| Encryptor.IsTruthy | src/cypher.js:12 | the truthiness `iv \|\| defaultIV` tests: a Buffer always, a string when non-empty, `null` never |
| Encryptor.FirstWords | src/cypher.js:8 | the plaintext is a prefix of the mnemonic, and all of it when there are at most 13 pieces; `PlaintextOmitsLastWord` says exactly where it stops |
| Encryptor.UsedIv | src/cypher.js:12 | `iv \|\| defaultIV`; it has no contract of its own, and `NullIvIsReported`, `TruthyIvIsUsedAndReturned` and `EmptyIvIsMisreported` give its meaning |
| Encryptor.ReportedIv | src/cypher.js:19-30 | the reported `iv` field; its meaning is given by the same three lemmas |
| Encryptor.Cypher | src/cypher.js:3-32 | fails with the fixed word-count error exactly when the split does not have 14 pieces; fails in the cipher exactly when the primitive refuses the IV `iv \|\| defaultIV` with the first-13-words plaintext |
| Encryptor.WordCountIsSpacesPlusOne | src/cypher.js:4-7 | the piece count is the space count plus one, so empty pieces count and 14 pieces means exactly 13 spaces |
| Encryptor.PlaintextOmitsLastWord | src/cypher.js:8 | the plaintext is the prefix before the 13th space: the mnemonic is the plaintext, a space and the 14th word, and the plaintext has 12 spaces |
| Encryptor.NullIvIsReported | src/cypher.js:10-24 | with a null IV the random bytes encrypt, the ciphertext is `update` followed by `final`, and the reported IV is 24 hex characters that decode to those bytes |
| Encryptor.TruthyIvIsUsedAndReturned | src/cypher.js:12-30 | a truthy IV is the value handed to the cipher; a string is reported unchanged and a Buffer's hex decodes back to it |
| Encryptor.EmptyIvIsMisreported | src/cypher.js:12-29 | an empty-string IV makes the random IV encrypt while `""` is reported, which differs from the IV actually used |
| Encryptor.EncodedMnemonicIsAccepted | src/cypher.js:4-8 | any mnemonic the encoder makes from 154 characters passes the word-count check, and the word left unencrypted is the encoder's 14th |

## Left out

- AES-256-GCM (`createCipheriv`, `update`, `final`, `getAuthTag`): an uninterpreted parameter. No property of it is assumed, including any round trip.
- Converting the hex key into bytes (`Buffer.from(key, 'hex')`) and a string IV into bytes: both happen inside the primitive's parameter. Node's `createCipheriv` reads a string IV as UTF-8 text, not as hex, while the envelope reports the string as given (src/cypher.js:29). So a 24-hex-character string IV encrypts under its 24 UTF-8 bytes, and a reader that hex-decodes the reported IV gets different bytes. `TruthyIvIsUsedAndReturned` shows that the string is what is handed to the primitive. It says nothing about which bytes the primitive then uses.
- `crypto.randomBytes`: the bytes are parameters, so the randomness of the IV and the entropy is not modelled.
- The imported wordlist: external data, modelled as the parameter `wl`.
- `src/decypher.js`, `src/key.js` (PBKDF2) and `src/index.js` (exports) are not part of this model. This includes the argument mismatch where `generateKey` forwards to `prepKey` at src/index.js:11.
- Arguments that are not strings (numbers, objects, `false`) for the entropy, the mnemonic, the key and the IV. The key is a string in the model, so a Buffer key (src/cypher.js:11) is not covered. A Buffer IV is covered. `null` and `undefined` are the absent cases.
- JavaScript strings are sequences of UTF-16 code units. The model uses Unicode scalar values, so `length` and `slice` differ for characters outside the Basic Multilingual Plane.
- ParseIntBase2: folds `-0` into `0`. This changes nothing, because the result is only used as an array index.
- Error texts are not modelled. `validateEntropy`'s error carries the length its message reports (src/mnemonic.js:15). The word-count error of `cypher` carries nothing, because its message is fixed (src/cypher.js:6).
