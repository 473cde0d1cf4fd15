# A verified model of the BitcoinSpoon core

BitcoinSpoon is a Bitcoin SPV wallet library in C. This project models the algorithms at its core in Dafny and
proves what they promise, for all inputs and over whole runs. Hash functions, signature verification, the
elliptic curve and the compression functions are parameters; where a law of theirs is needed (a digest has
32 bytes, scalar multiplication is a homomorphism) it is a predicate on the parameter.

| files | part of the library |
|---|---|
| `MerkleTree`, `MerkleDecoder`, `MerkleBlock`, `MerkleGuard`, `MerkleStandard` | filtered blocks (BIP 37) |
| `HashSpec`, `Sha256Stream`, `Sha512Stream`, `Hmac`, `Pbkdf2`, `ShaWords`, `HashStandard`, `DerivedBytes` | streaming SHA-2, HMAC, PBKDF2 |
| `BlockCipher`, `Aes`, `AesTables`, `AesField`, `AesInPlace`, `AesCbc`, `AesMessage`, `AesStandard`, `AesSubstitution` | AES-256-CBC with padding |
| `Base58`, `Numerals`, `Base58Standard` | Base58 |
| `FeedbackRegister`, `Polymod`, `Bech32Charset`, `Bech32`, `Bech32Codec`, `Bits`, `ConvertBits`, `SegwitAddress`, `Bech32Standard` | Bech32 and witness addresses (BIP 173) |
| `Script`, `ScriptKeys`, `Signatures`, `Finalize`, `Vault`, `VaultBytes` | vault scripts, signature order, the validator |
| `Wire`, `Fields`, `TransactionCodec`, `TransactionRoundTrip`, `TransactionIO`, `TransactionLayout` | transactions as bytes (BIP 144) |
| `Framing`, `Node`, `SecondAck`, `Resync` | the peer connection |
| `HdWallet`, `HdPath`, `HdBytes` | child keys and paths (BIP 32) |
| `DataOrder`, `Dictionary` | sorted dictionaries |
| `MnemonicBits`, `BitPlaces`, `Mnemonic`, `MnemonicStandard` | mnemonic sentences (BIP 39) |
| `GapScan` | the scans with a gap limit |
| `Bytes`, `Arithmetic`, `Endian` | shared vocabulary |

Code that works in place is modelled in place: classes for the hash contexts, the connection, the dictionary
and the read cursor, arrays for the digit, cipher, key, wallet and bit buffers. Each such method is proved
against a function of its input, and the laws are proved of these functions. A law that writer and reader share
cannot tell which format they have in common; the files named `...Standard`, `...Bytes` and `...Layout` say, place
by place, what the bytes are.

## What is false of the code, and exactly when it holds

* `varIntD` writes 253, 254 and 255 as one byte, which `readVarInt` takes for a prefix. `Wire.VarIntRoundTrip`,
  `Fields.MatchesIffClear` and `TransactionRoundTrip.RoundTripIff` show that nothing else goes wrong and that no
  later field makes up for it. A transaction with outputs but no inputs is read as one with a witness marker.
* `sortSignatures` passes over the neighbour of every signature that it takes. `Signatures.PassIffScattered`:
  a pass is right exactly if no two neighbours verify under its key; `Signatures.NeighbourLeft` is the failure.
* Deriving a child and passing to the public wallet commute exactly if the search for a child ends below the
  hardened indices, without wrapping around, at a tweak that is not zero (`HdWallet.ChildCommutesIff`): a zero
  tweak has no public key, and a private wallet that runs out of normal indices goes on with hardened ones.
* The tenth unused address can be handed out although the next scan will not see a payment to it. Such a payment
  is seen exactly if the address is less than ten places behind the last one within reach
  (`GapScan.PaymentSeenIff`, `GapScan.TenthUnseenExample`).
* The tree height loop is right exactly for transaction counts below 2^31 (`MerkleBlock.TreeHeight`).
* An honest proof whose last two hashes are equal is refused (`MerkleBlock.Completeness`,
  `MerkleGuard.RepeatedIdRefused`). Without repeated ids that takes a hash collision, or an id that is the hash of
  an inner node (`MerkleGuard.GuardPasses`).
* A second acknowledgement goes in front of the output buffer. The frames stay whole exactly if none was cut by a
  partial send (`SecondAck.SecondAckWholeIff`).
* `bech32_encode` accepts an empty human-readable part, which `bech32_decode` refuses (`Bech32.DecodeEncoded`).
* PBKDF2 cuts the rounded-up output length to 32 bits (`Pbkdf2.WrittenAll`); an iteration count of 0 acts like 1.
* `toMnemonic` takes both checksum bytes of a 36- or 40-byte entropy from the first byte of the hash, whose sign
  fills the second one (`MnemonicStandard.LongChecksumBits`). BIP 39 stops at 32 bytes. The round trip holds all the same.
* `DataCompare` returns the difference of two unsigned lengths as a signed number. It has the sign of the dictionary
  order exactly if the common front decides or that difference fits 32 bits (`DataOrder.CompareIsLexIff`,
  `DataOrder.EmptyKeyMisplaced`), which it does below 2 GiB.
* The validator refuses every script that begins with its quorum (`Vault.MultisigRefused`). It counts pairs of a
  key and a signature, so that one signature given twice fills a quorum of two (`Vault.VaultAcceptedIff`,
  `Vault.RepeatedSignatureAccepted`).

## Model

| member | source | states |
|---|---|---|
| MerkleTree.BlockTreeRoot | code/MerkleBlock.c:214-248 | the tree that BIP 37 splits top down hashes to the root a miner computes level by level, for odd widths at any level |
| MerkleTree.RootOfLevel | code/MerkleBlock.c:214-248 | hashing one level first and building the lower tree above it gives the same root |
| MerkleDecoder.DecodeHonest | code/MerkleBlock.c:214-248 | on the flags and hashes of any tree the position-free decoder returns its hash and its matches in order and stops where the tree stops, provided only padding follows a tree with missing children |
| MerkleDecoder.DecodePadding | code/MerkleBlock.c:214-248 | with only zero bits and no hashes left, looking for a right child finds nothing and reports nothing |
| MerkleDecoder.ResultSound | code/MerkleBlock.c:214-248 | for arbitrary flags and hashes: if the result is the hash of a real tree, every reported id is a leaf of it, or two different strings with equal hashes are exhibited |
| MerkleBlock.TreeWidthExceedsOne | code/MerkleBlock.c:197-200 | up to 2^31 - 1 transactions the 32-bit width formula exceeds one exactly if there are more than 2^height leaves |
| MerkleBlock.TreeHeight | code/MerkleBlock.c:250-267 | the height loop finds the height of the tree exactly for counts below 2^31, and 0 beyond |
| MerkleBlock.NextElement | code/MerkleBlock.c:202-212 | takes the first hash, or nothing from an empty list |
| MerkleBlock.CalculatedMerkleRootFlexible | code/MerkleBlock.c:214-248 | the recursion that shares cursor, hashes and matches computes the run over the unpacked flags |
| MerkleBlock.DecodeAtIsDecode | code/MerkleBlock.c:214-248 | the cursor form and the form that consumes the flags agree |
| MerkleBlock.MerkleHashes | code/MerkleBlock.c:148-173 | the hash list of a message, cut into 32-byte pieces |
| MerkleBlock.MessageFields | code/MerkleBlock.c:117-195 | the parser gives back the fields of every message built as BIP 37 says |
| MerkleBlock.MatchingTxIdsIfValidRoot | code/MerkleBlock.c:274-283 | the ids reported for a message: those of the decoder if it yields the header's root, else none |
| MerkleBlock.Completeness | code/MerkleBlock.c:197-283 | for every block and every choice of matches, the honest message yields exactly the chosen ids in block order, unless its last two hashes are equal, in which case it yields nothing |
| MerkleBlock.Soundness | code/MerkleBlock.c:214-283 | for any message with the root and size of a real block, every id reported is in the block, or a collision is exhibited |
| MerkleGuard.GuardPasses | code/MerkleBlock.c:35-47 | for distinct ids and any matches the last two hashes of the honest proof differ, or the block exhibits a collision or an id that is the hash of an inner node |
| MerkleGuard.RepeatedIdRefused | code/MerkleBlock.c:35-47 | the honest proof of a block of one id twice, both matched, yields nothing |
| MerkleStandard.LevelNode | code/MerkleBlock.c:214-248 | each node of a level is the hash of two neighbours in their order, the last one of an odd level of itself twice |
| MerkleStandard.RootOfThree | code/MerkleBlock.c:214-248 | the root of three transactions, the last one hashed with itself |
| MerkleStandard.ProofOfThree | code/MerkleBlock.c:214-248 | the flags and hashes of a proof for the second of three transactions, in depth-first order |
| MerkleStandard.PackedFlag | code/MerkleBlock.c:219-221 | flag i is the bit of weight 2^(i % 8) of byte i / 8 |
| MerkleStandard.MessageBytes | code/MerkleBlock.c:117-195 | header, number of transactions, hashes and flag bytes of a message at their places |
| HashSpec.PadZerosLeast | libraries/sha256/sha256.c:114-158 | the padding of FIPS 180-4 is the shortest that completes a block |
| HashSpec.FinalShort | libraries/sha256/sha256.c:121-141 | one last block, when the length fits behind the tail, ends the fold over the padded message |
| HashSpec.FinalLong | libraries/sha256/sha256.c:126-141 | two last blocks, when it does not |
| HashStandard.HashIs | libraries/sha256/sha256.c:99-158 | the digest is taken from the last state of the blocks of message, one bit, fewest zeros and length, each compressed into the one before |
| HashStandard.Sha256Is | libraries/hmac_and_pbkdf/hmac_and_pbkdf.h:192-238 | the digest is eight words of four bytes in their order |
| HashStandard.XorByteIs | libraries/hmac_and_pbkdf/hmac_and_pbkdf.h:216-226 | states are added without carry |
| Endian.BigAt | libraries/hmac_and_pbkdf/hmac_and_pbkdf.h:11-31 | the byte at each place of a big-endian counter |
| Sha256Stream.Context.Put | libraries/sha256/sha256.c:103-111 | one more byte: the context stands for the message with this byte |
| Sha256Stream.Context.Update | libraries/sha256/sha256.c:99-112 | the context stands for the message with the input appended, however it was split |
| Sha256Stream.Context.Final | libraries/sha256/sha256.c:114-158 | the digest is the compression function folded over the padded whole message |
| Sha512Stream.CountMore | libraries/sha512/sha512.c:253-255 | the two-word byte counter with its carry test counts modulo 2^128 |
| Sha512Stream.LengthWords | libraries/sha512/sha512.c:291-292 | the shifted words are the length in bits |
| Sha512Stream.Context.Update | libraries/sha512/sha512.c:243-272 | completing the buffer, compressing straight from the input and keeping the rest appends the input to the message |
| Sha512Stream.Context.Finish | libraries/sha512/sha512.c:285-311 | the digest is the compression function folded over the padded whole message |
| ShaWords.Sha256Sound | libraries/hmac_and_pbkdf/hmac_and_pbkdf.h:192-238 | SHA-256 meets every law that HMAC and PBKDF2 need, whatever its compression function |
| ShaWords.Sha512Sound | libraries/hmac_and_pbkdf/hmac_and_pbkdf.h:240-286 | and so does SHA-512 |
| Hmac.CloseFeed | libraries/hmac_and_pbkdf/hmac_and_pbkdf.h:60-66 | a context value that has taken in a message closes with the hash of the message |
| Hmac.ReachedIsFed | libraries/hmac_and_pbkdf/hmac_and_pbkdf.h:60-66 | the contexts of both streaming hash functions are such values |
| Hmac.KeyedAuthenticates | libraries/hmac_and_pbkdf/hmac_and_pbkdf.h:68-121 | whatever text follows, the keyed contexts produce the code of RFC 2104 |
| Hmac.Init | libraries/hmac_and_pbkdf/hmac_and_pbkdf.h:68-107 | short, full and over-long keys lead to contexts that authenticate with the keyed function |
| Hmac.Update | libraries/hmac_and_pbkdf/hmac_and_pbkdf.h:109-113 | the text is appended |
| Hmac.Final | libraries/hmac_and_pbkdf/hmac_and_pbkdf.h:115-121 | the digest of the outer context, whose state is left for the caller |
| Pbkdf2.MdPad | libraries/hmac_and_pbkdf/hmac_and_pbkdf.h:44-51 | marker, zeros and length behind the bytes in use, which are kept |
| Pbkdf2.MidstateFinishes | libraries/hmac_and_pbkdf/hmac_and_pbkdf.h:131-164 | compressing a digest with its ready-made padding into the midstate of a key block is the hash of key block and digest |
| Pbkdf2.KeyedServes | libraries/hmac_and_pbkdf/hmac_and_pbkdf.h:125-165 | the two raw compressions are one HMAC, on every digest |
| Pbkdf2.Round | libraries/hmac_and_pbkdf/hmac_and_pbkdf.h:149-164 | one turn of the loop leaves the block ready for the next |
| Pbkdf2.Iterate | libraries/hmac_and_pbkdf/hmac_and_pbkdf.h:149-164 | the result is the sum of all iterations |
| Pbkdf2.BlockOf | libraries/hmac_and_pbkdf/hmac_and_pbkdf.h:125-165 | the block F of RFC 8018 |
| Pbkdf2.Derive | libraries/hmac_and_pbkdf/hmac_and_pbkdf.h:167-190 | what is written is the concatenation of the blocks, cut to the output; the rest is left alone |
| Pbkdf2.WrittenAll | libraries/hmac_and_pbkdf/hmac_and_pbkdf.h:167-190 | the output is written to its end exactly if its length, rounded up, stays within 32 bits |
| Pbkdf2.DerivesKey | libraries/hmac_and_pbkdf/hmac_and_pbkdf.h:167-190 | then it is the derived key of RFC 8018 |
| DerivedBytes.MacBytes | libraries/hmac_and_pbkdf/hmac_and_pbkdf.h:68-121 | the code is the hash behind the key masked with 0x5c of the hash of the text behind the key masked with 0x36, byte by byte, a long key being its hash |
| DerivedBytes.OutputByte | libraries/hmac_and_pbkdf/hmac_and_pbkdf.h:125-190 | every byte of block k of the output is the sum over the iterates that begin with the code of the salt and k + 1 |
| DerivedBytes.FirstIteration | libraries/hmac_and_pbkdf/hmac_and_pbkdf.h:125-190 | with one iteration the block is the code of the salt and k + 1 |
| DerivedBytes.BehindOutput | libraries/hmac_and_pbkdf/hmac_and_pbkdf.h:178-189 | bytes behind the last block keep what they were |
| BlockCipher.DecipheredCiphered | libraries/aes/aes.c:410-458 | deciphering undoes ciphering for any round keys and any number of rounds |
| BlockCipher.UnchainChain | libraries/aes/aes.c:498-527 | what was chained is recovered, for any vector and any number of blocks |
| AesTables.SboxInverse | libraries/aes/aes.c:80-116 | the second table inverts the first |
| AesField.AllRecovered | libraries/aes/aes.c:306-366 | unmixing recovers every column, for any linear doubling |
| AesField.AesLawful | libraries/aes/aes.c:300-366 | the library's tables and byte arithmetic satisfy every law the cipher needs |
| AesSubstitution.SboxIsAffineInverse | libraries/aes/aes.c:80-98 | every entry of the table is the affine image of the inverse of its place in the field |
| AesSubstitution.DoublingReduces | libraries/aes/aes.c:300-303 | doubling reduces by x^8 + x^4 + x^3 + x + 1 |
| AesSubstitution.MixedByConstants | libraries/aes/aes.c:306-319 | each byte of a mixed column is twice its own, three times the next and once the other two |
| AesSubstitution.RconDoubles | libraries/aes/aes.c:117-120 | the round constants are doublings of 1 |
| AesSubstitution.LibraryUsable | libraries/aes/aes.c:80-120 | with the library's tables and constants messages come back |
| AesStandard.SubstitutedByte | libraries/aes/aes.c:257-267 | every byte of the block is substituted where it stands |
| AesStandard.AddedByte | libraries/aes/aes.c:243-253 | every byte of the block has that byte of the round key added |
| AesStandard.ShiftedByte | libraries/aes/aes.c:272-298 | byte 4c + r of the shifted block is byte 4((c + r) % 4) + r of the block |
| AesStandard.CipherRounds | libraries/aes/aes.c:410-433 | a key addition, thirteen full rounds and a last one without mixing, with the round keys in order |
| AesStandard.ChainBlock | libraries/aes/aes.c:498-512 | each block is added to the enciphered one before it, the first to the vector, and enciphered |
| AesInPlace.AddRoundKey | libraries/aes/aes.c:243-253 | the block and nothing else has the round key added |
| AesInPlace.SubBytes | libraries/aes/aes.c:257-267 | the block and nothing else is substituted |
| AesInPlace.ShiftRows | libraries/aes/aes.c:272-298 | row j of the block moves j columns to the left |
| AesInPlace.MixColumns | libraries/aes/aes.c:306-321 | every column is the matrix product of FIPS 197, although its bytes are rewritten one by one |
| AesInPlace.InvMixColumns | libraries/aes/aes.c:347-363 | every column is the inverse product |
| AesInPlace.InvSubBytes | libraries/aes/aes.c:368-378 | the block and nothing else is substituted back |
| AesInPlace.InvShiftRows | libraries/aes/aes.c:380-406 | row j of the block moves j columns to the right |
| AesInPlace.Cipher | libraries/aes/aes.c:410-433 | the block and nothing else is ciphered |
| AesInPlace.InvCipher | libraries/aes/aes.c:435-458 | the block and nothing else is deciphered |
| AesCbc.XorWithIv | libraries/aes/aes.c:489-496 | the vector is added, also when it stands in the same buffer |
| AesCbc.EncryptBuffer | libraries/aes/aes.c:498-512 | the buffer is chained, with the vector aliasing the block before, and the context keeps the last block |
| AesCbc.DecryptBuffer | libraries/aes/aes.c:514-527 | the buffer is unchained |
| AesMessage.KeyExpansion | libraries/aes/aes.c:152-223 | the round keys are the words of the key schedule |
| AesStandard.ScheduleKey | libraries/aes/aes.c:152-164 | the 240 bytes begin with the key |
| AesStandard.ScheduleTurned | libraries/aes/aes.c:166-223 | at the multiples of eight a word is the one eight words before, added to the last one, turned by a byte, substituted and with the round constant |
| AesStandard.ScheduleStraight | libraries/aes/aes.c:166-223 | the last word is substituted halfway between, and taken as it is elsewhere |
| AesStandard.RoundKeyBytes | libraries/aes/aes.c:243-253 | sixteen bytes of the schedule after the other are the round keys |
| AesMessage.PadData16 | code/BTCUtil.c:1406-1416 | the padded message |
| AesMessage.UnpaddedPadded | code/BTCUtil.c:1406-1429 | removing the padding undoes it |
| AesStandard.PaddedBytes | code/BTCUtil.c:1406-1416 | one to sixteen bytes, each their number, complete the last block |
| AesStandard.NoncePlaces | code/BTCUtil.c:1446-1446 | the bytes of the nonce, least significant first |
| AesStandard.EncryptedBlocks | code/BTCUtil.c:1431-1463 | block by block, the ciphertext is the padded message chained from the first half of the hash of the nonce under the expanded key |
| AesMessage.DecryptEncrypted | code/BTCUtil.c:1431-1493 | every message comes back from its encryption under the same 32-byte key and nonce |
| AesMessage.AesUsable | libraries/aes/aes.c:80-458 | the library's cipher is one for which this holds, whatever the round constants and SHA-256 are |
| AesMessage.EncryptAES | code/BTCUtil.c:1431-1463 | padding, key expansion and in-place chaining give the encryption, or nothing for a key of another length |
| AesMessage.DecryptAES | code/BTCUtil.c:1465-1493 | in-place unchaining and removal of the padding give the decryption |
| Base58.DecodeAfterEncode | libraries/base58/base58.cpp:31-118 | every byte string comes back from its encoding |
| Base58.EncodeAfterDecode | libraries/base58/base58.cpp:31-118 | every string over the alphabet is the encoding of what it decodes to |
| Base58Standard.CharInAlphabet | libraries/base58/base58.cpp:11 | the digit characters, in the order of the alphabet |
| Base58Standard.EncodedNumber | libraries/base58/base58.cpp:80-118 | a leading 1 for each leading zero byte, and the characters write the number that the bytes write |
| Base58Standard.WordDecoded | libraries/base58/base58.cpp:31-78 | white space around a word does not matter, and a word is decoded exactly if all its characters are in the alphabet |
| Base58Standard.TwoWordsRefused | libraries/base58/base58.cpp:63-67 | two words are refused |
| Base58.EncodeBuffer | libraries/base58/base58.cpp:89-92 | 138/100 digits per byte, plus one, always suffice |
| Base58.DecodeBuffer | libraries/base58/base58.cpp:42-44 | 733/1000 bytes per digit, plus one, always suffice |
| Base58.NoCarry | libraries/base58/base58.cpp:53-104 | with such a buffer no carry is left over, so the assertions hold |
| Base58.MulAdd | libraries/base58/base58.cpp:53-104 | digits times base plus digit, in place, with an early stop that loses nothing |
| Base58.TakeIn | libraries/base58/base58.cpp:46-106 | one more digit of the input enters the buffer |
| Base58.EncodeBase58 | libraries/base58/base58.cpp:80-118 | computes the encoding |
| Base58.DecodeBase58 | libraries/base58/base58.cpp:31-78 | computes the decoding, or refuses; spaces around the word are passed over |
| FeedbackRegister.BurstSeparates | libraries/segwit_addr/segwit_addr.c:27-35 | symbol strings that differ only within six neighbouring places leave different registers |
| FeedbackRegister.SixCloses | libraries/segwit_addr/segwit_addr.c:75-81 | six symbols chosen as the encoder chooses them bring the register to any target |
| Polymod.WordsImplement | libraries/segwit_addr/segwit_addr.c:27-35 | the 32-bit expression is one advance of a linear feedback register over five-bit groups |
| Bech32Standard.Coefficients | libraries/segwit_addr/segwit_addr.c:27-35 | the coefficients of the generator of BIP 173 |
| Bech32Standard.FieldMultiples | libraries/segwit_addr/segwit_addr.c:27-35 | what leaves the register contributes its multiples by these coefficients in the field of 32 elements |
| Bech32Standard.CharInAlphabet | libraries/segwit_addr/segwit_addr.c:37 | the symbols, in the order of the alphabet |
| Bech32Standard.RankInAlphabet | libraries/segwit_addr/segwit_addr.c:39-48 | a character is a symbol exactly if it is in the alphabet, in either case |
| Polymod.ChecksumCloses | libraries/segwit_addr/segwit_addr.c:75-81 | whatever the register holds, the checksum brings it to 1 |
| Polymod.WindowDetected | libraries/segwit_addr/segwit_addr.c:27-35 | no two strings that differ within a window of six end in the same register |
| Bech32.DecodeEncoded | libraries/segwit_addr/segwit_addr.c:50-141 | decoding an encoding gives back both parts, except for an empty human-readable part |
| Bech32.DecodeUppered | libraries/segwit_addr/segwit_addr.c:86-141 | and so does decoding its upper-case form |
| Bech32Standard.StringPlaces | libraries/segwit_addr/segwit_addr.c:50-84 | human-readable part, a 1, data and six characters that leave 1 in the register fed with high bits, a zero, low bits, data and themselves |
| Bech32.EncodeDecoded | libraries/segwit_addr/segwit_addr.c:50-141 | whatever is accepted is, in lower or upper case, the encoding of what it decodes to |
| Bech32.ChecksumUnique | libraries/segwit_addr/segwit_addr.c:86-141 | only one checksum is accepted |
| Bech32.BurstRefused | libraries/segwit_addr/segwit_addr.c:86-141 | an accepted string changed in value within six neighbouring symbols, at any position and length, is refused |
| Bech32Codec.Encode | libraries/segwit_addr/segwit_addr.c:50-84 | succeeds exactly on five-bit data and a printable part without upper case within the length limit, and computes the encoding |
| Bech32Codec.FindSeparator | libraries/segwit_addr/segwit_addr.c:96-99 | finds the last separator, or none |
| Bech32Codec.ReadParts | libraries/segwit_addr/segwit_addr.c:100-141 | one pass over both parts decides charset, case and checksum |
| Bech32Codec.Decode | libraries/segwit_addr/segwit_addr.c:86-141 | computes the decoding |
| ConvertBits.CutIsChunks | libraries/segwit_addr/segwit_addr.c:143-163 | there is only one way to cut bits into groups and a remainder |
| BitPlaces.GroupBit | libraries/segwit_addr/segwit_addr.c:147-154 | bit k of number i is bit w i + k of the bytes, counted from the most significant one |
| BitPlaces.CoveringBit | libraries/segwit_addr/segwit_addr.c:143-163 | the same with zeros behind the last byte |
| ConvertBits.Regroup | libraries/segwit_addr/segwit_addr.c:147-154 | groups and accumulator always hold exactly the bits read, although the accumulator wraps at 32 bits |
| ConvertBits.RegroupPadded | libraries/segwit_addr/segwit_addr.c:143-163 | the groups that cover the bits, padded with zeros |
| ConvertBits.RegroupExact | libraries/segwit_addr/segwit_addr.c:143-163 | accepts exactly if what is left over is zero and shorter than an input group |
| ConvertBits.RegroupRoundTrip | libraries/segwit_addr/segwit_addr.c:143-163 | to smaller groups with padding and back without is the identity |
| ConvertBits.RegroupBack | libraries/segwit_addr/segwit_addr.c:143-163 | and so is the other way round wherever it succeeds |
| SegwitAddress.AddressRoundTrip | libraries/segwit_addr/segwit_addr.c:165-191 | every encoded address decodes to the same human-readable part, version and program, also in upper case |
| SegwitAddress.EncoderDomain | libraries/segwit_addr/segwit_addr.c:165-175 | the encoder succeeds exactly on permitted programs, printable parts without upper case and at most 90 characters |
| Bech32Standard.AddressAccepted | libraries/segwit_addr/segwit_addr.c:165-175 | the same domain in numbers: versions up to 16, 2 to 40 bytes, 20 or 32 for version 0, characters 33 to 126 |
| Bech32Standard.AddressFront | libraries/segwit_addr/segwit_addr.c:165-175 | human-readable part, a 1 and the character of the version |
| Bech32Standard.AddressSymbol | libraries/segwit_addr/segwit_addr.c:165-175 | symbol i has bits 5i to 5i + 4 of the program, the first one on top |
| SegwitAddress.AddressReencodes | libraries/segwit_addr/segwit_addr.c:165-191 | whatever decodes as an address is, up to case, the encoding of what it decodes to |
| SegwitAddress.Encode | libraries/segwit_addr/segwit_addr.c:165-175 | computes the address |
| SegwitAddress.Decode | libraries/segwit_addr/segwit_addr.c:177-191 | computes what an address stands for |
| Script.ScriptToTokens | code/BTCUtil.c:2323-2369 | the tokens of a script, with cut-short pushes as null data |
| Script.TokensPush | code/BTCUtil.c:68-113 | a push of anything but the empty string is read back as one token |
| Script.CutPush | code/BTCUtil.c:2336-2369 | a push that announces more than is left is the last token, without data |
| VaultBytes.PushIsPushed | code/BTCUtil.c:90-113 | up to 75 bytes stand behind their number, more behind an opcode and a number of one, two or four bytes |
| Script.TokensOfVault | code/BTCUtil.c:1618-1644 | the tokeniser undoes the vault script builder |
| ScriptKeys.AllPubKeys | code/BTCUtil.c:1509-1537 | the keys of a script, later checks first |
| ScriptKeys.AllCheckSigs | code/BTCUtil.c:1539-1593 | the checks of a script with their quorums and keys, later ones first |
| ScriptKeys.KeysOfVault | code/BTCUtil.c:1509-1537 | the keys of a vault are its members in script order, then the master |
| ScriptKeys.ChecksOfVault | code/BTCUtil.c:1539-1593 | its checks are the members' multisig check, then the master's single one |
| Signatures.OnePass | code/Transaction.c:787-795 | the inner loop with removal in place takes a signature and passes over the next |
| Signatures.PassesConserve | code/Transaction.c:783-796 | signatures are neither lost nor made up, whatever verifies |
| Signatures.PassIffScattered | code/Transaction.c:787-795 | a pass takes all that verifies and leaves the rest exactly if no two neighbours verify under the key |
| Signatures.NeighbourLeft | code/Transaction.c:787-795 | of two neighbours that verify under one key the second is left over |
| Signatures.PassesInOrder | code/Transaction.c:783-796 | with one signature per key and one key per signature, the signatures come out in key order |
| Signatures.PassesTakeAll | code/Transaction.c:783-796 | and none is left over |
| Finalize.SortSignatures | code/Transaction.c:763-808 | the sorted stack and 1 if every signature found its key, else the stack as it was and 0 |
| Finalize.SortedStackPermutes | code/Transaction.c:763-808 | whatever verifies, a stack is left as it is or rearranged |
| Finalize.CorrectStack | code/Transaction.c:866-909 | one empty element in front of the signatures of each multisig check, if their number is the one needed |
| Finalize.FinalizeStack | code/Transaction.c:1437-1444 | sorting, then correcting; the script stays last, and the result is 1 exactly if every signature found its key |
| Finalize.FinalizeConserves | code/Transaction.c:740-909 | whatever verifies, finalising rearranges the signatures and adds nothing but the empty elements |
| Finalize.ValidateSignature | code/Transaction.c:1238-1327 | accepts exactly if the key-hash signature verifies or every check of the script is met |
| Vault.VaultScript | code/BTCUtil.c:1618-1644 | the script over the member keys in sorted order |
| VaultBytes.ScriptBytes | code/BTCUtil.c:1618-1644 | master push, ad, 50 + m, the pushes of the sorted members, 50 + n and ae, where m is the largest number of at most two thirds of n, and 1 at least |
| VaultBytes.AcceptedByTwoThirds | code/Transaction.c:1238-1327 | acceptance of a vault stack asks for exactly that many pairs |
| VaultBytes.MembersFollowKeys | code/Transaction.c:783-796 | of two member signatures in a finalised stack the earlier one verifies under the earlier key of the script |
| Vault.ScriptOrderFree | code/BTCUtil.c:1618-1644 | the order in which member keys are given does not matter |
| Vault.VaultFinalises | code/Transaction.c:1437-1444 | from a quorum of member signatures and a master signature in any order, finalising succeeds and makes the empty element, the member signatures in script key order, the master signature and the script, and the validator accepts |
| Vault.VaultAcceptedIff | code/Transaction.c:1238-1327 | any vault stack is accepted exactly if an element verifies under the master key and the verifying pairs of member key and element are as many as the quorum, or it is a single key-hash signature |
| Vault.RepeatedSignatureAccepted | code/Transaction.c:1309-1321 | one member of three whose signature is given twice makes the quorum of two |
| Vault.MultisigRefused | code/Transaction.c:1285-1296 | for any keys, signatures and verification, a script that begins with its quorum is not accepted for its signatures |
| Wire.VarIntRoundTrip | code/BTCUtil.c:1829-1854 | an integer is read back exactly if it is not 253, 254 or 255 |
| Endian.VarIntBytes | code/BTCUtil.c:1829-1854 | one, three, five or nine bytes, with the prefixes 253, 254 and 255 and a little-endian number |
| Endian.LittleAt | code/BTCUtil.c:1829-1854 | the byte at each place of a little-endian field |
| Endian.CompactSizeBytes | code/BTCUtil.c:1829-1854 | the integer of the protocol differs at 253, 254 and 255 only |
| Fields.AheadZero | code/BTCUtil.c:52-66 | a reader that is ahead and still finds every field as written is reading nothing but zeros |
| Fields.MatchesIffClear | code/BTCUtil.c:1829-1854 | a record is read back exactly if none of its counts is ambiguous |
| TransactionRoundTrip.RoundTripIff | code/Transaction.c:87-195 | a transaction is recovered from its serialisation, witness stacks included, exactly if no count or length is 253..255 and it has an input or no output |
| TransactionRoundTrip.MarkOfBody | code/Transaction.c:96-99 | a body without marker looks like one with it exactly if there are outputs but no inputs |
| TransactionRoundTrip.StrippedIsErased | code/Transaction.c:1535-1560 | the serialisation without witnesses is that of the transaction with its witnesses erased |
| TransactionIO.TransactionData | code/Transaction.c:277-317 | the serialisation with witnesses |
| TransactionIO.TransactionTx | code/Transaction.c:1535-1560 | the serialisation without |
| TransactionLayout.StrippedLayout | code/Transaction.c:1535-1560 | version, inputs behind their number (outpoint, index, script behind its length, sequence), outputs behind theirs (value, script behind its length) and lock time, at their offsets |
| TransactionLayout.WitnessLayout | code/Transaction.c:277-317 | with a witness, 00 01 behind the version and each input's stack, counted and with its items behind their lengths, before the lock time; without one no difference |
| TransactionIO.TransactionNew | code/Transaction.c:87-195 | the parser over a shared cursor computes the parse, aborts included |
| Framing.StepStable | code/Node.c:397-468 | what was decided about the front of the stream is not changed by what arrives later |
| Framing.ParseAppend | code/Node.c:397-468 | parsing in two pieces, keeping the undecided rest, is parsing the whole |
| Framing.ChunkingIrrelevant | code/Node.c:397-468 | what has been delivered depends on the bytes, not on how they were split or where the step limit cut a call |
| Framing.ParseFrames | code/Node.c:542-592 | parsing frames one after the other delivers exactly the messages sent, in order |
| Resync.FrameBytes | code/Node.c:542-592 | magic number, command filled up with zeros, length, checksum and payload of a frame |
| Resync.JunkPassedOver | code/Node.c:421-433 | bytes in which no magic number begins cost nothing that follows them |
| Resync.FrameFound | code/Node.c:397-468 | a frame behind such bytes is delivered |
| Resync.WrongChecksumDropped | code/Node.c:450-456 | a frame with a wrong checksum is dropped as a whole and nothing else with it |
| Resync.RightChecksumDelivered | code/Node.c:435-458 | a complete frame with the right one is delivered under its command |
| Resync.CommandEnds | code/Node.c:444-448 | the command ends at the first zero of its field |
| Node.Connection.ProcessInputBuffer | code/Node.c:397-468 | delivered messages and buffer always account for the whole stream; a call either decides everything or has taken a thousand steps |
| Node.Connection.Read | code/Node.c:293-313 | the chunk enters the stream, and messages already delivered stay delivered |
| Node.Connection.ProcessVersionAndOutputBuffer | code/Node.c:470-540 | under any partial sends, wire and buffers stay whole frames in order, and the wire only grows |
| Node.Connection.Send | code/Node.c:542-592 | the version goes to its own buffer, the acknowledgement to the front, everything else to the end; a command over 12 bytes is dropped |
| Node.WireIsPrefix | code/Node.c:470-592 | in every reachable state the wire carries a prefix of version, acknowledgement and the other frames, and nothing beyond the version until the acknowledgement is queued |
| Node.PeerReceivesInOrder | code/Node.c:470-592 | a peer that parses the wire has received the first of these messages, in order |
| SecondAck.SecondAckWholeIff | code/Node.c:572-579 | with a second acknowledgement in front of the buffer, the peer gets the queue with it exactly if no frame is partly sent |
| HdWallet.TweakCommutes | code/BTCUtil.c:1362-1404 | adding a non-zero tweak commutes with passing to public keys, failures included |
| HdWallet.ZeroTweak | code/BTCUtil.c:1362-1404 | a zero tweak keeps the private key and fails on the public side |
| HdWallet.ChildCommutesIff | code/BTCUtil.c:905-986 | wherever the search of the private wallet ends, the child of the public wallet is the public wallet of the child exactly if that index is reached without wrapping, is not hardened and has a tweak that is not zero |
| HdWallet.LookFrom | code/BTCUtil.c:905-986 | any number of tries beyond the index reached gives the same child, also around the highest index |
| HdWallet.EnoughTries | code/BTCUtil.c:905-986 | a search that ends at all has ended once every index was looked at |
| HdWallet.DecodedEncoded | code/BTCUtil.c:820-875 | the fields of a wallet are read back from its 82 bytes |
| HdPath.PathCommutes | code/BTCUtil.c:806-818 | along any path whose steps land on normal indices with tweaks that are not zero, both ways end in the same wallet |
| HdPath.HdWalletAt | code/BTCUtil.c:806-818 | the loop over the indices, on any bytes; a null wallet stays null |
| HdPath.PathBytesCommute | code/BTCUtil.c:693-986 | for every private wallet of 82 bytes and every such path, the bytes of the public wallet of the descendant are those of the descendant of the public wallet |
| HdPath.PathReturns | code/BTCUtil.c:806-818 | on such a path the library returns, from both wallets |
| HdWallet.PublicHdWallet | code/BTCUtil.c:693-745 | the bytes of the public wallet, patched in place; null for anything that is no wallet, and a public wallet as it is |
| HdWallet.ChildKeyDerivation | code/BTCUtil.c:905-986 | the 82 bytes of the child: depth, fingerprint, index, chain code, key and checksum; indices without a key are passed over |
| HdBytes.PrivateChild | code/BTCUtil.c:905-986 | the 82 bytes of a private child, place by place: the left half of the hash is added to the key, the right half is the chain code; without a key the search goes on to the next index |
| HdBytes.PublicChild | code/BTCUtil.c:957-986 | the 82 bytes of a public child: the point of the left half is added to the key; a hardened index has none |
| HdBytes.PublicPlaces | code/BTCUtil.c:693-745 | the 82 bytes of a public wallet: version exchanged, key replaced, checksum renewed, all else kept |
| DataOrder.CompareIsLexIff | code/Data.c:801-809 | the comparison has the sign of the dictionary order exactly if the common front decides or the difference of the lengths keeps its sign in 32 bits |
| DataOrder.CompareIsLex | code/Data.c:801-809 | so it has for all keys below 2 GiB |
| DataOrder.EmptyKeyMisplaced | code/Data.c:801-809 | the empty key compares as greater than any of 2^31 + 1 bytes |
| DataOrder.LexTotal | code/Data.c:801-809 | the order is antisymmetric, and zero only for equal strings |
| DataOrder.FirstDifference | code/Data.c:801-809 | the first difference decides, and a string comes after its beginnings |
| DataOrder.LexTransitive | code/Data.c:801-809 | and transitive |
| DataOrder.SortAscends | code/Data.c:1067-1079 | sorting puts keys in order and keeps them |
| DataOrder.AscendingUnique | code/Data.c:1067-1079 | there is only one way to do so |
| Dictionary.Search | code/Data.c:1081-1105 | whichever entries the binary search probes, it finds the key, or the last probe gives the slot with everything smaller before it and everything greater behind |
| Dictionary.Dict.Add | code/Data.c:1352-1392 | the map with the key set; keys stay strictly sorted |
| Dictionary.Dict.Remove | code/Data.c:1326-1350 | the map without the key; keys stay strictly sorted |
| Dictionary.Dict.Get | code/Data.c:1399-1426 | agrees with the map |
| Dictionary.DeserializeSerialized | code/Data.c:828-865 | a serialised list is read back |
| Dictionary.SerializedParts | code/Data.c:828-839 | every element stands behind its length in four little-endian bytes |
| Dictionary.ListedAt | code/Data.c:1451-1462 | keys and values in turn |
| Dictionary.DatasDeserialize | code/Data.c:841-865 | the reading loop stops at the first incomplete element |
| Dictionary.DictionaryRoundTrip | code/Data.c:1451-1481 | a serialised dictionary is read back entry by entry, so in the same order and with the same map |
| MnemonicBits.GetBits | libraries/mnemonic/wordlist.c:16-23 | the logarithm of the list length, rounded down |
| MnemonicBits.ExtractIndex | libraries/mnemonic/mnemonic.c:15-21 | the n-th number of any width in the bits of the buffer |
| MnemonicBits.StoreIndex | libraries/mnemonic/mnemonic.c:27-33 | the bits of the n-th number are set, and no others |
| Mnemonic.Tokenise | libraries/mnemonic/wordlist.c:44-66 | the words between single spaces |
| Mnemonic.SplitJoin | libraries/mnemonic/wordlist.c:44-66 | splitting undoes joining |
| Mnemonic.IsSorted | libraries/mnemonic/wordlist.c:68-71 | tells whether the whole list is in order |
| Mnemonic.LookupWord | libraries/mnemonic/wordlist.c:76-90 | halving a sorted list and searching any list both find a word exactly if it is there |
| Mnemonic.ChecksumExact | code/BTCUtil.c:1980-2000 | for every standard length the checksum ends with the last word, and only zero bits follow |
| MnemonicStandard.ChecksumBits | code/BTCUtil.c:1966-2000 | up to 32 bytes of entropy are followed by the leading bits of their hash, one for four bytes, and zeros |
| MnemonicStandard.LongChecksumBits | code/BTCUtil.c:1966-2000 | longer ones by its first byte and then by the leading bits of that byte again, all set if the first one is |
| MnemonicStandard.SentenceBits | libraries/mnemonic/mnemonic.c:35-66 | word i is the one of the list whose number has bits 11i to 11i + 10 |
| MnemonicStandard.JoinSpaces | libraries/mnemonic/mnemonic.c:54-62 | single spaces between the words |
| Mnemonic.StoredIndices | libraries/mnemonic/mnemonic.c:35-103 | storing the word numbers of entropy and checksum gives these bytes back |
| Mnemonic.MnemonicFromBytes | libraries/mnemonic/mnemonic.c:35-66 | the words of the numbers in the bits, joined |
| Mnemonic.StoreWords | libraries/mnemonic/mnemonic.c:68-103 | the buffer holds the numbers of all words and zeros behind them, unless a word is unknown |
| Mnemonic.MnemonicRoundTrip | code/BTCUtil.c:1980-2025 | every entropy of 16 to 40 bytes in steps of 4 has a sentence, which is long enough to be read, and comes back from it |
| Mnemonic.FromMnemonic | code/BTCUtil.c:2002-2025 | what it accepts is the sentence of what it returns, it returns the entropy of every sentence of a standard length, and it refuses unknown words |
| GapScan.UseBounded | code/TransactionTracker.c:349-402 | if addresses share no keys, finitely many transactions use finitely many addresses |
| GapScan.TouchesIs | code/TransactionTracker.c:349-383 | a transaction touches an address by the pushes of its inputs, of the outputs they spend or of its outputs, and pays it by its outputs alone |
| GapScan.LastReachIsFirstQuiet | code/TransactionTracker.c:212-230 | the last address within reach of zero by steps of at most nine is the first, used or zero, with nine unused ones behind it |
| GapScan.LastUsedAddress | code/TransactionTracker.c:212-230 | for finitely many used addresses terminates with the last one within reach, so that the used ones up to it are exactly those within reach; -1 for an unknown wallet |
| GapScan.AllTransactionsFor | code/TransactionTracker.c:496-529 | for finitely many used addresses terminates with exactly the transactions that touch an address within reach, each once, and the keys of every address up to nine behind the last |
| GapScan.UnusedWallet | code/TransactionTracker.c:570-600 | for finitely many used addresses never fails: the least i such that no output pays i - n..i, for n modulo ten |
| GapScan.SeenIffClose | code/TransactionTracker.c:496-529 | a payment that touches no lower address brings its address within reach exactly if it is less than ten places behind the last one within reach |
| GapScan.PaymentSeenIff | code/TransactionTracker.c:496-600 | a payment to the address handed out is seen for n up to 8; for n = 9 exactly if the address is that close, which with nothing used in between means that it is number 9 |
| GapScan.TenthUnseenExample | code/TransactionTracker.c:570-600 | with address 0 used, address 10 is handed out for n = 9, and a payment to it is out of reach |

## Left out

- Storage and orchestration (`code/Database.c`, `code/BasicStorage.c`, `code/NodeManager.c`, `code/KeyManager.c`, `code/Notifications.c`, `code/Webserver.c`, `code/WorkQueue.c`) and `code/TransactionAnalyzer.c`: I/O, peer policy and bookkeeping.
- Memory pooling, ownership and threads: `Data` is a byte string, locks are not modelled.
- secp256k1, the compression functions with their initial states, RIPEMD-160, the bloom filter and strict DER checking: parameters, or not modelled. A SHA word is modelled by its bytes.
- AesMessage.KeyExpansion: the round constants are a parameter, because decryption undoes encryption whatever they are; the library's are `AesSubstitution.Rcon`.
- Closing a connection, send errors, reconnecting the same node, and the handlers of single commands; `recv` and `send` are nondeterministic partial transfers.
- Node.Connection.Send: covers runs with one own version, sent before the acknowledgement, and one acknowledgement; what a second acknowledgement does to the frames is `SecondAck.SecondAckWholeIff`. A payload beyond 32 bits is not modelled.
- Bech32Codec.Decode: a string of more than 84 characters without a separator would be copied beyond the caller's buffer and is excluded.
- MerkleBlock.MatchingTxIdsIfValidRoot: messages of 80 to 83 bytes are excluded, because the flag reader starts behind their end, and messages beyond 10 MiB, which a node never hands on.
- SegwitAddress.Decode: has the limit of Bech32Codec.Decode.
- Mnemonic.FromMnemonic: excludes sentences with so many empty words that the bytes they stand for exceed the buffer; the English word list is a parameter.
- HdWallet.ChildKeyDerivation: excludes private wallets of which no index at all has a key, because the library does not return from them.
- HdWallet.PublicHdWallet: excludes private wallets whose key has no public key, because the library copies from a null pointer.
- HdPath.HdWalletAt: paths are lists of indices; parsing of the path string is left out.
- Finalize.CorrectStack: scripts that announce a negative number of signatures are excluded, because the library would read outside the stack.
- Finalize.FinalizeStack: works on the witness stack of one input; the digest is a parameter of verification, and sorting of legacy script stacks is where the library aborts.
- Sha256Stream.Context.Update: one call takes less than 2^32 bytes, because the library's 32-bit index would never reach more.
- GapScan.AllTransactionsFor: of the dictionary of keys only the keys are modelled, and the sums of `int` indices are unbounded.
- Signing, fee estimation, transaction digests, address types other than witness programs, and scripts other than vaults and plain multisig.
