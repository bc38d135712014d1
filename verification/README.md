# Bitcore: address codec, key derivation, mnemonics and registries

A Dafny model of the algorithms at the core of the bitcore libraries, with proofs of what they promise:

- **CashAddr addresses** (`Bits`, `ShiftRegister`, `Polymod`, `GeneratorMultiples`, `Base32`, `ConvertBits`, `CashAddr`,
  `CashPrefixes`, `CashAddrProperties`, `CashAddrTexts`): the checksum computed in an 8-bit and a signed 32-bit register
  refines a linear shift register over GF(32), division by the generator polynomial of a BCH code. From that follow the
  completion of checksums, the detection of bursts of errors in up to eight symbols, the recovery of a stripped prefix and
  the round trip of addresses.
  The `ShiftRegister` theory holds for any alphabet that satisfies a few laws and any generator whose last coefficient is
  one; `Polymod` proves the laws and that the program's ten constants are the generator's multiples. `CashAddrTexts` says
  what texts are encoded to and decoded from in terms of their characters, bits and polynomial coefficients alone.
- **Wrong symbols in an address** (`Doubling`, `ExtensionField`, `FieldWords`, `FieldValues`, `SymbolField`, `Evaluation`,
  `CodeRoots`, `Codewords`, `WrongSymbols`, `FiveErrors`): the symbols lie in the field of 2^20 elements, where the
  generator has eight powers of an element z of order 1025 as its roots. The checksums of two inputs are the same exactly
  when their difference vanishes at these eight. Therefore no four wrong symbols escape, wherever they are among 1025, and
  five can.
- **Hierarchical keys** (`Bytes`, `Curve`, `HdKeys`, `Paths`, `Bip32`, `Serialization`): private and public derivation,
  skipping of invalid indexes, paths, when derivation is that of BIP 32, the 78-byte form of extended keys.
- **Taproot tweaks** (`Taproot`): the private side, the public side and the check of an output key.
- **PBKDF2** (`Pbkdf2`): the nested buffer loops against section 5.2 of RFC 8018.
- **Mnemonics** (`Mnemonic`, `MnemonicLists`): the encoder and the validator as inverses of each other, with a word list
  given or detected.
- **The Dogecoin key cache** (`HdKeyCache`, `FirstCachedKey`, `CachedDerivation`): eviction in every reachable state, and
  derivation through the cache compared with derivation without it.
- **The network registry** (`Networks`, `NetworksAgree`): the list of networks and the dictionary that indexes it.

Parts that change state are methods with loops over arrays, sequences and class fields; each is proved equal to a function of
its inputs or of the old state, and the properties are proved about these functions. Hash functions, HMAC and the
curve are parameters of which only lengths and group laws are used; `Curve.ScalarCurveLawful` exhibits a group that meets
all the laws, so that they do not contradict each other. Base58Check is a parameter that is injective and writes no slash.

For every operation one result also says what it computes without the functions that model it, from hash functions, curve
operations, bits and literal constants: `CashAddrTexts.EncodedWrittenOut` and `CashAddrTexts.DecodedWrittenOut`,
`HdKeys.Env.DeriveFields` and the CKD functions of `Bip32`, `Serialization.PrivateLayout`, `Paths.PathReadIff`,
`Taproot.Env.TweakingIsBip341`, `Pbkdf2.DeriveKey`, `Mnemonic.Env.PhraseWrittenOut`,
`MnemonicLists.Library.ListsWrittenOut`, `HdKeyCache.RunWrittenOut`, `CachedDerivation.Deriver.PrivateLooks`,
`Networks.NetworkRegistry.Get`, `NetworksAgree.VariantExpanded` and `NetworksAgree.RemovedWritten`.

`Arithmetic`, `Text` and `Wrappers` are shared.

## Where the code and its description differ

The model follows the code; of the members named with each point one says exactly when the two agree and another, where there
is one, gives an input at which they do not.

- The reserved top bit of the version byte, which the CashAddr specification wants to be zero, is ignored when decoding, a
  colon without a prefix in front of it is dropped, and the prefix is looked up among all values a network is registered
  under, so that `livenet:` with a checksum made for it is taken too. A text that decodes to a network is the one encoding
  gives exactly when its first symbol is below 16, it does not begin with a colon, and its prefix, if it has one, is the
  network's own (`CashAddrProperties.ReencodedIff`, `CashAddrProperties.ReservedBitIgnored`,
  `CashAddrProperties.LeadingColonIgnored`, `CashAddrProperties.OtherValueDecodes`, `CashAddrProperties.LivenetDecodes`).
  Under a prefix that no network is registered for a text decodes with no network (`CashAddrProperties.UnregisteredPrefix`).
- Addresses of testnet3, testnet4, scalenet and chipnet, which share the prefix of testnet, come back as addresses of
  testnet: the network returned is the address's own exactly when it is the first one registered for its prefix
  (`CashAddrProperties.RoundTrip`, `CashAddrProperties.VariantComesBack`).
- Child keys are reduced modulo the group order where BIP 32 calls an index with a left half not below the order invalid. A
  step is that of BIP 32 exactly when no index from the one asked for on yields a key or the left half at the first one that
  does is below the order (`Bip32.DeriveIsBip32Iff`, `Bip32.DerivePublicIsBip32Iff`, `Bip32.PathIsBip32Iff`,
  `Bip32.PublicPathIsBip32Iff`, `Bip32.ProgramIsNotBip32`).
- A negative index with the flag for hardening is not refused and gives a hardened child with an index below 2^31
  (`HdKeys.Env.DeriveNegative`).
- Public derivation refuses the names m' and M' of the root, which private derivation takes (`Paths.PathTextsCommute`).
- The byte in front of a serialized private key is not looked at (`Serialization.ParsedPrivateSerializesIff`,
  `Serialization.SkippedByteIgnored`).
- `createTapTweak` of a private key returns a key of zero where the public side fails: exactly when the tweak is the key,
  for an odd point, or its negative, for an even one (`Taproot.Env.SidesAgree`, `Taproot.ZeroReturned`).
- `isValid` throws instead of returning false when all words are known but their number is no multiple of three, and
  `_entropy2mnemonic` accepts some lengths beyond 1027 bytes, whose phrases are never valid (`Mnemonic.Env.IsValid`,
  `Mnemonic.Env.OneWordThrows`, `Mnemonic.Env.EncodesIff`, `Mnemonic.Env.EncodedIsValidIff`).
- Without a word list a phrase is checked against the first list that has all its words, which need not be its own
  (`MnemonicLists.Library.DetectedIsValidIff`, `MnemonicLists.SharedWords`, `MnemonicLists.DetectedAsOther`).
- In the key cache slot 0 counts as no slot, so the first key is evicted too early when it is touched again, and a `get`
  whose own hit evicts its key returns nothing (`HdKeyCache.LruInEveryStateIff`, `FirstCachedKey.CachedIff`,
  `FirstCachedKey.EmptyAnswerIff`, `FirstCachedKey.StoredAndGone`, `FirstCachedKey.CachedButNotFound`).
- A network that holds one value twice, such as `testnet`, whose name is its alias, is listed twice under it and removed
  once, so it stays in the dictionary (`NetworksAgree.RemovedAgreesIff`, `NetworksAgree.NameIsAliasStays`).

## Model

| member | source | states |
|---|---|---|
| ShiftRegister.Code.RunLinear | packages/bitcore-lib-cash/lib/address.js:797-819 | the register after a sum of two inputs from a sum of two states is the sum of the registers |
| ShiftRegister.Code.RunInjective | packages/bitcore-lib-cash/lib/address.js:797-819 | different register states stay different under the same further input, of any length |
| ShiftRegister.Code.DivisionIdentity | packages/bitcore-lib-cash/lib/address.js:797-819 | the register is the remainder of the input polynomial divided by the generator, by an explicit quotient |
| ShiftRegister.Code.RemainderUnique | packages/bitcore-lib-cash/lib/address.js:797-819 | quotient and remainder by the generator are unique |
| ShiftRegister.Code.RemainderIffMultiple | packages/bitcore-lib-cash/lib/address.js:797-819 | the register ends in a state if and only if the input less that state is a multiple of the generator |
| ShiftRegister.Code.TailSteers | packages/bitcore-lib-cash/lib/address.js:724-730 | exactly one tail of register length leads to a wanted state: the difference to what zeros lead to |
| ShiftRegister.Code.BurstSeparates | packages/bitcore-lib-cash/lib/address.js:797-819 | inputs that differ only in a window no longer than the register end in different states |
| Polymod.BchLawful | packages/bitcore-lib-cash/lib/address.js:794-831 | GF(32) arithmetic on five bits and the generator meet the laws of the shift register theory |
| Polymod.ConstantsAreGenerator | packages/bitcore-lib-cash/lib/address.js:794-795 | GENERATOR1 and GENERATOR2 are the generator polynomial times the powers 0 to 4 of the field's root, split in 8 and 32 bits |
| Polymod.Polymod | packages/bitcore-lib-cash/lib/address.js:797-831 | the two registers with 32-bit operations and the sign fix-up compute the 40-bit number of the polynomial remainder, for data of any length |
| Polymod.Combine | packages/bitcore-lib-cash/lib/address.js:820-830 | the final steps give the unsigned 40-bit number of the registers, for either sign of the lower one |
| Polymod.NumberZero | packages/bitcore-lib-cash/lib/address.js:327-338 | the number is below 2^40, and zero if and only if the checksum polynomial is zero |
| Polymod.ChecksumZeroIffMultiple | packages/bitcore-lib-cash/lib/address.js:797-831 | the checksum is zero if and only if the polynomial of 1 followed by the data, less 1, is a multiple of the generator |
| GeneratorMultiples.ZeroIffLeavesOne | packages/bitcore-lib-cash/lib/address.js:797-831 | the same with every coefficient of the product written out as nine terms with the generator's numbers |
| Polymod.ChecksumCompletes | packages/bitcore-lib-cash/lib/address.js:724-730 | eight symbols complete data to checksum zero if and only if they are the checksum of the data and eight zeros |
| Polymod.BurstDetected | packages/bitcore-lib-cash/lib/address.js:797-831 | data that differ only inside eight consecutive symbols have different checksums |
| Doubling.NonzeroIsPower | packages/bitcore-lib-cash/lib/address.js:812-819 | every symbol but zero is a power of two in that field |
| SymbolField.SymbolsAreField | packages/bitcore-lib-cash/lib/address.js:794-819 | the symbols are a field under the addition and multiplication the constants are built on: commutative, associative, distributive, and exactly zero has no inverse |
| SymbolField.EmbedTimes | packages/bitcore-lib-cash/lib/address.js:794-819 | the product of two symbols is their product in the field of 2^20 elements |
| CodeRoots.Roots | packages/bitcore-lib-cash/lib/address.js:794-795 | the generator of the constants vanishes at z, z^30 and their powers by 32, eight powers of one element of order 1025 |
| Codewords.CodewordIff | packages/bitcore-lib-cash/lib/address.js:797-819 | the register ends empty after an input of any length if and only if the input vanishes at the eight roots |
| Codewords.SameChecksumIff | packages/bitcore-lib-cash/lib/address.js:797-831 | inputs of one length have the same checksum if and only if their difference vanishes at the eight roots, whatever comes before and after |
| WrongSymbols.ConstantIff | packages/bitcore-lib-cash/lib/address.js:797-819 | the remainder of x^n is a constant if and only if n is a multiple of 1025, and is 1 then |
| WrongSymbols.TwoErrorsIff | packages/bitcore-lib-cash/lib/address.js:797-831 | data of any length that differ in two symbols have the same checksum if and only if the distance of the two is a multiple of 1025 and they differ in the same way |
| WrongSymbols.FourErrorsDetected | packages/bitcore-lib-cash/lib/address.js:797-831 | data that differ in one to four symbols, wherever they are among 1025, have different checksums |
| FiveErrors.FiveErrorsEscape | packages/bitcore-lib-cash/lib/address.js:797-831 | for any 150 symbols there are others that differ from them in five and have the same checksum, whatever comes before and after |
| Polymod.ChecksumToArray | packages/bitcore-lib-cash/lib/address.js:779-786 | with its division of real numbers the loop yields the eight five-bit digits of the number, most significant first |
| Polymod.DigitsAreChecksum | packages/bitcore-lib-cash/lib/address.js:730-730 | these digits are the coefficients of the remainder polynomial |
| Base32.Encode | packages/bitcore-lib-cash/lib/util/base32.js:33-42 | encodes numbers below 32 symbol by symbol and rejects any other number |
| Base32.Decode | packages/bitcore-lib-cash/lib/util/base32.js:49-58 | decodes strings over the alphabet and rejects any other character |
| Base32.EncodeThenDecode | packages/bitcore-lib-cash/lib/util/base32.js:33-58 | decoding undoes encoding |
| Base32.DecodeThenEncode | packages/bitcore-lib-cash/lib/util/base32.js:33-58 | encoding undoes decoding |
| ConvertBits.ConvertBits | packages/bitcore-lib-cash/lib/util/convertBits.js:37-62 | for elements of any size, seen modulo 2^32, the accumulator loop with 32-bit operations cuts the joined bits of the input anew: padded with zeros, or strict about the rest |
| ConvertBits.RegroupThereAndBack | packages/bitcore-lib-cash/lib/util/convertBits.js:37-62 | regrouping into narrower groups with padding always succeeds and strict regrouping back restores the data |
| ConvertBits.RegroupBackAndThere | packages/bitcore-lib-cash/lib/util/convertBits.js:37-62 | whatever regroups strictly is what padding regrouping of the result gives |
| CashAddr.PrefixToArray | packages/bitcore-lib-cash/lib/networks.js:66-72 | the lower five bits of every character |
| CashAddr.CheckChecksum | packages/bitcore-lib-cash/lib/address.js:327-338 | returns whether the remainder polynomial of prefix, zero and payload is zero; `CashAddrTexts.ValidIffLeavesOne` has the zero and the generator written out |
| CashAddr.ToCashAddress | packages/bitcore-lib-cash/lib/address.js:689-736 | computes the text of an address or rejects its hash size; `CashAddrTexts.EncodedWrittenOut` says which text |
| CashAddr.TryNetworks | packages/bitcore-lib-cash/lib/address.js:362-370 | finds the prefix of the first of livenet, testnet and regtest whose checksum fits |
| CashAddr.DecodeCashAddress | packages/bitcore-lib-cash/lib/address.js:316-405 | decodes an address or fails for mixed case, format, symbol, checksum, padding, hash size or type, in this order |
| CashPrefixes.DistinctRemainders | packages/bitcore-lib-cash/lib/networks.js:194-279 | reading the three registered prefixes leaves registers with different leading coefficients |
| CashPrefixes.PrefixRecovery | packages/bitcore-lib-cash/lib/address.js:358-372 | no payload is valid under two of the prefixes bitcoincash, bchtest and bchreg |
| CashAddrProperties.ValidIffChecksum | packages/bitcore-lib-cash/lib/address.js:724-730 | a payload passes the checksum under a prefix if and only if its last eight symbols are the computed ones |
| CashAddrProperties.EncodedIsValid | packages/bitcore-lib-cash/lib/address.js:724-736 | every payload that is emitted passes the checksum and converts back strictly to version byte and hash |
| CashAddrProperties.BurstDetected | packages/bitcore-lib-cash/lib/address.js:327-338 | two payloads of any length under one prefix that differ only inside eight consecutive symbols are not both valid |
| CashAddrProperties.TwoErrorsIff | packages/bitcore-lib-cash/lib/address.js:327-338 | two wrong symbols, anywhere in a valid payload of any length, leave it valid if and only if their distance is a multiple of 1025 and both are wrong in the same way |
| CashAddrProperties.TwoErrorsDetected | packages/bitcore-lib-cash/lib/address.js:327-338 | no two wrong symbols escape in a payload of at most 1025 symbols |
| CashAddrProperties.FourErrorsDetected | packages/bitcore-lib-cash/lib/address.js:327-338 | two valid payloads of one length up to 1025 that differ in at most four symbols are equal |
| CashAddrProperties.FiveErrorsEscape | packages/bitcore-lib-cash/lib/address.js:327-338 | a valid payload stays valid under some five wrong symbols inside any 150 of its symbols |
| CashAddrProperties.FourMistyped | packages/bitcore-lib-cash/lib/address.js:316-405 | two texts of the same length that decode, with the same prefix or without one to the same network, are the same text or differ in more than four characters behind the prefix, letter case aside |
| CashAddrProperties.PrefixFound | packages/bitcore-lib-cash/lib/address.js:358-372 | the search over the networks finds the prefix a payload is valid under |
| CashAddrProperties.RoundTripAnyPrefix | packages/bitcore-lib-cash/lib/address.js:316-405 | under any lower-case prefix, an address with its prefix decodes to its hash and type, in lower and in upper case |
| CashAddrProperties.RoundTrip | packages/bitcore-lib-cash/lib/address.js:316-405 | for both types, all eight hash sizes and the three registered prefixes, decoding undoes encoding, with or without the prefix, in lower and in upper case, with the first network registered for the prefix; the address itself comes back if and only if that is its network |
| CashAddrProperties.VariantComesBack | packages/bitcore-lib-cash/lib/networks.js:222-256 | addresses of testnet3, testnet4, scalenet and chipnet decode as addresses of testnet |
| CashAddrProperties.PayloadCanonical | packages/bitcore-lib-cash/lib/address.js:374-392 | a payload that is valid under a prefix and decodes encodes back to itself under that prefix if and only if its first symbol is below 16 |
| CashAddrProperties.ReservedBitIgnored | packages/bitcore-lib-cash/lib/address.js:380-389 | the address with the reserved version bit set is a different text and decodes to the same hash, type and network |
| CashAddrProperties.LeadingColonIgnored | packages/bitcore-lib-cash/lib/address.js:348-360 | an address without prefix and the same text behind a colon decode alike, and the latter is no encoding |
| CashAddrProperties.ReencodedIff | packages/bitcore-lib-cash/lib/address.js:316-405 | encoding the decoded hash, type and network gives the text in lower case if and only if its first symbol is below 16, it does not begin with a colon, and its prefix, if any, is the decoded network's |
| CashAddrProperties.OtherValueDecodes | packages/bitcore-lib-cash/lib/address.js:393-393 | a text whose checksum is made with any other value a network is registered under decodes to that network, and is not what encoding gives for it |
| CashAddrProperties.LivenetDecodes | packages/bitcore-lib-cash/lib/address.js:393-393 | such a text exists with livenet as its prefix, for every hash and type |
| CashAddrProperties.UnregisteredPrefix | packages/bitcore-lib-cash/lib/address.js:393-393 | under a prefix that is no value of a network, a valid text decodes with no network |
| CashAddrTexts.EncodedWrittenOut | packages/bitcore-lib-cash/lib/address.js:689-736 | an address is encoded to a text if and only if it is its prefix and a colon, or nothing, and letters of the alphabet for symbols that carry the version byte of type and size and the hash, five bits each, and eight more with which x^m + (c mod 32 for each character c of the prefix) + 0 + the symbols, less 1, is a multiple of the generator; otherwise prefix or hash size is at fault |
| CashAddrTexts.DecodedWrittenOut | packages/bitcore-lib-cash/lib/address.js:316-405 | a text decodes to a hash, type and network if and only if it is not of mixed case, has one colon at most, and spells such symbols behind its prefix, or without one behind one of the three default prefixes, for a version byte with either reserved bit |
| CashAddrTexts.RefusedWrittenOut | packages/bitcore-lib-cash/lib/address.js:340-377 | mixed case, a second colon, a foreign character, a checksum that is no such multiple under any candidate prefix and bits that are no whole bytes and zeros are refused, each exactly with its error, in this order |
| CashAddrTexts.SizeRefused | packages/bitcore-lib-cash/lib/address.js:374-393 | then a hash of another size than the version byte tells, then a type that is neither 0 nor 1 |
| HdKeys.Env.DeriveFindsFirst | packages/bitcore-lib/lib/hdprivatekey.js:223-275 | derivation ends at the least index, from the one asked for, whose key is not zero, hardened from 2^31 on, and fails with InvalidPath exactly if there is none below 2^32 |
| HdKeys.Env.DeriveNegative | packages/bitcore-lib/lib/hdprivatekey.js:79-84 | a negative index is refused, or with the flag for hardening counts from 2^31 down, where the first child is made like a hardened one |
| HdKeys.Env.DeriveFields | packages/bitcore-lib/lib/hdprivatekey.js:223-275 | every field of a derived key from the hash functions and the curve: chain code and key from the right and left 32 bytes of the HMAC of a zero byte and the secret, or the compressed point, and the index; the secret has 32 bytes, or in the non-compliant variant as many as it needs |
| HdKeys.Env.DerivePublicFindsFirst | packages/bitcore-lib/lib/hdpublickey.js:150-181 | public derivation refuses hardened and negative indexes, ends at the least index from the one asked for whose child is not at infinity, and fails if there is none below 2^31 |
| HdKeys.Env.DerivePublicFields | packages/bitcore-lib/lib/hdpublickey.js:158-178 | every field of a publicly derived key from the hash functions and the curve |
| HdKeys.Env.DeriveWellFormed | packages/bitcore-lib/lib/hdprivatekey.js:256-263 | a derived key is never zero and below the group order |
| HdKeys.Env.ChildCommutes | packages/bitcore-lib/lib/hdpublickey.js:158-178 | at one index the public child is the neutered private child, and both are skipped together |
| HdKeys.Env.DerivationsCommute | packages/bitcore-lib/lib/hdpublickey.js:150-181 | public derivation from the neutered key gives the neutered private child in every field, and fails exactly when private derivation leaves the indexes below 2^31 |
| HdKeys.Env.ChildDataAgrees | packages/bitcore-lib/lib/hdprivatekey.js:237-249 | the compliant and the non-compliant preimage of a hardened child agree if and only if the key is at least 2^248, and the latter is shorter otherwise |
| HdKeys.Env.LargeKeyAgrees | packages/bitcore-lib/lib/hdprivatekey.js:223-275 | from such a key both variants derive the same for every index |
| HdKeys.Env.NormalIndexAgrees | packages/bitcore-lib/lib/hdprivatekey.js:223-275 | from any key both variants derive the same as long as the index stays below 2^31 |
| Paths.ParseStepText | packages/bitcore-lib/lib/hdprivatekey.js:109-123 | a decimal step, with a quote if hardened, is read as its index |
| Paths.ParsedPath | packages/bitcore-lib/lib/hdprivatekey.js:97-126 | the text of any sequence of steps behind any of the root's four names is read as their indexes |
| Paths.PathReadIff | packages/bitcore-lib/lib/hdprivatekey.js:97-126 | a text is read as indexes if and only if slashes separate one of m, M, m' and M' and, for each index, its decimal digits, with a quote for 2^31 more |
| Paths.PathRefusedIff | packages/bitcore-lib/lib/hdprivatekey.js:277-280 | a path is refused as a whole if and only if it is no such text with all indexes below 2^32; in public derivation below 2^31, after any quote is refused |
| Paths.PathIsChain | packages/bitcore-lib/lib/hdprivatekey.js:277-288 | a path derives what the chain of its numeric steps derives, and is refused as a whole if an index is out of range |
| Paths.PathsCompose | packages/bitcore-lib/lib/hdprivatekey.js:277-288 | following a path after another is following their concatenation; with an index out of range both fail |
| Paths.PathsCommute | packages/bitcore-lib/lib/hdpublickey.js:183-197 | along any path below 2^31, deriving publicly from the neutered key is neutering the privately derived key, and works exactly if no private step leaves these indexes |
| Paths.PathTextsCommute | packages/bitcore-lib/lib/hdpublickey.js:183-197 | the same for every path given as a text, with the refusals of a quote, also in the root's name, and of an index that is too large |
| Paths.NonCompliantAgrees | packages/bitcore-lib/lib/hdprivatekey.js:187-288 | along any path on which the key is at least 2^248 at every hardened step, both variants derive the same |
| Bip32.SameChild | packages/bitcore-lib/lib/hdprivatekey.js:235-275 | at every index the child the program makes has in each field what CKDpriv, written from HMAC-SHA512, HASH160 and the curve, gives there |
| Bip32.SamePublicChild | packages/bitcore-lib/lib/hdpublickey.js:158-178 | the same for CKDpub |
| Bip32.DeriveIsBip32Iff | packages/bitcore-lib/lib/hdprivatekey.js:250-263 | private derivation, with or without the flag, is CKDpriv of BIP 32 with its skipping if and only if no index from the one asked for on yields a key or the left half at the first one that does is below n |
| Bip32.DerivePublicIsBip32Iff | packages/bitcore-lib/lib/hdpublickey.js:158-169 | the same for public derivation and CKDpub below 2^31 |
| Bip32.PathIsBip32Iff | packages/bitcore-lib/lib/hdprivatekey.js:277-288 | all keys along a path are those of BIP 32 if and only if that condition holds at every one of them |
| Bip32.PublicPathIsBip32Iff | packages/bitcore-lib/lib/hdpublickey.js:183-197 | the same along public paths |
| Bip32.PathTextIsBip32Iff | packages/bitcore-lib/lib/hdprivatekey.js:277-288 | the same for every beginning of a path given as a text |
| Bip32.PublicPathTextIsBip32Iff | packages/bitcore-lib/lib/hdpublickey.js:183-197 | the same for public paths given as texts |
| Bip32.FittingPath | packages/bitcore-lib/lib/hdprivatekey.js:277-288 | under the condition the key at the end of the path is the one BIP 32 gives |
| Bip32.TakenAndSkipped | packages/bitcore-lib/lib/hdprivatekey.js:256-263 | where the left half is not below n at an index that yields a key, and is at the next, the program takes the one and BIP 32 the other |
| Bip32.ProgramIsNotBip32 | packages/bitcore-lib/lib/hdprivatekey.js:256-263 | a hash and a key for which the program takes index 0 and BIP 32 index 1 |
| Serialization.SerializedPrivateParses | packages/bitcore-lib/lib/hdprivatekey.js:378-392 | reading the 78 bytes of a private key gives the key |
| Serialization.ParsedPrivateSerializesIff | packages/bitcore-lib/lib/hdprivatekey.js:464-468 | writing a key that was read gives the same bytes if and only if the skipped byte is zero |
| Serialization.SkippedByteIgnored | packages/bitcore-lib/lib/hdprivatekey.js:378-392 | with any other value of that byte the same key is read |
| Serialization.SerializedPublicParses | packages/bitcore-lib/lib/hdpublickey.js:290-304 | reading the 78 bytes of a public key gives the key |
| Serialization.ParsedPublicSerializesIff | packages/bitcore-lib/lib/hdpublickey.js:290-304 | writing the point that was read, with its fields, gives the same bytes if and only if the x that was read is below the size of the field |
| Serialization.PrivateIsNotPublic | packages/bitcore-lib/lib/hdpublickey.js:332-336 | no private and public key have the same bytes, whatever their versions |
| Serialization.PrivateInjective | packages/bitcore-lib/lib/hdprivatekey.js:464-468 | private keys with the same bytes are equal |
| Serialization.PublicInjective | packages/bitcore-lib/lib/hdpublickey.js:332-336 | public keys with the same bytes are equal |
| Serialization.PrivateLayout | packages/bitcore-lib/lib/hdprivatekey.js:464-468 | version, depth, fingerprint, index, chain code, a zero byte and the key stand at bytes 0, 4, 5, 9, 13, 45 and 46, numbers with the most significant byte first |
| Serialization.PublicLayout | packages/bitcore-lib/lib/hdpublickey.js:332-336 | the same with 2 or 3 for an even or odd y at byte 45 and the x coordinate behind it |
| Taproot.Env.TweakingIsBip341 | packages/bitcore-lib/lib/publickey.js:334-389 | with h the hash of the eight bytes of TapTweak and t the hash of h, h, the 32 bytes of x and the root: the private side returns the key of the even point plus t, the public side x and parity of that point plus t times the base point, and the check compares with these, all exactly when t is below n, and none for a root of another length than 32 |
| Taproot.Env.FromTaprootIsLift | packages/bitcore-lib/lib/publickey.js:306-313 | 32 bytes are read as the point with that x and an even y; other lengths and numbers without a point are refused |
| Taproot.Env.SidesAgree | packages/bitcore-lib/lib/privatekey.js:395-412 | the tweaked private key belongs to the tweaked public key, x and parity, for both parities of the point; both fail with the same error, and if the tweak is the key of an odd point or the negative of the key of an even one, the private side returns zero and the public side fails |
| Taproot.ZeroReturned | packages/bitcore-lib/lib/privatekey.js:409-411 | a hash and a key for which the private side returns zero and the public side fails |
| Taproot.Env.CheckIsExact | packages/bitcore-lib/lib/publickey.js:360-370 | the check is true if and only if the output's x is the tweaked key and the control bit is its parity, and fails with the same errors |
| Taproot.Env.TweakOfX | packages/bitcore-lib/lib/publickey.js:306-389 | tweaks depend on the x coordinate only, so the opposite point and the 32-byte form give the same |
| Taproot.Env.OutputChecks | packages/bitcore-lib/lib/publickey.js:378-389 | the tweaked key, read back from its 32 bytes, passes the check exactly with its parity |
| Pbkdf2.BytesOfIndex | packages/bitcore-mnemonic/lib/pbkdf2.js:47-50 | the signed shifts and masks give the block index in four bytes, most significant first, for every index below 2^32 |
| Pbkdf2.Block | packages/bitcore-mnemonic/lib/pbkdf2.js:47-62 | the body of the outer loop leaves T_i of RFC 8018 in T and keeps the salt in place |
| Pbkdf2.Iterate | packages/bitcore-mnemonic/lib/pbkdf2.js:56-62 | the iteration loop folds U_1 to U_c into T by exclusive or, which `Pbkdf2.DeriveKey` states bit by bit |
| Pbkdf2.DerivedIsExclusiveOr | packages/bitcore-mnemonic/lib/pbkdf2.js:42-67 | a bit of byte p of the derived key is set if and only if an odd number of the iterates of block p / 64 + 1 have it set at byte p modulo 64, the iterates being the pseudorandom function of the salt and the four index bytes, then of the iterate before |
| Pbkdf2.DeriveKey | packages/bitcore-mnemonic/lib/pbkdf2.js:36-69 | the three loops return the first dkLen bytes of T_1, T_2, ... of RFC 8018, every bit of which is the exclusive or of that bit in the iterates, for every key, salt, length within the limit and iteration count |
| Pbkdf2.Pbkdf2 | packages/bitcore-mnemonic/lib/pbkdf2.js:11-70 | the same for keys and salts given as texts or buffers; a length above (2^32 - 1) * 64, then a key, then a salt of another kind is refused |
| Pbkdf2.DerivedExtends | packages/bitcore-mnemonic/lib/pbkdf2.js:42-67 | a shorter derived key is a prefix of a longer one |
| Mnemonic.Env.EntropyChecksum | packages/bitcore-mnemonic/lib/mnemonic.js:318-333 | the number written in binary and padded with zeros gives back the hash's bits, of which the first length / 32 are returned |
| Mnemonic.Env.EntropyToWords | packages/bitcore-mnemonic/lib/mnemonic.js:287-301 | the words at the eleven-bit groups of entropy and checksum, or an error if the groups do not come out even |
| Mnemonic.Env.PhraseWrittenOut | packages/bitcore-mnemonic/lib/mnemonic.js:287-333 | for every entropy that encodes: bit t of the index of word i is bit 11i + t of the entropy followed by its hash, most significant bits first, and spaces join the words |
| Mnemonic.Env.IsValid | packages/bitcore-mnemonic/lib/mnemonic.js:122-138 | for a normalized phrase and its list: false for unknown words, an exception if the number of words is no multiple of three, otherwise whether the checksum of the packed bytes is the rest of the bits |
| Mnemonic.Env.RefusedIff | packages/bitcore-mnemonic/lib/mnemonic.js:122-138 | checking a phrase fails if and only if all its words are in the list and their number is no multiple of three; a word that is not in the list makes it not valid |
| Mnemonic.Env.OneWordThrows | packages/bitcore-mnemonic/lib/mnemonic.js:130-136 | a phrase of one known word runs into the exception |
| Mnemonic.Env.EncodesIff | packages/bitcore-mnemonic/lib/mnemonic.js:293-296 | entropy below 1028 bytes encodes if and only if its length is a multiple of four, longer entropy if and only if its length is 1 modulo 11 |
| Mnemonic.Env.EncodedInjective | packages/bitcore-mnemonic/lib/mnemonic.js:287-309 | different entropy has different phrases |
| Mnemonic.Env.EncodedPacks | packages/bitcore-mnemonic/lib/mnemonic.js:130-136 | the bytes packed from the phrase of 4m bytes are these bytes, and the rest is their checksum |
| Mnemonic.Env.EncodedIsValidIff | packages/bitcore-mnemonic/lib/mnemonic.js:114-139 | an encoded phrase is valid if and only if the entropy has 1 to 1027 bytes |
| Mnemonic.Env.ValidIsEncoded | packages/bitcore-mnemonic/lib/mnemonic.js:114-139 | a valid phrase is the encoding of the bytes it packs into |
| Mnemonic.Env.ValidIffEncoded | packages/bitcore-mnemonic/lib/mnemonic.js:114-139 | the valid phrases are exactly the encodings of 4, 8, ..., 1024 bytes |
| MnemonicLists.Library.EntropyToMnemonic | packages/bitcore-mnemonic/lib/mnemonic.js:287-309 | the words joined with the separator of their list, which is the ideographic space for Japanese |
| MnemonicLists.Library.BelongsToWordlist | packages/bitcore-mnemonic/lib/mnemonic.js:148-155 | whether all words of the normalized phrase are in a list |
| MnemonicLists.Library.GetDictionary | packages/bitcore-mnemonic/lib/mnemonic.js:163-174 | the first list that has all words of a phrase, none for the empty one |
| MnemonicLists.Library.IsValid | packages/bitcore-mnemonic/lib/mnemonic.js:114-139 | normalizes, takes the given list or the detected one, and checks the phrase; false if there is none |
| MnemonicLists.Library.ListsWrittenOut | packages/bitcore-mnemonic/lib/mnemonic.js:114-174 | phrases are joined with U+3000 for the Japanese list and spaces otherwise; a phrase is checked in its normal form against the list given or the first that has all its words, and is not valid without one |
| MnemonicLists.Library.PhraseIsValidIff | packages/bitcore-mnemonic/lib/mnemonic.js:114-139 | with its list given, the phrase of an entropy is valid if and only if the entropy has 1 to 1027 bytes, whatever the separator |
| MnemonicLists.Library.DetectedIsValidIff | packages/bitcore-mnemonic/lib/mnemonic.js:114-139 | without it, the phrase is valid if and only if it is what some entropy encodes to under the first list that has all its words |
| MnemonicLists.Library.OwnListFirst | packages/bitcore-mnemonic/lib/mnemonic.js:114-139 | so it is valid if that list is its own |
| MnemonicLists.SharedWords | packages/bitcore-mnemonic/lib/mnemonic.js:114-174 | for any two lists that share three words at different places, and some hash, the words are a phrase that is valid with its list given and refused without it when the other list is the first that has them |
| MnemonicLists.DetectedAsOther | packages/bitcore-mnemonic/lib/mnemonic.js:163-174 | there are lists, a hash and a phrase for which this happens |
| HdKeyCache.HDKeyCache.Get | packages/bitcore-lib-doge/lib/hdkeycache.js:11-18 | touches a cached key and returns what is cached under it after that, all fields as the step function says |
| HdKeyCache.HDKeyCache.Set | packages/bitcore-lib-doge/lib/hdkeycache.js:19-24 | stores a value and touches its key |
| HdKeyCache.HDKeyCache.CacheHit | packages/bitcore-lib-doge/lib/hdkeycache.js:25-33 | records a touch, with zero read as no slot, and evicts |
| HdKeyCache.HDKeyCache.CacheRemove | packages/bitcore-lib-doge/lib/hdkeycache.js:34-44 | erases slots until CACHE_SIZE are left |
| HdKeyCache.HitTracks | packages/bitcore-lib-doge/lib/hdkeycache.js:25-44 | every touch keeps the invariant that relates the four tables to the history of touches |
| HdKeyCache.Structure | packages/bitcore-lib-doge/lib/hdkeycache.js:11-44 | in every reachable state cache and index have the same keys, at most 5000, the usage list maps each index back to its key inside the window, and the cursor is at max(0, count - 5000) |
| HdKeyCache.LeastRecentlyUsed | packages/bitcore-lib-doge/lib/hdkeycache.js:11-44 | in every reachable state a key is cached if and only if one of the last 5000 touches was of it, for every key but a first key touched again within 5000 touches |
| HdKeyCache.LeastRecentlyUsedExceptFirst | packages/bitcore-lib-doge/lib/hdkeycache.js:11-44 | the same for every key other than the first one ever stored |
| HdKeyCache.LruInEveryStateIff | packages/bitcore-lib-doge/lib/hdkeycache.js:25-28 | eviction is least recently used for all keys in all states of a run if and only if the run has at most 5000 touches or the first key is not among touches 1 to 5000 |
| HdKeyCache.RunValues | packages/bitcore-lib-doge/lib/hdkeycache.js:19-24 | a cached value is the one its key was last set to |
| HdKeyCache.RunWrittenOut | packages/bitcore-lib-doge/lib/hdkeycache.js:11-44 | sets and gets of cached keys are the touches; a key other than the first is cached if and only if it is among the last 5000 touches; what is cached is what the key was last set to |
| HdKeyCache.OwnHitEvictsIff | packages/bitcore-lib-doge/lib/hdkeycache.js:14-17 | a get of a cached key returns nothing if and only if the next slot to be erased is a stale one of that key |
| FirstCachedKey.CachedIff | packages/bitcore-lib-doge/lib/hdkeycache.js:11-44 | in every reachable state exactly the keys are cached that the touches tell: a key among the last 5000 touches, and the first key while the chain of its stale slots lets it |
| FirstCachedKey.HitPhase | packages/bitcore-lib-doge/lib/hdkeycache.js:25-44 | every touch keeps the relation between the tables and the stale slot of the first key |
| FirstCachedKey.GetFinds | packages/bitcore-lib-doge/lib/hdkeycache.js:11-18 | a get returns the value last set if and only if the key is cached and is still cached after its own touch, for every key |
| FirstCachedKey.EmptyAnswerIff | packages/bitcore-lib-doge/lib/hdkeycache.js:14-17 | a get of a cached key returns nothing if and only if it is the first key and its stale slot is 5000 touches old |
| FirstCachedKey.StoredAndGone | packages/bitcore-lib-doge/lib/hdkeycache.js:25-28 | a key stored 5001 times is not cached |
| FirstCachedKey.CachedButNotFound | packages/bitcore-lib-doge/lib/hdkeycache.js:14-17 | after any 5000 touches the first key is cached and a get of it returns nothing |
| CachedDerivation.Deriver.DerivePrivateCached | packages/bitcore-lib-doge/lib/hdprivatekey.js:168-220 | derives through the cache, in the order look up, skip, store |
| CachedDerivation.Deriver.DerivePublicCached | packages/bitcore-lib-doge/lib/hdpublickey.js:154-189 | the same for public keys, sharing the cache |
| CachedDerivation.Deriver.DeriveFromStringCached | packages/bitcore-lib-doge/lib/hdprivatekey.js:222-233 | the steps of a path, each through the cache |
| CachedDerivation.Deriver.PrivateLooks | packages/bitcore-lib-doge/lib/hdprivatekey.js:168-220 | a derivation looks up the text of parent, index and hardening for one index after the other, the misses first, and either returns what the last look finds or stores the child made there under its text, and does nothing else to the cache |
| CachedDerivation.Deriver.PublicLooks | packages/bitcore-lib-doge/lib/hdpublickey.js:154-189 | the same for public keys, whose children are never hardened |
| CachedDerivation.CacheKeyInjective | packages/bitcore-lib-doge/lib/hdkeycache.js:12-13 | the key text determines the parent's text, the number and the flag |
| CachedDerivation.Deriver.PrivateTransparent | packages/bitcore-lib-doge/lib/hdprivatekey.js:168-220 | if every entry is the child its key names, the result is the uncached one and every entry still is, skipped indexes and evicting hits included |
| CachedDerivation.Deriver.PublicTransparent | packages/bitcore-lib-doge/lib/hdpublickey.js:154-189 | the same for public keys |
| CachedDerivation.Deriver.AllTransparent | packages/bitcore-lib-doge/lib/hdpublickey.js:191-205 | the same along whole paths |
| CachedDerivation.Deriver.CacheIsTransparent | packages/bitcore-lib-doge/lib/hdprivatekey.js:168-233 | any run of private and public derivations, by number or by path, from the empty cache returns what each returns without a cache |
| Networks.NetworkRegistry.Get | packages/bitcore-lib/lib/networks.js:27-47 | a registered network is itself; with keys the first network that has the value under one of them, and nothing if none has or the argument is an unregistered network; otherwise the head of the dictionary's entry |
| Networks.KeyedLookupIff | packages/bitcore-lib/lib/networks.js:27-41 | with keys a network is found if and only if it has the value under one of them and no network before it has, and nothing if and only if no network has |
| Networks.UnkeyedLookup | packages/bitcore-lib/lib/networks.js:27-47 | without keys a registered network is itself, and otherwise the first entry of the dictionary under the value, or under a network's name, is found |
| Networks.NetworkRegistry.Index | packages/bitcore-lib/lib/networks.js:113-120 | appends the network to the entry of every value it has, once for each time |
| Networks.NetworkRegistry.Add | packages/bitcore-lib/lib/networks.js:80-133 | registers new networks for the data and, recursively, for its variants merged into it, in order, and returns the first |
| Networks.NetworkRegistry.Remove | packages/bitcore-lib/lib/networks.js:141-163 | takes the network, or the one a value looks up, out of the list and once out of each entry |
| Networks.NetworkRegistry.RemoveFromList | packages/bitcore-lib/lib/networks.js:145-149 | the loop that splices while it counts takes out exactly that network |
| Networks.NetworkRegistry.RemoveFromMaps | packages/bitcore-lib/lib/networks.js:150-162 | in any order of the keys, every entry loses its first occurrence and empty entries go |
| NetworksAgree.TimesIsCount | packages/bitcore-lib/lib/networks.js:113-120 | a network is indexed under a text as often as it has properties with that text, a port of zero not counting |
| NetworksAgree.VariantExpanded | packages/bitcore-lib/lib/networks.js:124-130 | a variant makes networks of its own at its place, each property overridden by the variant where it has it |
| NetworksAgree.RemovedWritten | packages/bitcore-lib/lib/networks.js:141-163 | removal takes the first occurrence out of the list and of every entry and drops entries that held nothing else |
| NetworksAgree.AddedAllAgrees | packages/bitcore-lib/lib/networks.js:80-133 | adding keeps the dictionary equal to the list's index, also with variants and repeated values |
| NetworksAgree.RemovedAgreesIff | packages/bitcore-lib/lib/networks.js:141-163 | removing a registered network keeps the agreement if and only if its values are pairwise distinct |
| NetworksAgree.RemovedUnregistered | packages/bitcore-lib/lib/networks.js:141-163 | removing a network that is not registered changes nothing |
| NetworksAgree.NameIsAliasStays | packages/bitcore-lib/lib/networks.js:193-195 | a network whose name is its alias stays under it after removal, and is even found by it when it was the first |
| NetworksAgree.LookupIsScan | packages/bitcore-lib/lib/networks.js:42-46 | while they agree, looking a value up gives the first network of the list that has the value as a property |
| NetworksAgree.EveryStateAgreesIff | packages/bitcore-lib/lib/networks.js:80-163 | dictionary and list agree in every state of a run of adds and removes if and only if every registered network that is removed has distinct values |
| NetworksAgree.LookupAfterRun | packages/bitcore-lib/lib/networks.js:27-47 | after such a run, looking a value up is a first-match scan of the list |

## Left out

- CashAddr.DecodeCashAddress: letter case is that of ASCII, characters outside it are not modelled; the three default networks are taken to be registered under their names and prefixes.
- CashAddr.DecodeCashAddress: names that every JavaScript object inherits, such as `constructor`, are not looked up in the dictionary of networks.
- CashAddrTexts.DecodedWrittenOut: the same two limits hold for it.
- ConvertBits.ConvertBits: both widths are below 32 and their sum is at most 33, so that no bit needed is lost in the accumulator; the program calls it with 8 and 5 only.
- Paths.PathReadIff: steps are decimal numbers; the other texts JavaScript casts to numbers, such as exponents or hexadecimal, are read as malformed.
- HdKeys.Env.DeriveFindsFirst: starts from indexes that are not negative, the others being those of `HdKeys.Env.DeriveNegative`; the flag for hardening is a truth value, and a depth beyond 255 wraps as the one-byte buffer does.
- HdKeys.Env.DerivationsCommute: which public version belongs to a private one is a parameter; the registry's lookup of it is not connected.
- CachedDerivation.Deriver.CacheIsTransparent: keys are taken to fit the 78-byte form, as keys built by the program do.
- Networks.NetworkRegistry.Get: properties that are objects (network magic, seeds) are not compared, a function is known by its source text, and names inherited by every object are not keys.
- MnemonicLists.Library.IsValid: NFKD normalization is a parameter of which only its effect on phrases of the lists is used, and lists are told apart by their words rather than by identity.
- Serialization.ParsedPublicSerializesIff: the program keeps the 33 bytes it read for its own text form, the model has the point; what the elliptic curve library returns for numbers that are no coordinates is not known here.
- Pbkdf2.Pbkdf2: the encoding of texts in UTF-8 is a parameter.
- WrongSymbols.FourErrorsDetected: holds for up to 1025 symbols; whether five or six wrong symbols can escape in the at most 113 symbols of an address is not decided here.
- MnemonicLists.SharedWords: the hash is chosen for the words, and the word lists of the library themselves are not part of this model.
- The objects of extended keys and their lazily filled public key field are values here; checksums and JSON or object forms of them are not modelled.
- Hash functions, HMAC, curve arithmetic, big numbers, Base58 and Base58Check themselves.
- The Cash registry of networks beyond the prefixes, the Litecoin copies, and the other constructors and formats of addresses.
- Transactions, scripts, signatures, URIs, units, the peer-to-peer libraries, the client, the node and the command line.
