# Verification of libwally-core's coin selection, key derivation and codecs

A Dafny model of six source files of libwally-core and proofs about it. Check it
with `dafny verify dfyconfig.toml`.

| source | modules | what is proved |
|---|---|---|
| `src/coins.c` | `CoinSelection`, `CoinSearch`, `CoinTies` | the branch-and-bound search is sound, complete and returns a minimum-score selection; exactly when its documented tie-breaks hold |
| `src/bip32.c` | `Bip32`, `Bip32Path`, `Bip32Key`, `Bip32Laws`, `Bip32Child`, `Bip32Serial`, `Bip32Format`, `Bip32String` | child keys are those of BIP32; derivation along a path equals plain step-by-step derivation; public derivation is neutered private derivation; serialization |
| `src/bip32.c` | `PathSyntax`, `PathParser`, `PathText`, `PathLaws`, `PathTheorems`, `PathMulti`, `PathGrammar`, `PathRecognizer`, `PathLanguage` | the hand-written path parser accepts exactly the strings of a grammar and reads them as what they mean; which multi-path indices it accepts of any string |
| `src/base_58.c` | `Radix`, `Base58`, `Base58Loops`, `Base58Codec`, `Base58Standard` | the in-place bignum loops compute inverse functions within their buffers, which are Base58 and Base58Check |
| `src/bech32.c`, `src/blech32.c` | `Words`, `BitRegroup`, `Polymod`, `Charset`, `Checksums`, `Bech32`, `Bech32Codec`, `Script`, `SegwitAddress`, `SegwitCodec`, `ConfidentialAddress`, `ConfidentialCodec`, `BitNumbers`, `Bip173`, `ConfidentialFormat` | addresses are those of BIP173 and BIP350, canonical, round-trip, and detect any one wrong symbol |
| `src/aes.c` | `Aes`, `AesCbc`, `AesStandard`, `AesEcdh` | CBC with PKCS#7 and its encrypt-then-MAC wrapper recover every payload |

`Common` and `Buffers` hold what all share: status codes, byte strings, machine
widths, powers, and buffers written in part.

How the source's forms are rendered:

- Loops over buffers are methods with `while` or `for` loops over arrays (or the
  fields of the class `Bip32Key.ExtKey`), split where the source's one function has
  phases, and proved equal to a function: `CoinSearch.Attempt`, `Bip32.Derive`,
  `PathSyntax.Step`, `Base58.Encode`, `BitRegroup.Regroup`, `Bech32.Decode`,
  `Aes.CbcEncrypt`. The laws are lemmas about those functions. Lines named in a
  comment are those of the source file the module renders; for the two address
  codes they are those of `src/bech32.c` unless the comment says otherwise.
- Failures are results: `Status` is `WALLY_OK`, `WALLY_EINVAL` or `WALLY_ERROR`.
- `uint32_t` and `uint64_t` arithmetic that can wrap is written with `Wrap32` and
  `Wrap64`. `CoinSelection.Problem.Fits` says when it does not: the values total
  below 2^64 and a score below 2^32.
- Checksum registers are words of 30 or 60 bits. One `Code` value tells bech32 from
  blech32, whose functions differ in nothing but constants and lengths.
- Hash functions, HMACs, secp256k1 and the AES block cipher are functions handed to
  every operation. What is assumed of them is a predicate: `Bip32.Crypto.Lawful`
  (secrets add modulo the group order, public keys add along, both failing
  together), `Bip32Serial.PointsLookRight`, `Aes.Lawful` (decryption and encryption
  are inverse) and `AesEcdh.Sound` (both parties compute the same secret).

Where the code and its documentation differ, the model follows the code:

- `src/coins.c:45-50` promises exact matches with up to io_ratio more inputs, then
  larger change. At equal score the comparison at lines 129-131 is cyclic.
  `CoinTies.TieBreakFails` gives the input; `CoinTies.ExactExactly` and
  `CoinTies.LargerChangeExactly` give the exact conditions.
- `src/coins.c:71-75` promises a solution whenever one exists. That holds for
  solutions of at most 256 inputs: `CoinSearch.AllInputsNeeded` gives an input without
  one, `CoinSearch.SolvableExactly` the exact condition.
- `bip32_key_with_tweak_from_parent_path` accepts the public flag without the tweak
  sum and then returns the root's public key (`Bip32Laws.NoTweakSumGivesRootKey`,
  `Bip32Laws.RecomputedDiffers`).
- `bip32_key_unserialize` accepts keys that `bip32_key_serialize` refuses
  (`Bip32Serial.SerializeUnserialize`, `Bip32Serial.ReadButNotWritten`).
- Outside BIP389's grammar the accepted multi-path index is not "any below n":
  `PathMulti.LooseMultiPath`, `PathMulti.OtherItemsUnchecked` and
  `PathMulti.RunTogether` give inputs, `PathMulti.MultiIndexExactly` and
  `PathMulti.FirstIndexExactly` say which indices are accepted.
- `wally_addr_segwit_from_bytes` accepts more scripts than come back from the address
  (`ConfidentialAddress.ScriptComesBackExactly`, `ConfidentialAddress.LooseScripts`).
- `wally_base58_n_to_bytes` leaves the buffer's size in `written` when decoding fails
  (`Base58Codec.ToBytes`).

## Model

| member | source | states |
|---|---|---|
| `CoinSearch.CoinSelectAssets` | src/coins.c:82-167 | `wally_coinselect_assets` with its 64- and 32-bit wrap-around: exactly which arguments are rejected, and then untouched; whatever the arithmetic does, the output is strictly increasing in-range indices, at most 256; when nothing exceeds its machine width, the result is what exactly `attempts` attempts lead to, unless fewer end the search; out of attempts, it is the best of all solutions that so many tree nodes have left behind; ended by a `break`, it is a minimum-score selection with the change that `BestPossible` fixes, and 2^(n+1) - 1 attempts always end it so; in any order a result is found if the total and, past 256 values, the first 256 reach the target, and with values in descending order (or at most 256 values) exactly then, which is exactly when a solution exists |
| `CoinSearch.SearchLoop` | src/coins.c:119-164 | the whole search loop over its stack `indices`, cursor `v`, running `sum` and output array: it makes all its attempts unless the search ends, and comes to the state that so many attempts of the mathematical search lead to |
| `CoinSearch.AfterIsLive` | src/coins.c:119-164 | after any number k of attempts the search keeps its invariant and has left at least k tree nodes behind, or it has ended with the best possible selection |
| `CoinSearch.LiveIsBest` | src/coins.c:119-145 | what is recorded while the search goes on is the best of all solutions it has left behind: none has a lower score, and none of the same score more change unless an exact match of that score may displace it |
| `CoinSearch.AfterIsPruned` | src/coins.c:120-145 | after any number of attempts, no node has been entered below a selection that the cuts abandon or that was scored |
| `CoinSearch.CapInputs` | src/coins.c:119-145 | a selection of 256 inputs, the cap itself, is allowed |
| `CoinSearch.TryOne` | src/coins.c:120-163 | one attempt of the loop, in the machine arithmetic, is one attempt of the mathematical search, or ends it with everything searched |
| `CoinSearch.Examine` | src/coins.c:120-145 | the decision to backtrack and the recording of a better selection in `indices_out` |
| `CoinSearch.StepBack` | src/coins.c:148-154 | backtracking: the cursor walks back to the last included index, its value leaves the sum |
| `CoinSearch.StepForward` | src/coins.c:155-163 | including the value at the cursor unless that repeats an equivalent combination |
| `CoinSearch.RemainingSums` | src/coins.c:101-117 | the suffix sums, modulo 2^64, are exact when the total fits |
| `CoinSearch.AttemptProgress` | src/coins.c:147-163 | every attempt keeps the invariant, loses no better selection and moves strictly forward: the nodes still to visit shrink by at least the one left, so no node is met twice |
| `CoinSearch.AttemptKeepsGreedy` | src/coins.c:71-75 | until a solution is recorded the search runs down the first values, which is why n + 1 attempts find one |
| `CoinSearch.SearchedAll` | src/coins.c:148-149 | when backtracking leaves the first index, every feasible selection has been settled |
| `CoinSearch.SearchedAllFound` | src/coins.c:148-149 | and what is recorded then is the best possible: of minimum score, with the largest sum among those that no exact match of that score comes after |
| `CoinSearch.PerfectSelection` | src/coins.c:137-138 | stopping at a single exact input loses nothing |
| `CoinSearch.NothingWithinCap` | src/coins.c:142-145 | if 256 first values in descending order miss the target, no selection within the cap reaches it |
| `CoinSearch.NothingWithinTotal` | src/coins.c:101-105 | if the total misses the target, nothing reaches it |
| `CoinSearch.SolvableExactly` | src/coins.c:71-75 | with values in descending order (or at most 256 values) a solution within the cap exists exactly when the total reaches the target and, past 256 values, the first 256 do |
| `CoinSearch.AllInputsNeeded` | src/coins.c:71-75 | the promise that a returned empty result means no solution exists fails past the cap: 257 ones reach a target of 257 together, and no selection of at most 256 does |
| `CoinSelection.InvariantInclude` | src/coins.c:155-163 | including the value at the cursor keeps the search invariant |
| `CoinSelection.InvariantOmit` | src/coins.c:155-163 | skipping a value equal to an omitted predecessor keeps it: every selection passed over has an equivalent one already settled |
| `CoinSelection.InvariantBacktrack` | src/coins.c:147-154 | backtracking from a spent subtree keeps it |
| `CoinSelection.InvariantScored` | src/coins.c:127-140 | scoring a selection that reaches the target keeps it |
| `CoinSelection.SkippedIsBehind` | src/coins.c:155-158 | the equal-value skip: the twin of a skipped selection has the same size and sum and came first |
| `CoinSelection.SpentWhenInsufficient` | src/coins.c:122-124 | the first cut abandons nothing that reaches the target |
| `CoinSelection.SpentWhenTooMany` | src/coins.c:142-145 | the score and the 256-input cuts abandon only selections that score worse or exceed the cap |
| `CoinSelection.ScoredIsSpent` | src/coins.c:125-141 | cutting after scoring abandons only selections that score worse |
| `CoinSelection.DoneIsBefore` | src/coins.c:147-163 | whatever the search has left behind precedes the current node in include-first depth-first order |
| `CoinSelection.IncludeAdvances` | src/coins.c:159-163 | a step forward leaves one node fewer |
| `CoinSelection.BacktrackAdvances` | src/coins.c:147-154 | a step back leaves the current subtree's nodes behind |
| `CoinSelection.TreeSizeIsPower` | src/coins.c:119-164 | the search tree has 2^(n+1) - 1 nodes |
| `CoinSelection.FirstValuesAreLargest` | src/coins.c:64-69 | in descending order the first k values have the largest sum of any k |
| `CoinTies.ExactMatchPreferred` | src/coins.c:45-48 | an exact match with up to io_ratio inputs above the least count: with fewer, the result of an exhausted search is exact; at io_ratio, it is exact exactly when an exact match of minimum score comes after every change-generating one in search order |
| `CoinTies.ExactExactly` | src/coins.c:125-138 | for every exhausted search that finds something, the result is exact exactly under that condition |
| `CoinTies.LargerChangeExactly` | src/coins.c:49-50 | the result has the largest change of all minimum-score selections exactly when one that has it is late: no exact match of minimum score comes after it in search order |
| `CoinTies.LargerChangePreferred` | src/coins.c:49-50 | if no exact selection has the minimum score, no change-generating selection of the result's size has a larger sum |
| `CoinTies.TieBreakFails` | src/coins.c:45-50 | the documented preferences fail at equal score: with values 10, 9, 5, 1, 1, target 12 and io_ratio 1 the one possible result of an exhausted search is {9, 5}, neither exact, as {10, 1, 1} would be, nor of largest change, as {10, 9} would be |
| `Bip32Key.ExtKey.FromParent` | src/bip32.c:641-763 | `bip32_key_from_parent` filling the output key: refused untouched, failed and wiped, or equal to the child key, which `Bip32Child` shows to be BIP32's |
| `Bip32Key.ExtKey.DeriveInto` | src/bip32.c:673-763 | the derivation once the arguments allow it, in place |
| `Bip32Key.ExtKey.SetChildKeys` | src/bip32.c:700-720 | the child's private and public key from the parent's and the left half of the hash |
| `Bip32Key.ExtKey.SetTweakSum` | src/bip32.c:606-618 | `bip32_seckey_tweak_add`: the running sum, starting with the tweak when zero |
| `Bip32Key.ExtKey.SetDetails` | src/bip32.c:734-757 | version, depth, child number, parent and own hash of the child |
| `Bip32Key.ExtKey.StripPrivateKey` | src/bip32.c:1100-1107 | `bip32_key_strip_private_key` |
| `Bip32Key.ExtKey.WipeFail` | src/bip32.c:337-341 | `wipe_key_fail` |
| `Bip32Key.FindPrivateUntil` | src/bip32.c:795-800 | one past the last hardened element of the path |
| `Bip32Key.DeriveAlong` | src/bip32.c:805-823 | the loop over two alternating key slots derives what the recursive form does |
| `Bip32Key.FromParentPath` | src/bip32.c:780-829 | `bip32_key_from_parent_path`: the key along the path, or failure with the output untouched |
| `Bip32Key.WithTweakFromParentPath` | src/bip32.c:849-875 | `bip32_key_with_tweak_from_parent_path`: the derived key with its public key recomputed from the root's and the tweak sum; from the derived key's own when the root is the output |
| `Bip32Child.DeriveIsCkdPriv` | src/bip32.c:641-763 | CKDpriv: for every private parent and child number, with I the HMAC-SHA512 under the chain code of 0x00, the secret and the number in four big-endian bytes (hardened) or of the public key and the number, the child's secret is (I_L + secret) mod n, its chain code I_R, its depth, number, version and parent hash follow, and it fails exactly when I_L >= n or the sum is zero (or the running tweak sum is) |
| `Bip32Child.DeriveIsCkdPub` | src/bip32.c:641-763 | CKDpub: the same for a public parent, whose hardened children are refused |
| `Bip32Child.OrderIs` | src/bip32.c:600-618 | the modulus is the order of secp256k1 |
| `Bip32Laws.PathIsPlain` | src/bip32.c:780-829 | for every consistent key, path and flags: derivation along a path is refused for an undefined flag, an empty path or more than 255 elements, and otherwise is step-by-step derivation, neutered at the end for a public key of a private root |
| `Bip32Laws.LoopIsPlain` | src/bip32.c:805-829 | skipping the hashes of all but the last two keys gives exactly the final key, hashes included, of deriving step by step |
| `Bip32Laws.DeriveSameCore` | src/bip32.c:751-757 | derivation from keys that differ only in hashes gives children that differ only in hashes |
| `Bip32Laws.PathsCompose` | src/bip32.c:780-829 | private derivation of p followed by q is derivation of p and then of q |
| `Bip32Laws.NeuterCommutes` | src/bip32.c:641-763 | N(CKDpriv(k, i)) equals CKDpub(N(k), i) for every non-hardened i, failures included |
| `Bip32Laws.DerivePublicFromPrivate` | src/bip32.c:734-747 | a public child of a private parent is the neutered private child |
| `Bip32Laws.DeriveConsistent` | src/bip32.c:700-708 | a derived private key carries the public key of its secret |
| `Bip32Laws.PublicPathIsNeutered` | src/bip32.c:794-829 | for a private root and any path, derivation with the public flag (private up to the last hardened element) succeeds exactly when private derivation does and gives its neutered result in every field |
| `Bip32Laws.TweakSumGivesPublicKey` | src/bip32.c:849-875 | with the tweak sum requested, root public key plus tweak sum is the derived public key exactly when the root's own sum is zero, on any path, for private and public roots |
| `Bip32Laws.PublicKeyIsInjective` | src/bip32.c:700-720 | the assumed laws force different secrets to have different public keys |
| `Bip32Laws.NoTweakSumGivesRootKey` | src/bip32.c:849-875 | with only the public flag the recomputed key is the root's own: it is the derived one exactly when the tweaks hashed along the path add up to zero modulo the group order |
| `Bip32Laws.RecomputedDiffers` | src/bip32.c:849-875 | and they need not: a root and a path, under laws that hold, whose derived key is not the recomputed one |
| `Bip32Laws.LawsAreConsistent` | src/bip32.c:641-763 | the laws assumed of the hash and group functions can be met together |
| `Bip32Format.SerializesExactly` | src/bip32.c:489-534 | exactly which keys are written, and the 78 bytes position by position: version, depth, fingerprint, child number, chain code, key |
| `Bip32Format.UnserializesExactly` | src/bip32.c:543-589 | bytes are read as a key exactly when they hold it at those positions, under a private version with a public key made from it or under a public version with a valid one |
| `Bip32Format.ToBase58Exactly` | src/bip32.c:1038-1052 | the string of a key is the Base58Check form of those bytes |
| `Bip32Serial.PointsCanLookRight` | src/bip32.c:543-589 | what is assumed of public keys can be met together with those laws, by some public key |
| `Bip32Serial.SerializeKey` | src/bip32.c:489-534 | `bip32_key_serialize` writing its 78 bytes field by field |
| `Bip32Serial.UnserializeKey` | src/bip32.c:543-589 | `bip32_key_unserialize` filling the key: refused untouched, failed and wiped, or read |
| `Bip32Serial.UnserializeSerialize` | src/bip32.c:489-589 | reading what was written gives the key (neutered for the public form) short of the full parent hash and the tweak sum |
| `Bip32Serial.SerializeUnserialize` | src/bip32.c:460-589 | what was read is written back byte for byte exactly when its chain code is not zero and a key at depth 0 has no parent fingerprint; the reader accepts those, the writer refuses them |
| `Bip32Serial.ReadButNotWritten` | src/bip32.c:460-589 | and there are such bytes: for every valid public key, 78 bytes of either kind are read and then cannot be written |
| `Bip32Serial.FromBase58OfToBase58` | src/bip32.c:1038-1072 | the base58 form of a key reads back like its bytes |
| `Bip32Serial.KeyStringIsCanonical` | src/bip32.c:1054-1072 | a base58 string that is read as a key is the only string of that key's bytes |
| `PathLanguage.AcceptedExactly` | src/bip32.c:89-240 | every string is accepted exactly when it is a sentence of a grammar written apart from the parser: a header, then numbers, slashes, at most one wildcard and at most one multi-path, no slash first, last or after a slash, the wildcard alone between slashes, the loose forms the code takes included |
| `PathLanguage.ReadAsMeant` | src/bip32.c:89-240 | and then the path and features are those that its parts write |
| `PathRecognizer.ReadsPart` | src/bip32.c:124-226 | one iteration of the main loop reads any part, whatever follows it that may |
| `PathRecognizer.PartOf` | src/bip32.c:124-226 | an iteration that does not fail has read a part, and what stands before and behind it may stand there |
| `PathRecognizer.NumberIsDecimal` | src/bip32.c:152-157 | the running sum of digits is the decimal number they write |
| `PathParser.PathFromStr` | src/bip32.c:89-240 | `path_from_str_n`: status, features and reported length do not depend on the room given, and what is written is the matching prefix of the path |
| `PathParser.RunLoop` | src/bip32.c:124-226 | the main loop, iteration by iteration, is `PathSyntax.Run` |
| `PathParser.StepMulti` | src/bip32.c:129-151 | a multi-path: skipping to the item asked for |
| `PathParser.StepChosen` | src/bip32.c:152-215 | the chosen item and the items after it |
| `PathParser.StepOther` | src/bip32.c:152-218 | a number, a slash or a wildcard |
| `PathParser.SkipMultiItems` | src/bip32.c:136-148 | the loop over the items before the chosen one |
| `PathParser.SkipRemaining` | src/bip32.c:195-207 | the loop over the items after it |
| `PathParser.ReadNumber` | src/bip32.c:152-157 | digits read with an early failure at 2^31 are read in full exactly when their value is below it |
| `PathParser.NumberGrows` | src/bip32.c:153-155 | more digits never make a number smaller, so failing early loses nothing |
| `PathTheorems.ParsesPrinted` | src/bip32.c:89-240 | every well-formed BIP32/BIP389 string (header, numbers, one wildcard, one multi-path, any of the marks) parses to its meaning and features, or is rejected exactly when its multi-path lacks the item asked for |
| `PathTheorems.PathRoundTrip` | src/bip32.c:89-240 | writing any path of 1 to 255 elements and parsing it gives the path and its features |
| `PathTheorems.MultiIndexChooses` | src/bip32.c:129-215 | on a well-formed string every index below the number of items gives the same length and features and changes only the multi-path element, to that item; larger indices are rejected |
| `PathMulti.MultiIndexExactly` | src/bip32.c:129-215 | for any string accepted with index 0 that has a multi-path, which is at its first opening bracket, index k is accepted exactly when a semicolon ends each of the first k items and the item k is below 2^31; the result then differs in the multi-path element alone, which is that item; every index from the number of items on is rejected |
| `PathMulti.FirstIndexExactly` | src/bip32.c:129-215 | a string accepted with another index is accepted with index 0 exactly when the item it was accepted with is not empty and the first is below 2^31 |
| `PathMulti.LooseMultiPath` | src/bip32.c:144-157 | `<0;>` is rejected with index 0 and accepted with index 1 |
| `PathMulti.OtherItemsUnchecked` | src/bip32.c:152-207 | only the item asked for is checked to be below 2^31: `<0;n>` is accepted with index 0 for every n, and with index 1 for those below 2^31 alone, so not for `<0;4294967296>` |
| `PathMulti.RunTogether` | src/bip32.c:195-207 | items after the one asked for need no semicolon: `<0h1;2>` counts two items and is accepted with index 0 and rejected with index 1 |
| `PathMulti.MultiIsPicked` | src/bip32.c:129-215 | what the multi-path branch makes of brackets that close: the item asked for, the count of semicolons plus one and whether any item is hardened |
| `PathTheorems.FeaturesMean` | src/bip32.c:110-231 | what the features say of a path: bare, hardened, wildcard and its position, multi-path and its size |
| `PathTheorems.WildcardIndependent` | src/bip32.c:174-191 | for any string, a child number other than 0 is accepted exactly when 0 is and there is a wildcard; it is added to the wildcard element and changes nothing else |
| `PathTheorems.FieldsDoNotOverlap` | src/bip32.c:181-231 | for any accepted string every packed feature field reads back |
| `PathTheorems.AcceptedInRange` | src/bip32.c:211-231 | for any accepted string: 1 to 255 elements below 2^32, wildcard position inside the path, 2 to 254 multi-path items |
| `PathLaws.RunsFromElement` | src/bip32.c:124-226 | the main loop over well-formed elements |
| `PathLaws.SkipsItems` | src/bip32.c:136-148 | skipping k well-formed items leaves the others |
| `PathLaws.TooFewItems` | src/bip32.c:144-145 | skipping all the items fails |
| `Bip32String.FromParentPathStr` | src/bip32.c:899-916 | `bip32_key_from_parent_path_str_n`: parse, then derive along the path |
| `Bip32String.StringIsPath` | src/bip32.c:899-916 | deriving along a written path is deriving along the path |
| `Bip32String.PublicStringIsNeutered` | src/bip32.c:899-916 | for any string, public derivation gives the neutered result of private derivation |
| `Bip32String.StringsCompose` | src/bip32.c:899-916 | private derivation along a written path is derivation along its first part and then the second |
| `Base58.DecodeEncode` | src/base_58.c:69-241 | decode(encode(b)) = b for every non-empty byte string |
| `Base58.EncodeDecode` | src/base_58.c:69-241 | encode(decode(s)) = s for every valid string |
| `Base58Standard.EncodesExactly` | src/base_58.c:166-253 | a string is the encoding of bytes exactly when it has a 1 for each leading zero byte and then, in the alphabet of 58 characters and without a leading zero digit, the number that the bytes are in base 256 |
| `Base58Standard.DecodesExactly` | src/base_58.c:69-157 | a string decodes to bytes exactly when they are not empty and it writes them so |
| `Base58Standard.EncodesCheckExactly` | src/base_58.c:166-253 | with the checksum flag it writes the bytes and then the first four bytes of their double SHA-256 |
| `Base58Standard.DecodesCheckExactly` | src/base_58.c:266-307 | with room for the result, a string is accepted with its checksum and yields bytes exactly when it writes them and that checksum |
| `Base58.DecodeNotEmpty` | src/base_58.c:82-90 | no string decodes to nothing |
| `Base58.EncoderCapacity` | src/base_58.c:204-204 | floor(138n/100) + 1 base-58 digits hold any n bytes |
| `Base58.DecoderCapacity` | src/base_58.c:95-95 | six bits a character, rounded up to words, hold any n base-58 digits |
| `Base58Codec.FromBytes` | src/base_58.c:166-253 | `wally_base58_from_bytes` returns the encoding, of the bytes or of the bytes and their checksum |
| `Base58Codec.ToBase58` | src/base_58.c:213-225 | the byte loop leaves the number in base 58 in its buffer |
| `Base58Codec.SkipZeroDigits` | src/base_58.c:227-228 | leading zero digits are skipped, all but the last |
| `Base58Codec.ToWords` | src/base_58.c:95-124 | the character loop leaves the number in 32-bit words, or fails at an invalid character |
| `Base58Codec.SkipZeroBytes` | src/base_58.c:126-135 | the words as bytes without leading zeros |
| `Base58Codec.DecodeInto` | src/base_58.c:69-157 | `base58_decode`: the exact size is reported, and the bytes are written only when they fit |
| `Base58Codec.GetLength` | src/base_58.c:256-259 | `wally_base58_n_get_length` equals the decoded size |
| `Base58Codec.ToBytes` | src/base_58.c:266-307 | `wally_base58_n_to_bytes` with every outcome and what it leaves in the buffer; a short buffer is left untouched with the needed size reported |
| `Base58Codec.CheckAndStrip` | src/base_58.c:289-305 | the trailing checksum is checked and cleared, or the whole buffer is |
| `Base58Codec.CheckedRoundTrip` | src/base_58.c:166-307 | with room for it, decoding a checksummed encoding returns the bytes |
| `Base58Codec.AcceptedIsEncoding` | src/base_58.c:266-307 | every string accepted with its checksum is the encoding of its output |
| `Base58Loops.MultiplyInByte` | src/base_58.c:213-225 | one pass over the digits multiplies by 256 and adds a byte; the top pointer never passes the start, the carry stays below 256 |
| `Base58Loops.MultiplyInDigit` | src/base_58.c:107-124 | one pass over the words multiplies by 58 and adds a digit, growing by at most one word |
| `Base58Loops.CarryThrough` | src/base_58.c:217-224 | the inner carry loop of the encoder |
| `Base58Loops.AccountStep` | src/base_58.c:112-123 | one digit processed keeps the value still accounted for |
| `Base58Loops.CarryFits` | src/base_58.c:118-122 | a carry out of the top would exceed what the buffer was sized for |
| `Polymod.StepXor` | src/bech32.c:32-40 | the polymod step is linear over exclusive or (both codes) |
| `Polymod.StepInjective` | src/bech32.c:32-40 | the polymod step loses nothing of its 30-bit (60-bit) state |
| `Polymod.StepKernel` | src/blech32.c:33-41 | only the zero register steps to zero |
| `Polymod.OneSymbolMatters` | src/bech32.c:32-40 | changing one absorbed symbol changes the final register |
| `Charset.TableIsInverse` | src/bech32.c:44-53 | `charset_rev`, entry by entry and capitals included, inverts `charset` for every character |
| `Charset.RevOfChar` | src/bech32.c:42-53 | a symbol's character stands for the symbol |
| `Bip173.StepIsPolymodStep` | src/bech32.c:32-40 | the polymod step on words is the step on integers of BIP173: a shift, and an exclusive or with each of the five generator numbers (both codes) |
| `Bip173.AbsorbIsPolymod` | src/bech32.c:32-40 | and so is the checksum of any symbols, from the initial value 1 |
| `Bip173.EncodesBip173` | src/bech32.c:169-182 | the encoders write exactly the strings of BIP173 and BIP350: prefix, separator, version and program as one number in the character set, and a checksum whose polymod over the expanded prefix and all symbols is 1 for version 0 and 0x2bc830a3 for the others (1 and 0x455972a3350f7a1 for blech32); whatever has no such string is refused |
| `Bip173.DecodesBip173` | src/bech32.c:184-205 | an address is accepted, with its version and program, exactly when it is in one case, its lower-case form is such a string and the prefix is not empty |
| `BitNumbers.XorIsBitXor` | src/bech32.c:32-40 | exclusive or on words is exclusive or on numbers |
| `Checksums.ChecksumIsValid` | src/bech32.c:79-85 | the checksum symbols always drive the register to the variant's constant |
| `Checksums.ValidIsChecksum` | src/bech32.c:143-144 | no other symbols do |
| `Checksums.ConstantsDiffer` | src/bech32.c:29-30 | the two constants of a code differ; `Bip173` says which is whose |
| `BitRegroup.ConvertBits` | src/bech32.c:147-167 | `convert_bits` over its output buffer, which needs no more bits than the input has |
| `BitRegroup.ShiftAll` | src/bech32.c:151-158 | the loop keeps the bits: those emitted and those left over are the input's |
| `BitRegroup.Take` | src/bech32.c:152-157 | one input, in 32-bit arithmetic that drops old bits |
| `BitRegroup.BytesRoundTrip` | src/bech32.c:147-167 | 8-to-5 regrouping with padding and back without gives the bytes |
| `BitRegroup.SymbolsRoundTrip` | src/bech32.c:147-167 | 5-to-8 regrouping without padding accepts only what 8-to-5 regrouping produces |
| `BitRegroup.SymbolCount` | src/bech32.c:159-162 | n bytes take ceil(8n/5) symbols |
| `Bech32.DecodeEncode` | src/bech32.c:55-145 | what encodes under a prefix that is not empty decodes to the same prefix, data and variant |
| `Bech32.EncodeDecode` | src/bech32.c:55-145 | what decodes is, in lower case, the encoding of what it decodes to |
| `Bech32.DecodeFoldsCase` | src/bech32.c:107-141 | a string in one case is read like its lower-case form, and one that mixes the cases is rejected |
| `Bech32.OneSubstitution` | src/bech32.c:127-144 | a string with one symbol replaced is rejected or carries the other constant |
| `Bech32Codec.EncodeString` | src/bech32.c:55-88 | `bech32_encode` and `blech32_encode` writing a terminated string |
| `Bech32Codec.DecodeString` | src/bech32.c:90-145 | `bech32_decode` and `blech32_decode` filling `hrp` and `data`, in bounds of 84 (1000) elements |
| `Bech32Codec.ReadPrefix` | src/bech32.c:107-121 | the prefix: printable, folded to lower case, its high bits absorbed |
| `Bech32Codec.ReadPayload` | src/bech32.c:127-139 | the symbols after the separator, all absorbed, all but the checksum kept |
| `Bech32Codec.WriteAll` | src/bech32.c:68-88 | the five pieces of an encoding in one buffer |
| `Bech32Codec.FindSeparator` | src/bech32.c:98-101 | the last 1 |
| `SegwitAddress.DecodeEncodeAddress` | src/bech32.c:169-205 | decoding undoes encoding for every prefix that is not empty, version 0 to 16 and program that encodes (both codes) |
| `SegwitAddress.AddressIsCanonical` | src/bech32.c:184-205 | every accepted address re-encodes to its lower-case form |
| `SegwitAddress.OneAddressPerProgram` | src/bech32.c:184-205 | two accepted addresses of one program under one prefix differ only in case |
| `SegwitAddress.OneErrorIsDetected` | src/bech32.c:184-205 | a lower-case address with any one symbol after the version replaced by another, checksum included, is rejected under every prefix, at every length (both codes) |
| `SegwitAddress.EncodesExactly` | src/blech32.c:174-187 | exactly which prefixes, versions and programs encode |
| `SegwitAddress.EveryProgramHasAddress` | src/bech32.c:169-205 | every program of an allowed size has an address under every prefix of at most 18 (882) lower-case characters |
| `SegwitCodec.WriteAddress` | src/bech32.c:169-182 | `segwit_addr_encode` and `blech32_addr_encode`, `data[65]` (`data[1000]`) being large enough |
| `SegwitCodec.ReadAddress` | src/blech32.c:189-210 | `segwit_addr_decode` and `blech32_addr_decode`; a program of any message that passes the length test fits the caller's 40 (1000) bytes even before its own length test |
| `SegwitCodec.SamePrefixIsEqual` | src/blech32.c:189-199 | comparing only the first 995 characters of the prefix is comparing all |
| `ConfidentialCodec.AddrFromBytes` | src/bech32.c:207-239 | `wally_addr_segwit_from_bytes` |
| `ConfidentialCodec.AddrToBytes` | src/bech32.c:242-268 | `wally_addr_segwit_n_to_bytes` into part of a buffer; one too short for the script gets the script's first byte and the size is reported (an error for one byte); on any other failure the buffer is untouched |
| `ConfidentialCodec.GetVersion` | src/bech32.c:280-293 | `wally_addr_segwit_n_get_version` gives the decoded version |
| `ConfidentialCodec.WriteScript` | src/script.c:1003-1049 | `wally_witness_program_from_bytes_and_version` for a program, without hashing or an outer push: the script written, or its size reported with the version byte written, or nothing |
| `ConfidentialCodec.AddrFromConfidential` | src/blech32.c:213-249 | `wally_confidential_addr_to_addr_segwit`, the script put together over the end of the key |
| `ConfidentialCodec.KeyFromConfidential` | src/blech32.c:251-278 | `wally_confidential_addr_segwit_to_ec_public_key` |
| `ConfidentialCodec.AddrToConfidential` | src/blech32.c:280-338 | `wally_confidential_addr_from_addr_segwit`, the key copied over the script's version and push bytes |
| `ConfidentialFormat.FromScriptExactly` | src/bech32.c:207-239 | a script gives exactly the BIP173 address of its version and of all that follows its second byte; which opcodes, pushes and sizes are accepted |
| `ConfidentialFormat.ScriptOfExactly` | src/bech32.c:242-268 | the script of an address is its version's opcode, the program's length and the program |
| `ConfidentialFormat.ToConfidentialExactly` | src/blech32.c:280-338 | a confidential address is the blech32 address, under the address's version, of the 33 bytes of key and then the program |
| `ConfidentialFormat.BlindingKeyExactly` | src/blech32.c:251-278 | the first 33 bytes of a confidential address's program are the key |
| `ConfidentialFormat.FromConfidentialExactly` | src/blech32.c:213-249 | and the others make the address |
| `ConfidentialAddress.ConfidentialRoundTrip` | src/blech32.c:213-338 | an address made confidential comes back in lower case, with the key supplied |
| `ConfidentialAddress.ConfidentialIsCanonical` | src/blech32.c:213-338 | an address and a key taken out of a confidential address make it again |
| `ConfidentialAddress.ConfidentialExactly` | src/blech32.c:280-338 | exactly which addresses can be made confidential |
| `ConfidentialAddress.ScriptRoundTrip` | src/bech32.c:207-268 | a script that gives an address comes back with its push byte rewritten |
| `ConfidentialAddress.ScriptComesBackExactly` | src/bech32.c:207-268 | it comes back unchanged exactly when its second byte is a direct push of all that follows; other pushes and trailing bytes are accepted and become part of the program |
| `ConfidentialAddress.LooseScripts` | src/bech32.c:207-268 | and such scripts are accepted: one with a trailing byte and one with a two-byte push, under every short prefix |
| `ConfidentialAddress.AddressOfScript` | src/bech32.c:207-268 | an accepted address is, in lower case, the address of its script |
| `Script.WitnessScriptReads` | src/script.c:35-116 | a witness script's version, push size and program read back |
| `AesCbc.Cbc` | src/aes.c:142-221 | `wally_aes_cbc` in both directions: the size is always reported, and the text is written when it fits |
| `AesCbc.GetMaximumLength` | src/aes.c:129-140 | `wally_aes_cbc_get_maximum_length`: exactly the ciphertext's size, and more than any plaintext's |
| `AesCbc.DecryptAll` | src/aes.c:163-182 | decryption reports the size of the text and writes it if it fits |
| `AesCbc.EncryptBlocks` | src/aes.c:193-216 | the block loop and the padded last block |
| `AesCbc.DecryptBlocks` | src/aes.c:190-207 | decryption writes the end of the text first and then the blocks before it |
| `AesCbc.DecryptLast` | src/aes.c:164-171 | the last block is decrypted ahead of the others to learn the padding |
| `AesCbc.MixLast` | src/aes.c:210-214 | the last block is completed with PKCS#7 padding |
| `AesCbc.DecBlockAt` | src/aes.c:200-203 | the i-th decrypted block |
| `Aes.CbcRoundTrip` | src/aes.c:142-221 | decryption undoes encryption for every plaintext, the empty one included |
| `Aes.DecEncBlocks` | src/aes.c:193-207 | chaining is undone block by block |
| `Aes.CiphertextComesBack` | src/aes.c:173-178 | a ciphertext is the encryption of what it decrypts to exactly when its text ends in proper padding; the code does not check the padding |
| `Aes.ImproperPadding` | src/aes.c:173-178 | under every cipher, key and vector there is a ciphertext that decrypts and is not the encryption of the result |
| `AesStandard.EncryptIsCbc` | src/aes.c:193-216 | the ciphertext is that of CBC: each block encrypts the exclusive or of the padded text's block with the ciphertext before it, the vector first; the padding is 1 to 16 bytes, each their number |
| `AesStandard.DecryptIsCbc` | src/aes.c:163-207 | decryption is the exclusive or of each decrypted block with the ciphertext before it, short of the padding that the last byte announces |
| `AesStandard.XorByteIsBitXor` | src/aes.c:193-207 | exclusive or of bytes is that of their numbers |
| `AesEcdh.SealsExactly` | src/aes.c:300-343 | with h the HMAC-SHA512 of the label under the shared secret, what is sealed is exactly: the vector, the text encrypted under the first 32 bytes of h, and the HMAC-SHA256 under its last 32 bytes of all before |
| `AesEcdh.OpensExactly` | src/aes.c:312-334 | a message opens exactly when its last 32 bytes are that HMAC of the rest, to what the first half of h decrypts |
| `AesEcdh.CbcWithEcdhKey` | src/aes.c:264-350 | `wally_aes_cbc_with_ecdh_key`: every outcome; a message is opened exactly when a secret exists and the trailing MAC is that of the rest; the length check at the end never fires, as an error comes from the shared secret alone |
| `AesEcdh.GetMaximumLength` | src/aes.c:223-262 | `wally_aes_cbc_with_ecdh_key_get_maximum_length`: accepts exactly the valid arguments; for encryption the exact size of what is sealed under any keys, for decryption the ciphertext's size, more than any text opened under any keys |
| `AesEcdh.SealInto` | src/aes.c:326-343 | vector, ciphertext and MAC in the output buffer, which always has room |
| `AesEcdh.OpenInto` | src/aes.c:312-334 | the MAC checked, then the payload decrypted |
| `AesEcdh.OtherPartyRecovers` | src/aes.c:264-350 | the other party recovers every payload |
| `AesEcdh.LawsAreConsistent` | src/aes.c:306-311 | what is assumed of the cipher and the shared secret can be met |
| `AesEcdh.SealedAgain` | src/aes.c:264-350 | sealing an opened message again gives the message exactly when its text was properly padded |
| `AesEcdh.SealedDiffers` | src/aes.c:264-350 | whatever the keys, there is a message that opens and is not what sealing gives |

## Left out

- Allocation failure, NULL arguments, wiping of secrets and stack buffers, the `_alloc` wrappers, the `strlen` wrappers, reserved `flags` arguments that must be zero, and builds without Elements.
- Stack versus heap buffers: base58 buffers are allocated at their computed size.
- `flags` words are records of the flags that matter; whether an undefined bit is set is one of them.
- Character and byte order: integers are written big-endian directly, strings are sequences of characters without a terminator except in output buffers.
- secp256k1, AES itself, SHA-2, RIPEMD-160 and HMAC, and how likely their outputs collide.
- Multiple errors: only that any one changed symbol after the version symbol is detected is proved, not how many errors the checksums detect.
- `bip32_key_from_seed`, `bip32_key_init`, `bip32_key_get_fingerprint` and the getters of src/bip32.c, which are short straight-line code.
- Writing a parsed path back in its original spelling: parsing forgets marks and headers.
- `wally_base58_from_bytes` returns its string as a value; only the digits are computed in place.
- Bip32Key.ExtKey.FromParent: an output key that is the parent itself is excluded; the code would copy the parent's bytes onto themselves, or build the hashed data over its private key.
- AesCbc.Cbc: a decryption of an empty input is excluded, because the code reads a block before the buffer's start; input and output do not overlap.
- CoinSearch.CoinSelectAssets: the guarantees beyond a well-formed selection are stated for totals and scores that fit their machine words, because line 103 adds without a check and line 127 adds in 32 bits.
- PSBT, transactions, descriptors, mnemonics, scrypt and the language bindings.
