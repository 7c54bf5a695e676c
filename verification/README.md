# A model of the inline algorithms of Crypto++ 7.0

Most Crypto++ headers only declare functions. Some carry whole algorithms, written for speed and
full of pointer steps, carry chains and aliasing buffers. This project models those algorithms in
Dafny and proves what they are for.

* **Many cipher blocks in one call** (`Lanes`, `AdvBlocks`, `AdvBatches`, `AdvWindows`,
  `AdvTemplates`, `AdvHazards`, `BlockModes`, `XorBlocks`, `Ciphers`). The three SSE templates of `adv-simd.h`
  work on one memory in which input, mask and output are offsets, so every overlap can be
  expressed. Processing one block at a time is the reference. The parallel forms are proved to
  leave the same memory whenever no block still in flight is overtaken, and this condition is
  proved to be necessary as well. On top of it stand CBC encryption and in-place decryption,
  counter mode, and the CBC-MAC of the stationary mode.
* **NIST generators** (`CarryAdd`, `NistDrbg`, `HashDrbg`, `HmacDrbg`). The buffers are updated in
  place by carry loops in three builds. The standard, SP 800-90A Rev. 1, is written down as
  functions on states, and every method refines it. Invariants hold over every run of requests.
* **Groups of prime order** (`Groups`, `Numbers`, `Signatures`, `SignatureScheme`, `Rfc6979`,
  `Mqv`). Three signature algorithms up to their octet strings, deterministic nonces, and the
  agreement of two roles in FHMQV and HMQV.
* **ElGamal encryption** (`ElGamal`, `ElGamalScheme`), from padding and masking up to the whole
  scheme with its ephemeral agreement.
* **Encodings and derivations** (`Bytes`, `Asn1`, `Hkdf`, `Dmac`, `Shuffle`, `Streams`). DER and
  BER integers, HKDF, DMAC over any chunking, and the shuffle of the random generators.

Where a method is proved against a function (`Next`, `Output`, `AgreedValue`, `Expand`, ...), a lemma
beside it says what that function amounts to in single digests, octets and powers: `OutputIs`,
`GenerateIs`, `NonceIs`, `AgreedIs`, `DerivedKeyIs`, `InnerMacIs`, `CiphertextIs`, `CallIs`. For output
cut from several digests these use `Streams.CutFrom`: octet j is octet j mod d of block j / d.

Hash, HMAC, cipher and group operations are parameters with the sizes and laws the code relies
on. Random draws are parameters too: exponents, filler octets, shuffle draws. Exceptions are
results. `dafny verify dfyconfig.toml` checks the whole project.

Where the code differs from what a reader may expect:

* The batch loops of `adv-simd.h` are not equal to single blocks in every layout. For pointers
  that move, `AdvHazards.SerialExactlyWhen` says exactly in which ones they are, and
  `AdvHazards.ValuesExactlyWhen` says when single blocks themselves work from the memory before
  the call, counters included. In-place CBC decryption is safe only because it runs in reverse;
  `BlockModes.ForwardInPlaceDiffers` shows the forward call.
* The shuffle is announced as uniform. One sequence of draws per permutation exists exactly up to
  2^32 elements (`Shuffle.ReachableExactlyUpTo32Bits`).
* The deterministic nonce re-encodes the message representative at its own length, so a short
  representative can lose bits (`Rfc6979.MessageOctetsCanLoseBits`);
  `Rfc6979.MessageOctetsExactlyWhen` gives the exact condition.
* A shorter DMAC tag is in general not a prefix of the full tag: `Dmac.ShortTagIsPrefixExactlyWhen`
  leaves only the empty and the full one. The second cipher works in place on a whole block of the
  caller's memory also when fewer octets are asked for, so `Dmac.DmacBase.TruncatedFinal` takes an
  address in memory, and a whole block behind it changes.
* The longest ElGamal plaintext is computed in 32 bits and wraps for moduli below three octets
  (`ElGamal.MaxPlaintextFits`).
* Absent additional input with a non-zero length makes HMAC_DRBG update twice although no octet
  is added: the output is the same (`HmacDrbg.NullIsUnused`), the next state in general is not
  (`HmacDrbg.NullWithLengthExactlyWhen`).
* A decoded BOOLEAN keeps only its truth value (`Asn1.BooleanRoundTrip`).

## Model

| member | source | states |
|---|---|---|
| `AdvHazards.SerialExactlyWhen` | Inc/cryptopp700/adv-simd.h:970-1121 | For moving pointers, the mask absent, after or before the cipher, and batch sizes in descending order: the parallel call leaves, for all block functions and all memories, what single blocks leave, if and only if the output overtakes no area still read within a batch the call is long enough for, or the input is its own mask before the cipher; the same with permutations alone |
| `AdvHazards.ValuesExactlyWhen` | Inc/cryptopp700/adv-simd.h:1097-1121 | For every call that is not stationary, counters included: single blocks give every block the value computed from the memory before the call, for all block functions and memories, if and only if no output overlaps a later block still to be read, or the input is its own mask; a counter must be clear of the output, and a mask may contain its last octet only where that has moved by a multiple of 256; the same with permutations alone |
| `AdvHazards.UnsafeShows` | Inc/cryptopp700/adv-simd.h:1097-1121 | In every unsafe layout of moving pointers that does not mask itself, adding one to every octet misses a value on the all-zero memory |
| `AdvHazards.CounterUnsafeShows` | Inc/cryptopp700/adv-simd.h:1097-1121 | In every counter layout that does not keep its values, adding one or adding two to every octet misses a value or the counter on the all-zero memory |
| `AdvHazards.UnsafeCallShows` | Inc/cryptopp700/adv-simd.h:970-1095 | In every layout unsafe for the batch sizes that does not mask itself, adding one to every octet of zeros makes the parallel call and single blocks differ at the end |
| `AdvHazards.BatchMeets` | Inc/cryptopp700/adv-simd.h:972-1050 | A batch that covers the whole call gives every block its value in any layout of moving pointers, and for a counter clear of output and mask, because all its loads precede all its stores |
| `AdvTemplates.AdvancedProcessBlocks128_6x2` | Inc/cryptopp700/adv-simd.h:936-1122 | Memory after the call is that of six-word batches, then two-word batches, then single blocks; the returned length is what is left below one block |
| `AdvTemplates.AdvancedProcessBlocks128_4x1` | Inc/cryptopp700/adv-simd.h:1124-1247 | The same with four-word batches and single blocks |
| `AdvTemplates.AdvancedProcessBlocks64_6x2` | Inc/cryptopp700/adv-simd.h:697-934 | The same for 8-octet blocks, two to a word; returns the length modulo 8 |
| `AdvTemplates.ProcessedIsSerial` | Inc/cryptopp700/adv-simd.h:970-1121 | Without parallel processing always, and with it whenever the layout is safe for the batch sizes or the input masks itself, a call leaves exactly what one block at a time leaves; a counter may lie under the last output block, and only its last octet has to be outside the mask |
| `AdvTemplates.BatchedIsSerial` | Inc/cryptopp700/adv-simd.h:970-1121 | The same from any block on and for any list of batch sizes |
| `AdvTemplates.BatchesAreSerial` | Inc/cryptopp700/adv-simd.h:972-1050 | One loop of batches equals the serial run over the blocks it covers |
| `AdvTemplates.BatchLoop` | Inc/cryptopp700/adv-simd.h:1052-1094 | The loop refines the batches on memories and leaves every pointer at the first unprocessed block |
| `AdvTemplates.Batch` | Inc/cryptopp700/adv-simd.h:972-1050 | One pass stores every word of the batch as computed from the memory before it, and moves the pointers by whole words |
| `AdvTemplates.ComputeBatch` | Inc/cryptopp700/adv-simd.h:974-1034 | The words before the first store are input, mask and transformation of the old memory, and only the counter block has changed |
| `AdvTemplates.LoadBatch` | Inc/cryptopp700/adv-simd.h:975-1000 | The words a batch starts from are consecutive counters or consecutive input words, in the direction of the call |
| `AdvTemplates.MaskBatch` | Inc/cryptopp700/adv-simd.h:1002-1034 | Every word meets the mask word that belongs to its blocks |
| `AdvTemplates.StoreWords` | Inc/cryptopp700/adv-simd.h:1036-1047 | Storing word after word reaches the batch's final memory and the next output position |
| `AdvTemplates.CounterWords128` | Inc/cryptopp700/adv-simd.h:975-985 | Vector lane additions give counters whose last octet is t further modulo 256, other octets unchanged; the stored counter is as many further as there are words |
| `AdvTemplates.CounterWords64` | Inc/cryptopp700/adv-simd.h:738-757 | Two 8-octet counters to a word, one apart, each word two further; the stored counter is two further per word, whether the last addition has 32-bit or 64-bit lanes |
| `AdvTemplates.SingleBlock` | Inc/cryptopp700/adv-simd.h:1099-1113 | The tail's body performs one step of the reference |
| `AdvTemplates.CountOnce` | Inc/cryptopp700/adv-simd.h:1105-1106 | The octet increment moves the stored counter by one modulo 256 and touches nothing else |
| `AdvTemplates.BlockLoop` | Inc/cryptopp700/adv-simd.h:1097-1121 | The tail performs all remaining steps and returns what is left below one block |
| `AdvTemplates.AdjustmentIsExact` | Inc/cryptopp700/adv-simd.h:878-895 | After the word loops the adjusted pointers stand on the first unprocessed 8-octet block and the increments are those of 8-octet blocks, in both directions |
| `AdvTemplates.Tail64` | Inc/cryptopp700/adv-simd.h:878-931 | From word-sized strides the 64-bit tail processes exactly the remaining blocks |
| `AdvTemplates.SafeIsSafeFor` | Inc/cryptopp700/adv-simd.h:970-1095 | A layout safe over the whole call is safe for batches of any size |
| `AdvWindows.BatchIsSerialWithin` | Inc/cryptopp700/adv-simd.h:972-1050 | A batch of w words equals its blocks one at a time as soon as no block is overtaken within 16 w octets |
| `AdvWindows.WindowRun` | Inc/cryptopp700/adv-simd.h:1097-1119 | The serial run over some blocks is the serial run of a smaller call on their part of the areas |
| `AdvBatches.BatchIsSerial` | Inc/cryptopp700/adv-simd.h:972-1050 | In a safe layout a batch of any number of words leaves the memory of the serial loop, also with the counter under the last block it stores |
| `AdvBatches.StoredDone` | Inc/cryptopp700/adv-simd.h:1036-1047 | After n stores exactly the blocks of n words have their values, the counter has moved on, all else is untouched, whatever the overlap of moving areas |
| `AdvBatches.WordIsValues` | Inc/cryptopp700/adv-simd.h:743-819 | The low and high part of a batch word are the values of the blocks they belong to, in both directions and for both block sizes |
| `AdvBlocks.SerialOutcome` | Inc/cryptopp700/adv-simd.h:1097-1119 | In a safe layout the serial loop writes each block once with the value of the memory before the run, moves the counter by the number of blocks, and changes nothing else |
| `AdvBlocks.DoneIsUnique` | Inc/cryptopp700/adv-simd.h:1097-1119 | Block values, counter and untouched rest determine the memory |
| `AdvBlocks.SelfMaskedOutcome` | Inc/cryptopp700/adv-simd.h:1102-1113 | An input that is its own mask before the cipher keeps its values in every layout |
| `AdvBlocks.RunTouches` | Inc/cryptopp700/adv-simd.h:1097-1119 | A run touches nothing but its own output blocks and the last octet of a counter |
| `AdvBlocks.SerialRunSplit` | Inc/cryptopp700/adv-simd.h:1097-1119 | Serial runs compose |
| `AdvBlocks.AheadIsNoOverlap` | Inc/cryptopp700/adv-simd.h:960-968 | Comparing the two start addresses is equivalent to: no output block overlaps a later block of the area read |
| `AdvBlocks.StepStoresValue` | Inc/cryptopp700/adv-simd.h:1100-1113 | After any number of blocks of a safe run the next step stores the value computed from the original memory |
| `Lanes.AddToTop` | Inc/cryptopp700/adv-simd.h:946-947 | Adding at the top octet of a little-endian lane changes only that octet, modulo 256 |
| `Lanes.AddOneIs` | Inc/cryptopp700/adv-simd.h:977-984 | The 128-bit constant moves only octet 15, by one |
| `Lanes.AddTwoIs` | Inc/cryptopp700/adv-simd.h:746-756 | The 64-bit constant moves both halves by two, in 32-bit and in 64-bit lanes alike |
| `BlockModes.EveryBlockOnce` | Inc/cryptopp700/adv-simd.h:936-1122 | A safe call writes each block once with its value from the memory before the call, whatever the batches |
| `BlockModes.CallIs` | Inc/cryptopp700/adv-simd.h:936-1122 | In a safe layout, whatever the batches and the direction: the output block at an offset is f(input block at it, or the counter with its last octet i further), with the mask at it before f, after f, or absent, all read from the memory before the call; in reverse the blocks are counted from behind the remainder |
| `BlockModes.CbcDecryptInPlace` | Inc/cryptopp700/adv-simd.h:960-1121 | In place, in reverse, with the mask one block behind, every block becomes D(block) xor the previous block of the original buffer, for every mix of batch sizes |
| `BlockModes.CbcRoundTrip` | Inc/cryptopp700/adv-simd.h:960-1121 | Such a call turns CBC ciphertext behind its initial value into the plaintext |
| `BlockModes.CbcEncrypts` | Inc/cryptopp700/adv-simd.h:1097-1121 | The forward serial call with the mask before the cipher and one block behind the output leaves E(plaintext xor ciphertext before it) in every block, from plaintext in place or elsewhere |
| `BlockModes.CbcComposes` | Inc/cryptopp700/adv-simd.h:960-1121 | Decrypting in place what that call encrypted gives every plaintext block, for any batches |
| `BlockModes.CbcInPlaceRestores` | Inc/cryptopp700/adv-simd.h:960-1121 | Encrypting and decrypting in place restores the whole memory |
| `BlockModes.ForwardInPlaceDiffers` | Inc/cryptopp700/adv-simd.h:1052-1121 | The same areas in forward direction: batch and serial results, and that they agree if and only if the first ciphertext block equals the first plaintext block |
| `BlockModes.CounterMode` | Inc/cryptopp700/adv-simd.h:975-1121 | Block i is masked with the transform of the counter with last octet i further modulo 256, and the stored counter ends n further, for any batch split |
| `BlockModes.CounterRoundTrip` | Inc/cryptopp700/cryptlib.h:867-888 | Masking what was masked from the same counter restores it, even with other batch sizes and areas |
| `BlockModes.StationaryIsMac` | Inc/cryptopp700/adv-simd.h:1097-1121 | With one stationary block as input and output and the message as mask before the cipher, the serial loop leaves the CBC-MAC fold over all blocks there and touches nothing else |
| `XorBlocks.XorCancels` | Inc/cryptopp700/adv-simd.h:1020-1034 | Masks that give the same result on a string are the same |
| `XorBlocks.XorByteIs` | Inc/cryptopp700/adv-simd.h:1020-1034 | A bit of the masked octet is set exactly when it is set in one of the two octets and not in the other |
| `CarryAdd.AddDigest` | Inc/cryptopp700/drbg.h:445-471 | V becomes (V + w) modulo 2^(8 seedlen) |
| `CarryAdd.PropagateCarry` | Inc/cryptopp700/drbg.h:465-470 | From any partial sum the carry loop completes the sum modulo the range |
| `CarryAdd.LowBytewise` | Inc/cryptopp700/drbg.h:541-547 | The eight low columns amount to the four low words' sum, with a carry of at most 3 |
| `CarryAdd.LowWord128` | Inc/cryptopp700/drbg.h:505-517 | The wide addition leaves the same columns and carry |
| `CarryAdd.LowSplit32` | Inc/cryptopp700/drbg.h:521-538 | Two 32-bit halves with a carry between them leave the same columns and carry |
| `CarryAdd.MiddleColumns` | Inc/cryptopp700/drbg.h:550-555 | The loop over V, C and the digest extends the sum and keeps the carry at most 3 |
| `CarryAdd.HighColumns` | Inc/cryptopp700/drbg.h:557-562 | The loop over V and C completes the sum modulo the range |
| `CarryAdd.AddState` | Inc/cryptopp700/drbg.h:489-566 | V becomes (V + C + h + reseed counter) modulo 2^(8 seedlen), the same in all three builds |
| `HashDrbg.MixedIsModularSum` | Inc/cryptopp700/drbg.h:445-471 | Additional input adds one digest to V modulo 2^(8 seedlen) |
| `HashDrbg.UpdateIsModularSum` | Inc/cryptopp700/drbg.h:489-566 | After every request, with or without additional input, V has the value the standard's steps 4 to 7 give from V after step 2 |
| `HashDrbg.RunInvariant` | Inc/cryptopp700/drbg.h:376-569 | Over every run after an instantiation V and C keep SEEDLENGTH, the counter is 1 plus the requests served since the last seeding, and never exceeds the limit |
| `HashDrbg.ExhaustedStaysSo` | Inc/cryptopp700/drbg.h:434-436 | At the limit any number of requests leaves the state unchanged |
| `HashDrbg.ShorterRequestIsPrefix` | Inc/cryptopp700/drbg.h:473-487 | From one state a shorter request gets a prefix of a longer one, and both leave the same state |
| `HashDrbg.DfCounterDoesNotWrap` | Inc/cryptopp700/drbg.h:577-598 | Up to 255 digests every block of the derivation carries its number in one octet |
| `HashDrbg.DerivationIs` | Inc/cryptopp700/drbg.h:573-600 | Every block of the derivation, cut or whole, is the digest of its number in one octet (modulo 256), the length in bits in four octets, and the input |
| `HashDrbg.InstantiateIs` | Inc/cryptopp700/drbg.h:376-401 | In digests: V is derived from entropy, nonce and personalization in this order, C from the octet 0 and V, the counter is 1; below the security strength nothing changes |
| `HashDrbg.ReseedIs` | Inc/cryptopp700/drbg.h:405-428 | In digests: V is derived from the octet 1, the old V, entropy and additional input in this order, C from the octet 0 and V; below the security strength nothing changes |
| `HashDrbg.GenerateIs` | Inc/cryptopp700/drbg.h:432-569 | From V after step 2, given by its value alone: the next V is V + C + H(3, V) + counter modulo 2^(8 seedlen), C stays, the counter grows by one; from 2^31 - 1 on and beyond 65536 octets nothing changes |
| `HashDrbg.OutputIs` | Inc/cryptopp700/drbg.h:473-487 | For every i block i of the output is the digest of the string with value V + i modulo 2^(8 seedlen), where V is the value after step 2 |
| `HashDrbg.ShortOutputIs` | Inc/cryptopp700/drbg.h:480-484 | A request of at most one digest gets the digest of V itself, cut |
| `HashDrbg.HashUpdate` | Inc/cryptopp700/drbg.h:573-600 | The output is the standard's Hash_df of the concatenated inputs, for every length |
| `HashDrbg.IncrementCounterByOne` | Inc/cryptopp700/misc.h:1108-1113 | The buffer's value grows by one modulo its range although the loop stops early |
| `HashDrbg.HashGen` | Inc/cryptopp700/drbg.h:473-487 | The output is the truncated concatenation of H(V), H(V+1), H(V+2), ...; `OutputIs` says which digest is where |
| `HashDrbg.Generator.Create` | Inc/cryptopp700/drbg.h:206-212 | Without entropy an unseeded generator with counter zero; with entropy the instantiated state, or no generator when it is refused |
| `HashDrbg.Generator.DrbgInstantiate` | Inc/cryptopp700/drbg.h:376-401 | The state becomes the standard's, or the request is refused and the whole state is unchanged |
| `HashDrbg.Generator.DrbgReseed` | Inc/cryptopp700/drbg.h:405-428 | The same for reseeding from the old V |
| `HashDrbg.Generator.HashGenerate` | Inc/cryptopp700/drbg.h:432-569 | Output and next state are the standard's; a refused request changes neither state nor output |
| `HmacDrbg.RunInvariant` | Inc/cryptopp700/drbg.h:606-689 | Over every run after an accepted instantiation or reseeding K and V keep the digest size, the counter is 1 plus the requests served since the last seeding, within the limit |
| `HmacDrbg.ShorterRequestIsPrefix` | Inc/cryptopp700/drbg.h:672-685 | From one state a shorter request gets a prefix of a longer one |
| `HmacDrbg.NextDependsOnBlocks` | Inc/cryptopp700/drbg.h:676-688 | Requests of equally many digests leave the same state |
| `HmacDrbg.NullIsUnused` | Inc/cryptopp700/drbg.h:703-708 | For every request size absent additional input gives the same output whatever length comes with it |
| `HmacDrbg.NullWithLengthExactlyWhen` | Inc/cryptopp700/drbg.h:718-741 | For every request size the next state is the same with a length as without, for all keyed hashes and states, if and only if the length is zero or the request is refused |
| `HmacDrbg.InstantiateIs` | Inc/cryptopp700/drbg.h:606-629 | From K of zeros and V of ones: K1 = mac(K, V, 0, data), V1 = mac(K1, V), K2 = mac(K1, V1, 1, data), V2 = mac(K2, V1) with data in the order entropy, nonce, personalization; only K1 and V1 when all lengths are zero; unchanged below the security strength |
| `HmacDrbg.ReseedIs` | Inc/cryptopp700/drbg.h:633-651 | The same four keyed digests from the old K and V, with entropy and additional input |
| `HmacDrbg.GenerateIs` | Inc/cryptopp700/drbg.h:655-689 | For every run of keyed digests from V after step 2, one for each piece of output: the output is cut from them, and the final update is the four keyed digests from the last of them, or two without additional length; refused requests change nothing |
| `HmacDrbg.Generator.HmacUpdate` | Inc/cryptopp700/drbg.h:693-741 | K and V become K2 = mac(K1, V1, 1, data) and mac(K2, V1), where K1 = mac(K, V, 0, data) and V1 = mac(K1, V); they stay K1 and V1 exactly when all lengths are zero |
| `HmacDrbg.Generator.ChainOut` | Inc/cryptopp700/drbg.h:672-685 | The output is the truncated chain V1, V2, ... of keyed digests, and V ends at the last one used |
| `HmacDrbg.Generator.Create` | Inc/cryptopp700/drbg.h:319-325 | Without entropy an unseeded generator with counter zero; with entropy the instantiated state, or no generator when it is refused |
| `HmacDrbg.Generator.DrbgInstantiate` | Inc/cryptopp700/drbg.h:606-629 | The state becomes the standard's, or the request is refused without a change |
| `HmacDrbg.Generator.DrbgReseed` | Inc/cryptopp700/drbg.h:633-651 | The same for reseeding |
| `HmacDrbg.Generator.HmacGenerate` | Inc/cryptopp700/drbg.h:655-689 | Output and next state are the standard's; a refused request changes neither |
| `Groups.PowMul` | Inc/cryptopp700/pubkey.h:844-854 | Powers of powers multiply exponents |
| `Groups.PowMod` | Inc/cryptopp700/pubkey.h:836-842 | Exponents of the generator count modulo its order |
| `Groups.PowInjective` | Inc/cryptopp700/pubkey.h:836-842 | In prime order, powers of a generator other than the identity are equal if and only if the exponents are congruent |
| `Numbers.InverseMod` | Inc/cryptopp700/integer.h:656-662 | The result is an inverse below n, or zero and then none exists |
| `Numbers.PrimeInverse` | Inc/cryptopp700/integer.h:656-662 | Modulo a prime every non-multiple has an inverse and InverseMod finds it |
| `Signatures.CascadeExponent` | Inc/cryptopp700/pubkey.h:1074-1084 | With y = g^x, g^u1 y^u2 is the generator to u1 + x u2 |
| `Signatures.SignGdsa` | Inc/cryptopp700/gfpcrypt.h:201-208 | r and s satisfy k s = e + x r modulo q |
| `Signatures.GdsaAccepts` | Inc/cryptopp700/gfpcrypt.h:210-221 | With y = g^x an honest signature verifies if and only if r and s are not zero |
| `Signatures.GdsaCommitment` | Inc/cryptopp700/gfpcrypt.h:210-221 | The element the verifier reconstructs is g^k if, and for g other than the identity only if, the signing equation holds |
| `Signatures.GdsaAcceptsExactlyWhen` | Inc/cryptopp700/gfpcrypt.h:210-221 | For every e, r and s and y = g^x: accepted if and only if r and s are between 1 and q - 1 and r is what g to (e + x r) / s converts to, modulo q |
| `Signatures.GdsaOtherMessage` | Inc/cryptopp700/gfpcrypt.h:210-221 | An honest signature for e is accepted for e' if and only if g to k + (e' - e) / s converts to the same number modulo q as g^k; for g other than the identity these are the same element only if e' = e modulo q |
| `Signatures.SignEcgdsa` | Inc/cryptopp700/gfpcrypt.h:396-404 | s is (k r - e) x modulo q, also when the difference is negative |
| `Signatures.EcgdsaAccepts` | Inc/cryptopp700/eccrypto.h:465-472 | With the public key of MakePublicKey, g to the inverse of x, an honest ECGDSA signature verifies if and only if r and s are not zero |
| `Signatures.EcgdsaCommitment` | Inc/cryptopp700/gfpcrypt.h:406-417 | The reconstructed element is g^k if, and for g other than the identity only if, the signing equation holds |
| `Signatures.EcgdsaAcceptsExactlyWhen` | Inc/cryptopp700/gfpcrypt.h:406-417 | For every e, r and s and y = g to 1 / x: accepted if and only if r and s are between 1 and q - 1 and r is what g to (e + s / x) / r converts to, modulo q |
| `Signatures.EcgdsaOtherMessage` | Inc/cryptopp700/gfpcrypt.h:406-417 | The same for an honest ECGDSA signature, with the exponent k + (e' - e) / r |
| `Signatures.SignNr` | Inc/cryptopp700/gfpcrypt.h:437-443 | s + x r = k modulo q |
| `Signatures.NrAccepts` | Inc/cryptopp700/gfpcrypt.h:445-453 | An honest signature verifies if and only if r is not zero; a zero s is accepted |
| `Signatures.NrCommitment` | Inc/cryptopp700/gfpcrypt.h:445-453 | g^s y^r is g^k if, and for g other than the identity only if, the signing equation holds |
| `Signatures.NrAcceptsExactlyWhen` | Inc/cryptopp700/gfpcrypt.h:445-453 | For every e, r and s and y = g^x: accepted if and only if r is between 1 and q - 1, s is below q, and r is e plus what g to s + x r converts to, modulo q |
| `Signatures.NrOtherMessage` | Inc/cryptopp700/gfpcrypt.h:445-453 | An honest signature for e is accepted for e' if and only if e' = e modulo q |
| `SignatureScheme.RawSign` | Inc/cryptopp700/pubkey.h:1564-1572 | For every algorithm the result is an honest signature of the commitment g^k |
| `SignatureScheme.SignAndRestart` | Inc/cryptopp700/pubkey.h:1584-1641 | The octets written read back as r and s, in this order, of an honest signature of the message the accumulator was fed, with the drawn or the deterministic nonce; verification of that message accepts exactly when the parts that must not be zero are not; the accumulator starts over |
| `SignatureScheme.SignRepresentative` | Inc/cryptopp700/pubkey.h:1607-1622 | For every representative the nonce, an honest r and s, and what their verification says |
| `SignatureScheme.Accumulator.Update` | Inc/cryptopp700/pubkey.h:458-462 | The message grows by the input, and the flag says whether it is empty |
| `SignatureScheme.Accumulator.TakeRepresentative` | Inc/cryptopp700/pubkey.h:1593-1600 | The representative is that of the whole message fed, and the accumulator is empty afterwards |
| `SignatureScheme.SignatureRoundTrip` | Inc/cryptopp700/pubkey.h:1633-1635 | Writing r and s at the length of q, reading them back and verifying accepts exactly when the parts that must not be zero are not, for all four algorithms |
| `SignatureScheme.AcceptsExactlyWhen` | Inc/cryptopp700/pubkey.h:1669-1701 | Any octets of full length are accepted if and only if the first half reads as r and the second as s in range, and r is the conversion of the power of g that each algorithm prescribes |
| `SignatureScheme.AcceptsOnlyItsMessage` | Inc/cryptopp700/pubkey.h:1683-1701 | The octets of an honest signature are accepted for exactly the representatives congruent to its own modulo q: for Nyberg-Rueppel always, for the others when the conversion separates the powers of g |
| `SignatureScheme.Nonce` | Inc/cryptopp700/pubkey.h:1607-1618 | The nonce lies between 1 and q - 1; for deterministic signers it is the first acceptable candidate |
| `SignatureScheme.Accumulator.InputSignature` | Inc/cryptopp700/pubkey.h:1669-1681 | The accumulator holds the first half of the octets and the value of the second |
| `SignatureScheme.Accumulator.VerifyAndRestart` | Inc/cryptopp700/pubkey.h:1683-1701 | The decision is the one about the message fed and the octets that were read, and the accumulator starts over |
| `Rfc6979.Int2OctetsIsFixedLength` | Inc/cryptopp700/gfpcrypt.h:342-365 | Cutting or padding the minimal encoding gives the big-endian form of the requested length |
| `Rfc6979.Bits2IntBound` | Inc/cryptopp700/gfpcrypt.h:329-338 | The integer read is below 2^qlen |
| `Rfc6979.LeftmostBits` | Inc/cryptopp700/gfpcrypt.h:329-338 | The integer read is the leftmost qlen bits: the value divided by 2 to the number of bits dropped |
| `Rfc6979.Bits2OctetsReduces` | Inc/cryptopp700/gfpcrypt.h:369-374 | For every string and every q, one subtraction suffices: the result is bits2int modulo q in as many octets as q has |
| `Rfc6979.MessageOctetsAreLeftmost` | Inc/cryptopp700/gfpcrypt.h:250-253 | What enters for e is the leftmost qlen bits of its own octets, reduced modulo q, in as many octets as q has |
| `Rfc6979.MessageOctetsWholeOctets` | Inc/cryptopp700/gfpcrypt.h:250-253 | When qlen is a whole number of octets, every e below 2^qlen enters as e modulo q |
| `Rfc6979.MessageOctetsExactlyWhen` | Inc/cryptopp700/gfpcrypt.h:250-253 | For every e below 2^qlen the standard's octets come out if and only if e is zero, or its octets do not exceed the bits of q, or what is shifted off amounts to q |
| `Rfc6979.MessageOctetsCanLoseBits` | Inc/cryptopp700/gfpcrypt.h:250-253 | q = 7, e = 5: all bits of e are shifted off |
| `Rfc6979.FillCandidate` | Inc/cryptopp700/gfpcrypt.h:299-308 | The candidate buffer is the truncated V chain, and V ends at the last digest used |
| `Rfc6979.GenerateRandom` | Inc/cryptopp700/gfpcrypt.h:244-325 | The result lies in [1, q-1] and is the first in-range candidate of the K and V chain |
| `Rfc6979.NonceIs` | Inc/cryptopp700/gfpcrypt.h:250-324 | The nonce in keyed digests: K1 = mac(zeros, ones, 0, x, h), V1 = mac(K1, ones), K2 = mac(K1, V1, 1, x, h), V2 = mac(K2, V1), with x in as many octets as q has when it is below q; each attempt gathers a run of keyed digests from V and takes the leftmost bits; after every attempt but the last k is out of range, K = mac(K, V, 0) and V = mac(K, V); the last k is the nonce |
| `Rfc6979.NonceIsUnique` | Inc/cryptopp700/gfpcrypt.h:295-322 | At most one value is the first in-range candidate |
| `Mqv.BothRolesAgree` | Inc/cryptopp700/fhmqv.h:124-238 | Honest client and server with accepted keys both succeed and compute the same value, derived from g^((x + d a)(y + e b)) and one transcript, in FHMQV and in HMQV |
| `Mqv.RoleComputes` | Inc/cryptopp700/hmqv.h:123-241 | What one honest role computes is determined by the exponents and the shared transcript |
| `Mqv.AgreedIs` | Inc/cryptopp700/fhmqv.h:189-231 | For either role and honest keys, in digests: d and e are the values of the first ((bits(q) + 1) / 2 + 7) / 8 octets of the digests of XX YY AA BB and YY XX AA BB, for HMQV of XX BB and YY AA; the agreed value is the digest of the minimal octets of g^((x + d a)(y + e b)), for FHMQV followed by XX YY AA BB; where more octets are asked for, each block is the digest of the one before |
| `Mqv.ShortDigest` | Inc/cryptopp700/hmqv.h:250-286 | Up to one digest such a string is the digest itself, cut |
| `Mqv.RefusedExactlyWhen` | Inc/cryptopp700/hmqv.h:178-186 | The call succeeds if and only if the other side's static key decodes to an element valid at level 3 or 1 as asked for, and its ephemeral key to one valid at level 3 |
| `Mqv.SigmaIs` | Inc/cryptopp700/fhmqv.h:201-229 | In either role sigma is g^((x + d a)(y + e b)) although the own exponent was reduced modulo q |
| `Mqv.SharedElement` | Inc/cryptopp700/fhmqv.h:204-228 | (g^eph (g^stat)^c)^(m mod q) = g^((eph + stat c) m) |
| `Mqv.HashInto` | Inc/cryptopp700/fhmqv.h:242-278 | Exactly the requested octets are filled: the digest of the input, then digests of the block before, truncated |
| `Mqv.LastBlock` | Inc/cryptopp700/hmqv.h:277-286 | What the tail loop reads back is the complete block written last |
| `Mqv.Domain.Raise` | Inc/cryptopp700/hmqv.h:203-233 | The role's branch computes the role's shared element |
| `Mqv.Domain.Agree` | Inc/cryptopp700/fhmqv.h:124-238 | Success exactly when both keys of the other side decode and validate; the agreed value then, an untouched buffer otherwise |
| `Mqv.Domain.GenerateStaticPrivateKey` | Inc/cryptopp700/fhmqv.h:78-82 | The exponent survives its encoding at the length of q |
| `Mqv.Domain.GenerateStaticPublicKey` | Inc/cryptopp700/fhmqv.h:86-93 | The octets have the element's size and decode to g to the private exponent |
| `Mqv.Domain.GenerateEphemeralPrivateKey` | Inc/cryptopp700/fhmqv.h:99-106 | The exponent can be read from the front and its public element from the rest |
| `Mqv.Domain.GenerateEphemeralPublicKey` | Inc/cryptopp700/fhmqv.h:109-113 | Behind an honest exponent the octets decode to its public element, and exponent and octets make up the key |
| `ElGamal.RoundTrip` | Inc/cryptopp700/elgamal.h:40-90 | For every plaintext up to the maximum, every filler and every key that is a unit modulo the prime, the ciphertext has the announced length, and unmasking and unpadding give the plaintext and its length |
| `ElGamal.BlockBelowModulus` | Inc/cryptopp700/elgamal.h:64-69 | A padded block is below the modulus |
| `ElGamal.UnmaskMask` | Inc/cryptopp700/elgamal.h:69-81 | Multiplying by the key and by its inverse modulo p restores every number below p |
| `ElGamal.MaskedIs` | Inc/cryptopp700/elgamal.h:60-69 | The ciphertext is key times block modulo p, below p and in as many octets |
| `ElGamal.UnmaskedExactlyWhen` | Inc/cryptopp700/elgamal.h:81 | For every ciphertext, honest or not, the number decryption works on is the only one below p that the key takes to it |
| `ElGamal.UnpadExactlyWhen` | Inc/cryptopp700/elgamal.h:83-89 | A number is decoded if and only if its low octet does not exceed the maximum; the plaintext is as many octets above it |
| `ElGamal.MaskingIsInjective` | Inc/cryptopp700/elgamal.h:58-70 | Under one key different plaintexts have different ciphertexts, whatever the fillers |
| `ElGamal.MaxPlaintextFits` | Inc/cryptopp700/elgamal.h:49-56 | The maximum leaves room for the padding if and only if the modulus has three octets or more |
| `ElGamal.SymmetricEncrypt` | Inc/cryptopp700/elgamal.h:58-70 | The buffer receives the masked block of filler, plaintext and length octet |
| `ElGamal.SymmetricDecrypt` | Inc/cryptopp700/elgamal.h:72-90 | Result and buffer in every case, including the octet overwritten when the length octet is refused |
| `ElGamalScheme.SchemeRoundTrip` | Inc/cryptopp700/pubkey.h:1775-1836 | What is encrypted to g^a decrypts with a to the plaintext and its length, for every ephemeral exponent and filler, with either subgroup check |
| `ElGamalScheme.CiphertextIs` | Inc/cryptopp700/pubkey.h:1815-1835 | A ciphertext to g^a decodes to g^x in front, and behind is g^(a x) times the value of filler, plaintext and length octet, modulo the prime |
| `ElGamalScheme.DecryptsExactlyWhen` | Inc/cryptopp700/pubkey.h:1775-1802 | Any octets yield this plaintext if and only if the element in front passes the subgroup check, the rest has the length of the modulus, and the block the key takes to the rest ends in this plaintext and its length |
| `ElGamalScheme.SharedSecret` | Inc/cryptopp700/pubkey.h:2088-2109 | Encryptor and decryptor agree on one element |
| `ElGamalScheme.HonestElementPasses` | Inc/cryptopp700/pubkey.h:2117-2125 | Every power of the generator passes the subgroup check |
| `ElGamalScheme.KeyIsUnit` | Inc/cryptopp700/elgamal.h:28-32 | The derived key is read back as the agreed element, hence invertible |
| `ElGamalScheme.Encrypt` | Inc/cryptopp700/pubkey.h:1815-1835 | The ciphertext is the encoded ephemeral element followed by the masked block |
| `ElGamalScheme.Decrypt` | Inc/cryptopp700/pubkey.h:1775-1802 | Plaintext and result are those of the ciphertext's parts; a bad element fails |
| `Asn1.RoundTrip` | Inc/cryptopp700/asn.h:456-536 | An encoded INTEGER or ENUMERATED decodes to itself, with the following octets untouched, if and only if it is in the decoder's range |
| `Asn1.BooleanRoundTrip` | Inc/cryptopp700/asn.h:461-465 | A BOOLEAN decodes to its truth value; exactly 0 and 255 come back as they were |
| `Asn1.EncodingIsInjective` | Inc/cryptopp700/asn.h:456-481 | Equal encodings under one tag mean equal integers |
| `Asn1.MinimalIsTwosComplement` | Inc/cryptopp700/asn.h:466-476 | The contents have the value, no sign bit, and first nine bits neither all zero nor all one (X.690, 8.3.2) |
| `Asn1.MinimalIsShortest` | Inc/cryptopp700/asn.h:466-476 | No shorter string without a sign bit has the value, and no other of the same length |
| `Asn1.LengthRoundTrip` | Inc/cryptopp700/asn.h:84-96 | A definite length is read back with the following octets untouched |
| `Asn1.DefiniteExactlyWhen` | Inc/cryptopp700/asn.h:90-96 | A string starts with a definite length n if and only if it starts with the octet n below 128, or with 128 + k and k octets of value n |
| `Asn1.DerLengthIs` | Inc/cryptopp700/asn.h:84-88 | One octet up to 127, and from 128 on a long form without a leading zero |
| `Asn1.DerLengthIsShortest` | Inc/cryptopp700/asn.h:84-88 | No definite form of the length is shorter, and no other one as short |
| `Asn1.FillBuffer` | Inc/cryptopp700/asn.h:468-470 | The shifted octets are the big-endian form behind an untouched first octet |
| `Asn1.SignificantOctets` | Inc/cryptopp700/asn.h:471-473 | The loop stops at the minimal encoding's length |
| `Asn1.PrepareContents` | Inc/cryptopp700/asn.h:459-476 | The contents octets are the shortest form, or the one octet of a BOOLEAN |
| `Asn1.DerEncodeUnsigned` | Inc/cryptopp700/asn.h:456-481 | Exactly the encoding is appended, and the count returned is the number of octets appended |
| `Asn1.StripZeros` | Inc/cryptopp700/asn.h:521-528 | Dropping zeros keeps the value, and overflow is reported exactly when the value does not fit the type |
| `Asn1.Accumulate` | Inc/cryptopp700/asn.h:530-532 | The shifts give the big-endian value and never overflow the type |
| `Asn1.BerDecodeUnsigned` | Inc/cryptopp700/asn.h:492-536 | The decoder accepts exactly what the parser accepts, returns its value and consumes exactly its octets |
| `Asn1.ParsesExactlyWhen` | Inc/cryptopp700/asn.h:492-536 | A string is accepted with a value and a rest if and only if it is the tag, a length in any definite form, contents of that length with this value in range of type and bounds, and the rest, with one octet for a BOOLEAN and at least one for an INTEGER or ENUMERATED |
| `Asn1.BerLengthDecode` | Inc/cryptopp700/asn.h:90-96 | Short, long, indefinite and malformed lengths, and the octets behind a definite one |
| `Hkdf.DeriveKey` | Inc/cryptopp700/hkdf.h:124-174 | Success exactly up to 255 digests; the buffer then holds the expansion of the extracted key, and is untouched otherwise |
| `Hkdf.DerivedKeyIs` | Inc/cryptopp700/hkdf.h:133-171 | In keyed digests: PRK = mac(salt, secret), with zeros for an absent salt; T(i) = mac(PRK, T(i-1), info, i) from the empty T(0); the key is cut from T(1), T(2), ... |
| `Hkdf.ExpandInto` | Inc/cryptopp700/hkdf.h:150-171 | The buffer is the truncated concatenation of T(1), T(2), ... of RFC 5869, section 2.3 |
| `Hkdf.OutputIsOfStandardBlocks` | Inc/cryptopp700/hkdf.h:41-43 | Every block of a permitted output is one the standard defines, and its counter octet does not wrap |
| `Hkdf.ShorterKeyIsPrefix` | Inc/cryptopp700/hkdf.h:152-171 | A shorter key is a prefix of a longer one |
| `Dmac.TagOfChunks` | Inc/cryptopp700/dmac.h:71-91 | The full tag over any chunking is E2 of the CBC-MAC of the padded concatenation, and the object is ready for the next message |
| `Dmac.ChunkingDoesNotMatter` | Inc/cryptopp700/dmac.h:72-76 | The register after any chunking is that of the concatenation |
| `Dmac.AbsorbIsFold` | Inc/cryptopp700/dmac.h:74 | Octets fed one by one amount to the block fold reg = E(reg xor block) |
| `Dmac.AbsorbCounter` | Inc/cryptopp700/dmac.h:75 | The counter is the fed length modulo the block size |
| `Dmac.PaddingCompletes` | Inc/cryptopp700/dmac.h:83-86 | Whatever was fed, the padding octets bring the register to a block boundary with the MAC of the padded message in it |
| `Dmac.InnerMacIs` | Inc/cryptopp700/dmac.h:79-91 | The inner MAC is the last of a run of registers from zeros, each the encryption of the one before masked with its block, over the blocks of the message followed by b octets of value b |
| `Dmac.PaddedLength` | Inc/cryptopp700/dmac.h:83-86 | The padded length is a positive multiple of the block size |
| `Dmac.PaddingIsInjective` | Inc/cryptopp700/dmac.h:83-86 | Different messages are padded differently |
| `Dmac.DmacBase.constructor` | Inc/cryptopp700/dmac.h:61-69 | A fresh object with both ciphers under their sub-keys holds the empty message |
| `Dmac.GenerateSubKeys` | Inc/cryptopp700/dmac.h:94-102 | The two halves of the buffer are the encryptions of the blocks 0 and 1 |
| `Dmac.SubKeysDiffer` | Inc/cryptopp700/dmac.h:94-102 | Under a permutation the two ciphers never get the same key |
| `Dmac.DmacBase.Update` | Inc/cryptopp700/dmac.h:72-76 | The message fed so far grows by the input, and register and counter stay those of that message |
| `Dmac.DmacBase.TruncatedFinal` | Inc/cryptopp700/dmac.h:79-91 | Refused sizes change nothing; otherwise a whole block of memory at the caller's address becomes the second cipher of the cut inner MAC and the octets behind it, and the object starts over with counter zero |
| `Dmac.DmacBase.PadAndFinish` | Inc/cryptopp700/dmac.h:83-87 | The cut MAC of the padded message at the caller's address, other memory untouched |
| `Dmac.ShortTagIsPrefixExactlyWhen` | Inc/cryptopp700/dmac.h:87-88 | For every inner MAC and every permitted size: the short tag is the prefix of the full one, for all second ciphers and all contents of the caller's memory, if and only if it is empty or the full tag |
| `Shuffle.DrawsCorrespondToPermutations` | Inc/cryptopp700/cryptlib.h:1402-1411 | Up to 2^32 distinct elements draw sequences and permutations correspond one to one |
| `Shuffle.ReachableExactlyUpTo32Bits` | Inc/cryptopp700/cryptlib.h:1408-1410 | Every permutation of an array of distinct elements is reachable if and only if it has at most 2^32 elements |
| `Shuffle.LargeArraysMissPermutations` | Inc/cryptopp700/cryptlib.h:1408-1410 | Beyond that the last element never comes first |
| `Shuffle.Shuffle` | Inc/cryptopp700/cryptlib.h:1406-1411 | Swapping in place gives the permutation the draws stand for |
| `Shuffle.ShuffledBySwaps` | Inc/cryptopp700/cryptlib.h:1408-1410 | The result is the last of a run of sequences, each exchanging position i of the one before with the drawn offset behind it |
| `Shuffle.ShuffledIsPermutation` | Inc/cryptopp700/cryptlib.h:1406-1411 | Whatever is drawn, for every array, the result is a permutation |
| `Shuffle.DrawsAreDetermined` | Inc/cryptopp700/cryptlib.h:1409-1410 | Different draws give different permutations |
| `Shuffle.EveryPermutationIsDrawn` | Inc/cryptopp700/cryptlib.h:1409-1410 | Every permutation has its draws |

## Left out

- The NEON and ALTIVEC forms in `adv-simd.h`: the NEON loops have the shape of the SSE ones; the ALTIVEC counter path and the big-endian constants rest on lane orders in code that is not part of this model.
- `adv-simd.h` loads, masks and stores six, four or two words in straight-line code; here a short loop runs over the words of a batch. Memory is one array with three offsets, pointers are integers, and the multi-block functions act block by block.
- Counter or stationary mode with reverse direction, and stationary mode with parallel processing: they have no one-block meaning, and preconditions exclude them.
- `AdvHazards.SerialExactlyWhen`: is about pointers that move. For a counter in a parallel call the layout condition of `AdvTemplates.ProcessedIsSerial` is proved sufficient; which further overlaps of a counter with blocks in the middle of a call are harmless depends on how the length divides into batches and is not stated.
- `IncorporateEntropy` and `GenerateBlock` of the generators, which only forward, and debug assertions on the lengths of inputs. Streaming `Update` and `Final` of hashes are the digest of the concatenation.
- `HashDrbg.DfCounterDoesNotWrap`: beyond 255 digests the derivation counter wraps, as the code lets it.
- `Rfc6979.GenerateRandom`: the retry loop ends only if some candidate is in range; a ghost parameter names one, because nothing in an arbitrary keyed hash guarantees it. Equality with the standard on raw hash octets is not claimed, since the representative is encoded again at its minimal size.
- `SignatureScheme.Accumulator.TakeRepresentative`: the message encoding is a function of the message fed and of whether it is empty, and computing it restarts the hash; its body, recoverable messages and encodings that use random input are not part of this model.
- `SignatureScheme.SignAndRestart`: the random generator behind a drawn nonce is not part of this model.
- `Mqv.Domain.GenerateStaticPrivateKey`: takes the exponent as drawn between 1 and q - 1; the maximum exponent of the group parameters is not part of this model.
- `ElGamalScheme.SchemeRoundTrip`: only the variant without cofactor multiplication, the one ElGamal uses.
- `Asn1.LengthRoundTrip`: the bodies of `DERLengthEncode` and `BERLengthDecode` are not part of the headers; both follow X.690, section 8.1.3, with lengths below 2^64. The encoder's round trips and counts are for types of less than 2^64 - 1 octets.
- `Dmac.CbcMac.Update`: the bodies of the CBC-MAC functions are not part of the headers, so the class has no row above; octets are xored into the register, which is encrypted when full, and a final call starts over.
- `Dmac.DmacBase.constructor`: for ciphers that take keys as long as their blocks; for other key lengths the halves of the sub-key buffer have another size.
- `Dmac.DmacBase.TruncatedFinal`: requires that memory reaches a whole block behind the caller's address; a buffer of only the requested size that ends there is not described.
- `Numbers.InverseMod`: the integer class is not modelled beyond what its documentation says of the result.
- `Groups.PowMod`: exponentiation is by repeated multiplication; precomputation and simultaneous exponentiation are not modelled.
- Functions that are only declared in the headers: filters, base-N coders, elliptic curve addition, field arithmetic, block cipher rounds, BLAKE2, GCM, CCM and EAX.
- CRC tables, hash bit counts, point ordering and CCM length limits.
- Cryptographic strength, side channels, and the quality of random input.
