# Verified model of the immortal core

A Dafny model of the parts of the immortal repository that do real work on untrusted input, with proofs of what they
promise. Four components are modelled.

1. The Bitcoin and MuSig2 verifier of `mkt_swp_verify.rs`: byte-array scalar arithmetic modulo the curve order, MuSig2
   signing, verification and aggregation with tweaks (BIP-327), the consensus transaction parser and serialiser
   (BIP-144) and the Taproot signature messages (BIP-341, BIP-342).
2. The Ark graph verifier of the core crate and the exit verifier and recovery engine of the client crate: cycle check,
   connectivity, depth, the spend graph, the unspent-output machine over an exit sequence, persistence and release.
3. Codecs that must be exact inverses: bech32 (`nip19.rs`, BIP-173), NIP-44 version 2 payloads (`nip44.rs`) and the
   Elements transaction reader (`liquid.rs`).
4. The project subscription client (`client.rs`): connection modes, the EOSE boundary, the bounded event store and the
   cached snapshot.

How the model stands to the code:

- Loops and objects of the code are methods and classes; each is proved equal to a function on values, and the laws are
  proved about that function.
- Every wire or text format is also stated declaratively, by positions and values (modules `...Layout`), and the
  codecs are proved to accept and produce exactly it. The exit machine, the package checks and the client modes are
  stated in the same way (`ArkExitRules`, `ArkStateRules`, `ClientModes`, `ClientFields`), as is what MuSig2 hashes
  (`Musig2Hashes`).
- A curve point is its discrete logarithm modulo the order, infinity being 0, so group laws are proved rather than
  assumed. Parity, x coordinates and encodings are functions with the laws listed in `Musig2.Curve.Valid`.
- Hashes, HMAC, the ChaCha20 block function, point validity, UTF-8, URL normalisation and JSON are parameters. Binding
  results name the two strings that would collide instead of assuming that a hash is injective.
- Integers are unbounded with the code's widths written out: 64-bit checked sums, 32-bit accumulators and counters that
  wrap, byte shifts that drop bits.
- Texts are byte strings or `string`; event identifiers are numbers, which orders 64-digit lower-case hexadecimal
  strings as the code does.

Where the code falls short of what one might expect, the model keeps the code and states the exact condition:

- Across an Ark graph and its exits no outpoint is spent twice if and only if no exit spends a declared root of the
  graph (`ArkExitGraph.NoDoubleSpendIff`), and then value is conserved (`ArkExitGraph.SelectedOnceAndConserved`).
  What the graph has spent stays spent if and only if no exit creates a declared root (`ArkExitGraph.ReturnsIffRoot`).
  In general value is conserved if and only if no exit creates an output that is already unspent and has a value
  (`ArkExitOrder.ConservedExactly`). `ArkExitReissue.RootSpentTwice` is an accepted graph and plan that fail all three.
- A second EOSE drops the committed events (`ClientRuns.ManyEoses`, with `ClientRuns.SecondEoseDrops`).
- An idle witness marker is not reproduced (`TransactionCodec.ParseThenSerialize`, with
  `TransactionCodec.IdleMarkerIsDropped`).

In the exit model transaction identifiers are values, not computed hashes. Two consequences of hashing are therefore
hypotheses where they are needed: that transactions with one identifier have the same inputs
(`ArkExitGraph.NoCollision`), or that there is an order in which every exit comes after what it spends
(`ArkExitOrder.Ordered`).

Beyond the promises of the code, the bech32 checksum is shown to catch every burst of six words and every pair of
wrong words (`Bech32Sum.BurstSeen`, `Bech32Sum.PairSeen`).

`dafny verify dfyconfig.toml` checks everything.

## Model

| member | source | states |
|---|---|---|
| Scalars.SubtractBe | crates/immortal-core/src/mkt_swp_verify.rs:2189-2202 | in-place subtraction with borrow: the difference of the numbers, plus 256^N exactly when the subtrahend is larger |
| Scalars.LexGeIsNumeric | crates/immortal-core/src/mkt_swp_verify.rs:2161-2178 | comparing equal-length byte arrays lexicographically is comparing the numbers |
| Scalars.ScalarAddMod | crates/immortal-core/src/mkt_swp_verify.rs:2161-2178 | for every pair whose sum is below 2n the result is the sum modulo n; operands below n give a result below n |
| Scalars.ScalarNegateMod | crates/immortal-core/src/mkt_swp_verify.rs:2180-2187 | value and result sum to 0 modulo n, and the result is below n, zero included |
| Scalars.ScalarMultiplyPublic | crates/immortal-core/src/mkt_swp_verify.rs:2143-2159 | accepts exactly operands below n, and returns their product modulo n |
| Scalars.MultiplyByte | crates/immortal-core/src/mkt_swp_verify.rs:2143-2159 | eight double-and-add rounds consume one byte of the multiplier |
| Scalars.ScalarBytesFromHash | crates/immortal-core/src/mkt_swp_verify.rs:2204-2209 | for every 32-byte string the result is the string reduced modulo n |
| Scalars.CurveOrderIsOrder | crates/immortal-core/src/mkt_swp_verify.rs:21-24 | the curve order constant satisfies what the arithmetic needs of a modulus |
| Musig2.TweakInvariant | crates/immortal-core/src/mkt_swp_verify.rs:1945-1973 | for every tweak list the tweaked key is gacc·Q0 + tacc·G |
| Musig2.AggregateWidth | crates/immortal-core/src/mkt_swp_verify.rs:1049-1060 | the aggregate nonce has 66 bytes and reads back as the two sums, infinity included |
| Musig2.VerifiedPartial | crates/immortal-core/src/mkt_swp_verify.rs:1252-1337 | acceptance of a partial signature fixes its value |
| Musig2.FormSums | crates/immortal-core/src/mkt_swp_verify.rs:1339-1385 | accepted partial signatures sum, modulo n, to the signed nonce and challenged key of the session |
| Musig2.SignatureEquation | crates/immortal-core/src/mkt_swp_verify.rs:1339-1385 | the aggregated scalar minus e times the even key is the combined nonce up to its parity sign |
| Musig2.Completeness | crates/immortal-core/src/mkt_swp_verify.rs:1339-1396 | for all keys, nonces, tweaks and messages whose partials all verify, aggregation succeeds if and only if the combined nonce is not infinity |
| Musig2.IndexCurveIsValid | crates/immortal-core/src/mkt_swp_verify.rs:1841-1880 | the laws assumed of the curve have a model for every odd order, so no result is vacuous |
| Musig2.BigEndianNumbers | crates/immortal-core/src/mkt_swp_verify.rs:1841-1880 | 32-byte big-endian numbers are such a model for every order that fits |
| Musig2Signing.HonestPartialIsExpected | crates/immortal-core/src/mkt_swp_verify.rs:1172-1250 | under every parity and tweak combination the computed partial is the value the verifier expects |
| Musig2Signing.OwnPartialVerifies | crates/immortal-core/src/mkt_swp_verify.rs:1297-1337 | the verifier accepts the partial computed from the secrets behind the public nonce and key |
| Musig2Signing.SecretNonce.constructor | crates/immortal-core/src/mkt_swp_verify.rs:60-66 | a fresh nonce is unconsumed and holds its secrets |
| Musig2Signing.SecretNonce.Consume | crates/immortal-core/src/mkt_swp_verify.rs:102-118 | hands the secrets out once; afterwards the object is consumed and the stored secrets are zero |
| Musig2Signing.SecretNonce.SignWithAggregate | crates/immortal-core/src/mkt_swp_verify.rs:1172-1250 | consumes the nonce first; whatever is returned verifies, and an honest unused nonce in a valid session always signs |
| Musig2Signing.SecretNonce.PartialSign | crates/immortal-core/src/mkt_swp_verify.rs:1137-1170 | signs at most once, only for a session holding the nonce and key, and then verifiably; a refusal before consumption changes nothing |
| Musig2Signing.SignAll | crates/immortal-core/src/mkt_swp_verify.rs:1137-1250 | over any run of calls on one nonce object at most one returns a signature |
| Musig2Signing.TweakStepBytes | crates/immortal-core/src/mkt_swp_verify.rs:1945-1973 | one tweak on byte-array scalars is one tweak on residues, refusals included |
| Musig2Signing.KeyContextLoop | crates/immortal-core/src/mkt_swp_verify.rs:1945-1973 | the tweak loop on byte arrays computes the residue-level key context, whose start and steps `Musig2Hashes.PlainKeyIs` and `Musig2Hashes.TweakIs` state |
| Musig2Signing.AggregatePartialSignatures | crates/immortal-core/src/mkt_swp_verify.rs:1339-1385 | on byte arrays: succeeds if and only if bounds hold, every partial verifies and the combined nonce is finite, and the output satisfies the Schnorr equation |
| Musig2Signing.CurveOrderHasCurve | crates/immortal-core/src/mkt_swp_verify.rs:21-24 | the curve laws are met at the order compiled into the program, for every tagged hash |
| Musig2Hashes.KeyCoefficientIs | crates/immortal-core/src/mkt_swp_verify.rs:2216-2243 | the coefficient of every signer: 1 for holders of the first key that differs from the first, and for all others the hash of the list hash and the key, reduced modulo n; the list is given by indices |
| Musig2Hashes.ListHashBinds | crates/immortal-core/src/mkt_swp_verify.rs:2216-2230 | equal list hashes mean equal key lists, or two named strings with one hash |
| Musig2Hashes.PlainKeyIs | crates/immortal-core/src/mkt_swp_verify.rs:2245-2264 | the plain aggregate key is the sum of key times coefficient modulo n, and exists exactly when no term and not the sum is infinity |
| Musig2Hashes.TweakIs | crates/immortal-core/src/mkt_swp_verify.rs:1945-1973 | an x-only tweak is added to the even key, a plain one to the key; refused exactly when not below n or when the sum is infinity |
| Musig2Hashes.SessionHashes | crates/immortal-core/src/mkt_swp_verify.rs:1975-2043 | nonce coefficient and challenge are the reduced hashes of exactly the named strings, and the final nonce combines the two nonce sums with the coefficient, the generator standing in for infinity |
| Musig2Hashes.SessionExistsIff | crates/immortal-core/src/mkt_swp_verify.rs:1975-2043 | a session exists if and only if its sizes are in bounds, the key context exists and every nonce decodes |
| Musig2Hashes.PartialAcceptedIff | crates/immortal-core/src/mkt_swp_verify.rs:1252-1337 | a partial signature is accepted if and only if the session exists and its scalar is the signed nonce plus the challenge times the signed weighted key |
| Wire.CompactSizeExact | crates/immortal-core/src/mkt_swp_verify.rs:2494-2508 | a written compact size is read back, whatever follows |
| Wire.CompactSizeWritten | crates/immortal-core/src/mkt_swp_verify.rs:2583-2615 | an accepted compact size is the minimal encoding of its value |
| Wire.VarBytesWritten | crates/immortal-core/src/mkt_swp_verify.rs:2617-2629 | an accepted length-prefixed string is the encoding of its contents |
| Wire.ManyInjective | crates/immortal-core/src/mkt_swp_verify.rs:185-248 | lists of self-delimiting nonempty items are decoded uniquely even without a count |
| WireReader.Reader.constructor | crates/immortal-core/src/mkt_swp_verify.rs:2521-2533 | a new cursor has everything unread |
| WireReader.Reader.ReadArray | crates/immortal-core/src/mkt_swp_verify.rs:2552-2565 | the cursor advances past exactly the bytes it returns, or fails |
| WireReader.Reader.ReadSize | crates/immortal-core/src/mkt_swp_verify.rs:2583-2615 | the cursor computes the functional compact-size decoder, with the same errors |
| WireReader.Reader.ReadBytes | crates/immortal-core/src/mkt_swp_verify.rs:2617-2629 | the cursor computes the functional string decoder, with the same errors |
| TransactionCodec.ParseEncode | crates/immortal-core/src/mkt_swp_verify.rs:185-304 | every in-bounds encoding parses back to its fields |
| TransactionCodec.EncodeParse | crates/immortal-core/src/mkt_swp_verify.rs:185-248 | every accepted string is the encoding of the parsed fields, marker included |
| TransactionCodec.SerializeThenParse | crates/immortal-core/src/mkt_swp_verify.rs:185-304 | a transaction that serialises parses back to itself if and only if its witness flag is consistent |
| TransactionCodec.ParseThenSerialize | crates/immortal-core/src/mkt_swp_verify.rs:185-304 | an accepted string serialises to itself except exactly when it carries the marker and only empty stacks, when the stripped form results |
| TransactionCodec.IdleMarkerIsDropped | crates/immortal-core/src/mkt_swp_verify.rs:185-304 | for every flagged transaction with only empty stacks there is such an accepted string, and it does not serialise to itself |
| TransactionCodec.ParseInjective | crates/immortal-core/src/mkt_swp_verify.rs:185-248 | two accepted strings with equal fields are equal |
| TransactionCodec.New | crates/immortal-core/src/mkt_swp_verify.rs:154-168 | a constructed transaction has a consistent witness flag |
| TransactionCodec.SetInputWitness | crates/immortal-core/src/mkt_swp_verify.rs:170-183 | accepts exactly in-bounds stacks and indices; keeps the flag consistent and the stripped bytes unchanged |
| TransactionCodec.WitnessIndependent | crates/immortal-core/src/mkt_swp_verify.rs:306-312 | the bytes behind the transaction identifier ignore witnesses and the flag |
| TransactionReader.ParseStacks | crates/immortal-core/src/mkt_swp_verify.rs:185-248 | one witness stack per input is stored in place, as the functional reader says |
| TransactionReader.ParseBytes | crates/immortal-core/src/mkt_swp_verify.rs:185-248 | the cursor-based parser agrees with the functional one on every byte string, errors included |
| TransactionReader.SerializeBytes | crates/immortal-core/src/mkt_swp_verify.rs:250-304 | the buffer-based serialiser agrees with the functional one on every transaction, errors included |
| WireLayout.SizeIff | crates/immortal-core/src/mkt_swp_verify.rs:2494-2508 | the compact size of a number, given by which length byte stands first and the value of every following byte |
| WireLayout.StringIff | crates/immortal-core/src/mkt_swp_verify.rs:2488-2492 | a length-prefixed string: its size, then its bytes at their positions |
| TransactionLayout.ParseIff | crates/immortal-core/src/mkt_swp_verify.rs:185-248 | the parser accepts a string as a transaction if and only if every field stands at its position in the string and the limits hold |
| TransactionLayout.SerializeIff | crates/immortal-core/src/mkt_swp_verify.rs:250-304 | the serialiser returns a string if and only if it has that layout, for the transaction with or without its witnesses, within the limits |
| Taproot.ConcatInjective | crates/immortal-core/src/mkt_swp_verify.rs:501-544 | messages whose fields have equal widths are equal only field by field |
| TaprootBinding.FieldsBind | crates/immortal-core/src/mkt_swp_verify.rs:501-603 | equal shared fields mean equal transactions, or a named pair of serialised lists with one hash |
| TaprootBinding.ScriptMessageBinds | crates/immortal-core/src/mkt_swp_verify.rs:501-544 | equal script-path messages agree on version, lock time, outpoints, sequences, outputs, prevouts, index and leaf script, or name a collision |
| TaprootBinding.KeyMessageBinds | crates/immortal-core/src/mkt_swp_verify.rs:565-603 | the same for key-path messages |
| TaprootBinding.MessageLengths | crates/immortal-core/src/mkt_swp_verify.rs:501-603 | key-path messages have 175 bytes and script-path messages 212, so they never coincide |
| TaprootBinding.ScriptSighashBinds | crates/immortal-core/src/mkt_swp_verify.rs:546-563 | the same binding for script-path signature hashes, with the tagged message as a further named collision |
| TaprootBinding.KeySighashBinds | crates/immortal-core/src/mkt_swp_verify.rs:605-614 | the same binding for key-path signature hashes |
| TaprootBinding.PathsNeverCoincide | crates/immortal-core/src/mkt_swp_verify.rs:546-614 | a hash shared by the two spending paths is a collision of the two named messages |
| TaprootLayout.KeyMessageLayout | crates/immortal-core/src/mkt_swp_verify.rs:565-603 | every byte of the key-path message: epoch, type, version, lock time, the five list hashes in their places, spend type and input index; the lists are given by indices |
| TaprootLayout.ScriptMessageLayout | crates/immortal-core/src/mkt_swp_verify.rs:501-544 | the same for the script-path message, with leaf hash, key version and code separator position |
| TaprootLayout.SighashLayout | crates/immortal-core/src/mkt_swp_verify.rs:546-614 | both signature hashes are the hash of the tag hash twice and the message |
| TaprootLayout.KeyMessageIff | crates/immortal-core/src/mkt_swp_verify.rs:2351-2392 | a key-path message exists if and only if the bounds hold, the output is Taproot and no input has a script signature |
| TaprootLayout.ScriptMessageIff | crates/immortal-core/src/mkt_swp_verify.rs:2303-2349 | a script-path message exists if and only if the bounds hold, the output commits to the leaf through a control block of the leaf version, and the input has no script signature |
| ArkGraph.Visit | crates/immortal-core/src/ark.rs:665-695 | depth-first step: extends a finishing order, and reports a cycle or an index only when there is one |
| ArkGraph.RejectGraphCycles | crates/immortal-core/src/ark.rs:665-695 | Ok if and only if every parent index is in range and the parent relation is acyclic |
| ArkGraph.Depth | crates/immortal-core/src/ark.rs:711-738 | every memo entry and every result is the length of the longest parent path |
| ArkGraph.MaximumParentDepth | crates/immortal-core/src/ark.rs:711-738 | terminates on every accepted graph with the longest parent path, never 0 |
| ArkGraph.GraphIsConnected | crates/immortal-core/src/ark.rs:599-620 | true if and only if every transaction is reachable ignoring direction; fails exactly when a reachable index is out of range |
| ArkChain.BarkGraphIsSinglePath | crates/immortal-core/src/ark.rs:599-709 | if the Bark topology, acyclicity and connectivity checks all accept, the transactions form one path |
| ArkChain.SinglePathPasses | crates/immortal-core/src/ark.rs:599-709 | conversely one path passes all three checks, whichever transaction is selected |
| ArkVerify.IndexTransactions | crates/immortal-core/src/ark.rs:439-469 | builds the identifier index exactly when identifiers are distinct |
| ArkVerify.ObservedOutputMap | crates/immortal-core/src/ark.rs:650-663 | builds the output map exactly when observed outpoints are distinct |
| ArkVerify.SpendInputs | crates/immortal-core/src/ark.rs:502-529 | spends the inputs of one transaction exactly when all resolve and none repeats, linking parents and children |
| ArkVerify.CollectSpends | crates/immortal-core/src/ark.rs:498-535 | the spending loop accepts exactly when no outpoint is spent twice and every transaction resolves |
| ArkVerify.CheckSelected | crates/immortal-core/src/ark.rs:539-566 | accepts exactly when the selected output exists, is unspent and matches its terms |
| ArkVerify.CheckBounds | crates/immortal-core/src/ark.rs:437-474 | accepts exactly when counts, ordering of the declared inputs, weights and total size are within the limits |
| ArkVerify.AscendingIsDistinct | crates/immortal-core/src/ark.rs:638-646 | ascending inputs are distinct, so the separate duplicate check never decides |
| ArkVerify.VerifyArkGraph | crates/immortal-core/src/ark.rs:422-575 | accepts if and only if the operator binding and digest hold (one flag), the counts, order, weights and sizes are in bounds, the transactions form a spend DAG over exactly the declared roots, and the selected output holds; returns its depth |
| ArkVerify.RootSpentOnce | crates/immortal-core/src/ark.rs:481-535 | in an accepted graph every declared root is spent by exactly one input |
| ArkVerify.AcceptedBarkGraph | crates/immortal-core/src/ark.rs:422-575 | an accepted Bark graph is one chain of transactions |
| ArkExit.CheckedSum | crates/immortal-client/src/ark.rs:852-864 | checked 64-bit addition fails exactly when the total does not fit |
| ArkExitLaws.ConservationExact | crates/immortal-client/src/ark.rs:700-916 | after every accepted exit, what was unspent is unspent, paid as fee, or overwritten; the fee total stays within the maximum |
| ArkExitLaws.ConsumedIsSpent | crates/immortal-client/src/ark.rs:796-834 | the consumed set is exactly the fee children among the inputs so far |
| ArkExitLaws.CommittedOutputsSpent | crates/immortal-client/src/ark.rs:796-916 | every accepted plan spends the selected output in transaction 0 and every fee child exactly once |
| ArkExitLaws.ParentChain | crates/immortal-client/src/ark.rs:736-850 | each later exit names its predecessor as parent and spends one of its outputs |
| ArkExitVerify.GraphOutputMap | crates/immortal-client/src/ark.rs:918-973 | the map of unspent outputs exists exactly when no outpoint is produced twice, and is all outputs less everything spent |
| ArkExitVerify.AcceptedGraphIsDistinct | crates/immortal-client/src/ark.rs:918-973 | on every graph the verifier accepts the map exists |
| ArkExitVerify.UnspentOfAcceptedGraph | crates/immortal-client/src/ark.rs:918-973 | on an accepted graph the map holds the selected output and nothing the graph spent |
| ArkExitVerify.UnspentIff | crates/immortal-client/src/ark.rs:918-973 | exactly the outputs of the graph that none of its transactions spends are left, each as created |
| ArkExitVerify.SpendExitInputs | crates/immortal-client/src/ark.rs:793-834 | the input loop of one exit accepts exactly what the functional step accepts |
| ArkExitVerify.CheckedFee | crates/immortal-client/src/ark.rs:852-867 | the fee exists exactly when both sums fit 64 bits and inputs cover outputs, and balances them |
| ArkExitVerify.ExitStep | crates/immortal-client/src/ark.rs:736-907 | one exit on the mutable state is one step of the machine, which `ArkExitRules.StepIff` states rule by rule |
| ArkExitVerify.VerifyExitTransactions | crates/immortal-client/src/ark.rs:700-916 | accepts exactly the plans that have a lawful run; an accepted plan pays its destination by exactly one output, of the last exit, and its sizes stay within 262144 bytes; returns one summary per exit, in a parent chain with nonempty windows |
| ArkExitRules.StepIff | crates/immortal-client/src/ark.rs:736-907 | an exit leads from one state to another if and only if inputs, parent, windows, signatures in input order, recovery path, fee, size, outputs and, for the last exit, the one destination output are as the rules say |
| ArkExitRules.AcceptsIff | crates/immortal-client/src/ark.rs:700-916 | a plan is accepted if and only if a run of lawful steps through all its exits exists, consuming every fee child |
| ArkExitRules.AcceptedGuarantees | crates/immortal-client/src/ark.rs:700-916 | every exit of an accepted plan is signed for the outputs it spends, in order, spends the selected output only along the recovery path, and the sizes add up to at most 262144 |
| ArkExitOrder.ConservedExactly | crates/immortal-client/src/ark.rs:700-916 | value is conserved, up to the fee, if and only if no exit creates an output that is unspent to begin with and has a value |
| ArkExitGraph.AcceptedExitsAreFresh | crates/immortal-client/src/ark.rs:700-973 | after an accepted graph, when no exit spends a declared root, exit identifiers are new to the graph and to each other; when none creates one either, nothing the graph spent is created again |
| ArkExitGraph.NoDoubleSpendIff | crates/immortal-client/src/ark.rs:700-973 | no outpoint is spent twice across graph and exits if and only if no exit spends a declared root |
| ArkExitGraph.SelectedOnceAndConserved | crates/immortal-client/src/ark.rs:700-973 | when no exit spends a declared root, the selected output is spent exactly once, in transaction 0, and value is conserved up to a fee within the committed maximum |
| ArkExitGraph.GraphAndExits | crates/immortal-client/src/ark.rs:700-973 | the last two results for every accepted graph and plan, or two named transactions that share an identifier and differ in their inputs |
| ArkExitGraph.ReturnsIffRoot | crates/immortal-client/src/ark.rs:700-973 | what the graph has spent stays spent in every state of the plan if and only if no exit creates a declared root |
| ArkExitReissue.RootSpentTwice | crates/immortal-client/src/ark.rs:877-885 | an accepted graph and plan, nothing colliding, that spend a declared root twice and lose value: the first exit creates the root, the second spends it |
| ArkText.HexRoundTrip | crates/immortal-core/src/ark.rs:1025-1060 | hexadecimal decoding inverts encoding |
| ArkText.OutpointRoundTrip | crates/immortal-core/src/ark.rs:219-270 | every outpoint parses back from its canonical text |
| ArkText.HexAt | crates/immortal-core/src/ark.rs:1052-1060 | each byte is written as its high and then its low digit, at twice its position |
| ArkText.HashTextIff | crates/immortal-core/src/ark.rs:1013-1023 | the texts accepted as 32-byte hashes are exactly the encodings of 32-byte strings |
| ArkText.OutpointIff | crates/immortal-core/src/ark.rs:219-270 | a text parses to an outpoint if and only if it is its canonical text |
| ArkEngine.PreparedIsPersistable | crates/immortal-client/src/ark.rs:519-546 | package verification establishes everything the restored state is checked for |
| ArkEngine.Engine.Prepare | crates/immortal-client/src/ark.rs:275-300 | an engine is prepared exactly when the graph is accepted and the package and its exits verify against what the graph leaves unspent; it is then recoverable |
| ArkEngine.Engine.ConfirmPersistence | crates/immortal-client/src/ark.rs:302-330 | takes the prepared package in any case; persists it exactly when receipt and reference match |
| ArkEngine.Engine.TakeSnapshot | crates/immortal-client/src/ark.rs:350-362 | a snapshot exists exactly when something is persisted |
| ArkEngine.Engine.Restore | crates/immortal-client/src/ark.rs:364-386 | accepts exactly well-formed snapshots of the schema whose state validates |
| ArkEngine.RestartSurvives | crates/immortal-client/src/ark.rs:275-386 | every engine reached by prepare and confirm survives snapshot and restore unchanged |
| ArkStateRules.PackageIff | crates/immortal-client/src/ark.rs:519-700 | a package is verified if and only if its digest, order, effect, output and operator are those of the contract, its endpoints are in order and its exits are accepted |
| ArkStateRules.PreparedIs | crates/immortal-client/src/ark.rs:275-300 | what is prepared has the digest, order, effect, output and operator of the contract and one summary per exit, field by field |
| ArkStateRules.PersistedIff | crates/immortal-client/src/ark.rs:1049-1126 | a stored state is restorable if and only if its hashes, output text, reference, exit sequence and endpoints are well formed, each said by characters and indices |
| ArkRelease.ValidateKnown | crates/immortal-client/src/ark.rs:1017-1047 | the known set is accepted exactly when well formed, and recorded exactly |
| ArkRelease.Release | crates/immortal-client/src/ark.rs:432-505 | for a package that agrees with the persisted sequence the loop gives exactly the answer about the first transaction not known by matching digest; for any other package that answer or an error |
| ArkRelease.ParentIsKnown | crates/immortal-client/src/ark.rs:462-475 | with the validated parent chain the "parent unknown" return is unreachable |
| ArkRelease.NextBroadcastRequest | crates/immortal-client/src/ark.rs:392-505 | a request names the first unknown transaction, all earlier ones known by digest, the height inside its window, at a persisted endpoint; an agreeing package always gets that answer |
| ArkRelease.RequestForVerified | crates/immortal-client/src/ark.rs:275-505 | prepared, confirmed and asked for at one of its endpoints, a verified package gets the answer: the first unknown transaction is released whenever its window is open |
| ArkRelease.VerifiedPackageAgrees | crates/immortal-client/src/ark.rs:519-546 | the reloaded package yields the sequence that was persisted |
| ArkRelease.ReleasedIffFirstUnknown | crates/immortal-client/src/ark.rs:432-505 | a transaction is released if and only if it is the first unknown one, all before it known by digest, and its window is open |
| ArkRelease.AnswerAt | crates/immortal-client/src/ark.rs:432-505 | with everything before it known and itself not known with its digest, a transaction decides the answer: conflict, expired, too early, or the request for it |
| ArkRelease.ReleasesInOrder | crates/immortal-client/src/ark.rs:392-505 | over every run, whatever becomes known, releases come in strictly increasing order |
| ArkRelease.WindowsReleaseAll | crates/immortal-client/src/ark.rs:392-505 | for a sequence of distinct identifiers, when every height falls in the next window a run releases the whole sequence in order |
| ArkRelease.VerifiedPackageIsReleased | crates/immortal-client/src/ark.rs:392-546 | the identifiers of a verified package are distinct, so with a height in every window it is released as a whole, in order |
| LinearCode.FoldsAgree | crates/immortal-core/src/nip19.rs:186-198 | two word strings leave the same register if and only if their sum leaves zero |
| LinearCode.BurstDetected | crates/immortal-core/src/nip19.rs:186-198 | for any code that tells k words apart, a change within k consecutive words changes the register |
| LinearCode.PairDetected | crates/immortal-core/src/nip19.rs:186-198 | for any code whose words never shift back to words, changing one or two words changes the register |
| Bech32Checksum.ShiftLinear | crates/immortal-core/src/nip19.rs:186-198 | one polymod step with a zero word is linear over exclusive or |
| Bech32Checksum.ShiftInjective | crates/immortal-core/src/nip19.rs:186-198 | only the zero register steps to zero |
| Bech32Checksum.Bech32Valid | crates/immortal-core/src/nip19.rs:18-24 | the five generator constants give a linear, injective, closed code |
| Bech32Checksum.Bech32Bursts | crates/immortal-core/src/nip19.rs:186-198 | no six words, not all zero, bring the zero register back to zero |
| Bech32Pairs.ScaleIsScalar | crates/immortal-core/src/nip19.rs:18-24 | the generators are multiples of one another in the field of 32 elements: scaling commutes with the step |
| Bech32Pairs.OneNeverWord | crates/immortal-core/src/nip19.rs:186-198 | in 88 steps the word 1 never returns to a single word |
| Bech32Pairs.Bech32SeesPairs | crates/immortal-core/src/nip19.rs:186-198 | no nonzero word returns to a single word within 88 steps |
| Bech32Words.RegroupBytes | crates/immortal-core/src/nip19.rs:201-237 | regrouping bytes to words and back is the identity |
| Bech32Words.RegroupWords | crates/immortal-core/src/nip19.rs:201-237 | words that regroup are the words of the bytes they regroup to |
| Bech32Words.PushWords | crates/immortal-core/src/nip19.rs:201-217 | the accumulator loop, with its 32-bit wrap-around, yields the base-32 digits of the padded number |
| Bech32Words.PushBytes | crates/immortal-core/src/nip19.rs:221-237 | the reverse loop yields the quotient number, refusing exactly a whole leftover word or nonzero leftover bits |
| Bech32Sum.RunPolymod | crates/immortal-core/src/nip19.rs:186-198 | the loop computes the register of the code |
| Bech32Sum.ChecksumVerifies | crates/immortal-core/src/nip19.rs:167-176 | the six computed words bring the register to 1 |
| Bech32Sum.ChecksumUnique | crates/immortal-core/src/nip19.rs:167-176 | six words verify if and only if they are the computed ones |
| Bech32Sum.BurstSeen | crates/immortal-core/src/nip19.rs:186-198 | two word strings under one prefix that differ within six consecutive words cannot both verify |
| Bech32Sum.PairSeen | crates/immortal-core/src/nip19.rs:186-198 | nor two that differ in one or two words, anywhere in 89 words |
| Bech32.EncodeThenDecode | crates/immortal-core/src/nip19.rs:112-165 | whatever encodes decodes to the lower-case prefix and the same bytes |
| Bech32.DecodeThenEncode | crates/immortal-core/src/nip19.rs:112-165 | whatever decodes is, in lower case, the encoding of what it decodes to |
| Bech32.DecodesAlike | crates/immortal-core/src/nip19.rs:133-165 | two decodable strings decode alike if and only if they differ only in case |
| Bech32.FindPosition | crates/immortal-core/src/nip19.rs:152-158 | the alphabet scan finds the position of a character, or none |
| Bech32.ReadChars | crates/immortal-core/src/nip19.rs:152-158 | the character loop reads the words or stops at the first foreign character |
| Bech32.EncodeText | crates/immortal-core/src/nip19.rs:112-130 | the push-based encoder agrees with the functional one, errors included; `Bech32Layout.EncodeIff` states that one by characters |
| Bech32.DecodeText | crates/immortal-core/src/nip19.rs:133-165 | the decoder agrees with the functional one, errors in the same order; `Bech32Layout.DecodeIff` states that one by characters |
| Bech32Layout.VerifiesIff | crates/immortal-core/src/nip19.rs:178-198 | the checksum holds if and only if a run of the register over the high prefix bits, a zero, the low prefix bits and the words, each step given bit by bit, ends at 1 |
| Bech32Layout.DecodeIff | crates/immortal-core/src/nip19.rs:133-165 | a string decodes to a prefix and bytes if and only if it is short, of one case and, in lower case, the prefix, a 1 and the characters of words that carry the bits of the bytes, zero padding and a checksum that holds |
| Bech32Layout.EncodeIff | crates/immortal-core/src/nip19.rs:112-130 | a string is the encoding if and only if it is the lower-case string of that shape and fits |
| Bech32Detection.BurstCaught | crates/immortal-core/src/nip19.rs:133-165 | two strings that decode under one prefix and differ within six consecutive data characters are equal |
| Bech32Detection.PairCaught | crates/immortal-core/src/nip19.rs:133-165 | so are two that differ in one or two data characters |
| Bech32Detection.KeyRoundTrip | crates/immortal-core/src/nip19.rs:75-110 | encoding a 32-byte key never fails and decodes back exactly when the bytes are a key |
| Bech32Detection.KeyCanonical | crates/immortal-core/src/nip19.rs:81-110 | a string that decodes as a key is the one encoding of that key |
| Base64.Inverse | crates/immortal-core/src/nip44.rs:262-327 | a string decodes to given bytes if and only if it is their encoding |
| Base64.GuardNeverFires | crates/immortal-core/src/nip44.rs:323-325 | the final canonicality guard never fires |
| Base64.DecodeIsGroups | crates/immortal-core/src/nip44.rs:286-327 | removing the guard would not change the decoder |
| Base64.PushGroups | crates/immortal-core/src/nip44.rs:262-284 | the encoding loop computes the functional encoding |
| Base64.PullGroups | crates/immortal-core/src/nip44.rs:286-327 | the decoding loop computes the functional decoding, errors included |
| Base64Layout.Base64Iff | crates/immortal-core/src/nip44.rs:262-343 | encoder and decoder are exactly the format: each group of four characters against its three bytes, padding included |
| Nip44Padding.PaddedBounds | crates/immortal-core/src/nip44.rs:173-189 | padding never shortens, pads to at least 32 and stays in bounds |
| Nip44Padding.PaddedMonotone | crates/immortal-core/src/nip44.rs:173-189 | a longer plaintext is never padded to fewer bytes |
| Nip44Padding.PaddedIdempotent | crates/immortal-core/src/nip44.rs:173-189 | a padded length is its own padded length |
| Nip44Padding.PadThenUnpad | crates/immortal-core/src/nip44.rs:120-171 | unpadding a padded plaintext returns it, for 1 to 262144 bytes |
| Nip44Padding.UnpadThenPad | crates/immortal-core/src/nip44.rs:120-171 | whatever unpads is the padding of its plaintext |
| Nip44Padding.FillBuffer | crates/immortal-core/src/nip44.rs:120-136 | the zero-filled buffer with prefix and plaintext copied in is the padding |
| Nip44.StreamTwice | crates/immortal-core/src/nip44.rs:196-205 | the key stream applied twice is the identity |
| Nip44.XorInPlace | crates/immortal-core/src/nip44.rs:196-205 | the in-place block loop with its wrapping counter applies the key stream |
| Nip44.ConstantTimeEqual | crates/immortal-core/src/nip44.rs:251-260 | the comparison without early exit is equality |
| Nip44.PayloadFits | crates/immortal-core/src/nip44.rs:43-52 | the payload size bounds admit every payload encryption produces |
| Nip44.EncryptThenDecrypt | crates/immortal-core/src/nip44.rs:17-74 | decryption returns every text of 1 to 262144 bytes, for all keys and nonces |
| Nip44.DecryptThenEncrypt | crates/immortal-core/src/nip44.rs:17-74 | whatever decrypts is the encryption of its plaintext under the nonce it carries |
| Nip44.EncryptText | crates/immortal-core/src/nip44.rs:17-41 | the buffer-based encryption agrees with the functional one, which `Nip44Layout.EncryptIff` states by bytes |
| Nip44.DecryptText | crates/immortal-core/src/nip44.rs:43-74 | the buffer-based decryption agrees with the functional one, errors in the same order; `Nip44Layout.DecryptIff` states that one by bytes |
| Nip44Layout.XorBits | crates/immortal-core/src/nip44.rs:196-205 | a bit of the exclusive or is set if and only if the two bits differ |
| Nip44Layout.PaddedLengthIff | crates/immortal-core/src/nip44.rs:173-189 | the padded length: 32, or the smallest sufficient multiple of the chunk, which is 32 up to 256 and then an eighth of the next power of two |
| Nip44Layout.PaddedIff | crates/immortal-core/src/nip44.rs:120-136 | the padded text: length prefix of two or six bytes, the text, then zeros |
| Nip44Layout.EncryptIff | crates/immortal-core/src/nip44.rs:17-41 | a text is the encryption if and only if it is the base64 form of version, nonce, the padded text combined byte i with byte i mod 64 of block i / 64, and the authentication code of nonce and cipher text |
| Nip44Layout.DecryptIff | crates/immortal-core/src/nip44.rs:43-74 | a text decrypts to given bytes if and only if it is such a payload of them under some nonce and the bytes are valid text |
| Nip44Keys.KeysAgree | crates/immortal-core/src/nip44.rs:11-15 | both ends of a conversation derive the same key |
| Nip44Keys.ConversationKeyIs | crates/immortal-core/src/nip44.rs:11-15 | the conversation key is the code, under the salt nip44-v2, of the x coordinate of the shared point |
| EventStore.InsertKeepsNewest | crates/immortal-client/src/client.rs:461-472 | push, sort and truncate keeps the newest events of the set so far, duplicates and re-arrivals included |
| EventStore.NewestUnique | crates/immortal-client/src/client.rs:461-472 | a set of events has only one list of its newest events |
| EventStore.CrowdedIffAbove | crates/immortal-client/src/client.rs:461-472 | an event is crowded out of the newest of a set if and only if at least the limit of events of the set are newer |
| EventStore.InsertKeepsDistinct | crates/immortal-client/src/client.rs:461-472 | insertion keeps identifiers distinct |
| EventStore.Insert | crates/immortal-client/src/client.rs:461-472 | the scan and insertion agree with the functional form, and report whether anything was inserted |
| ClientSnapshot.SelectsBest | crates/immortal-client/src/client.rs:563-578 | the selection returns a matching event no matching event is better than, or none when none matches |
| ClientSnapshot.BuildSelects | crates/immortal-client/src/client.rs:474-522 | organization, project, its status and the latest update are each the best of their kind |
| ClientSnapshot.RecentIsNewest | crates/immortal-client/src/client.rs:524-547 | the recent activity is the newest part of the activity among the committed events |
| ClientSnapshot.LatestIsFirst | crates/immortal-client/src/client.rs:549-561 | the last event time is that of the first committed event |
| ClientSnapshot.BuildShows | crates/immortal-client/src/client.rs:474-561 | every field of the snapshot of a sorted list: best organization, project, its status and latest update, newest activity, EOSE time and last event time |
| ClientFields.BuildPictures | crates/immortal-client/src/client.rs:474-561 | the snapshot of a sorted list, each field by comparing events one by one, without the selection functions |
| ClientFields.ListsAreOrdered | crates/immortal-client/src/client.rs:461-472 | after any inputs both lists are newest first, ties by identifier, without repetition and bounded |
| ClientFields.SnapshotPictures | crates/immortal-client/src/client.rs:266-561 | after any inputs there is a snapshot if and only if there was an EOSE, and it is that picture of the committed events |
| Client.StepKeepsInvariant | crates/immortal-client/src/client.rs:266-398 | every method keeps the invariant |
| Client.UnchangedMeansUnchanged | crates/immortal-client/src/client.rs:306-398 | a frame that reports no visible change leaves snapshot, committed events and mode alone |
| Client.ReportedButUnchanged | crates/immortal-client/src/client.rs:335-369 | a new event always reports a change; list and snapshot nevertheless stay the same if and only if the list is full of newer events |
| Client.ProjectClient.constructor | crates/immortal-client/src/client.rs:206-217 | a new client starts connecting with nothing stored and is valid |
| Client.ProjectClient.Connect | crates/immortal-client/src/client.rs:266-273 | drops pending events and keeps the last snapshot |
| Client.ProjectClient.Open | crates/immortal-client/src/client.rs:276-280 | drops pending events and waits for EOSE |
| Client.ProjectClient.Disconnect | crates/immortal-client/src/client.rs:282-289 | drops pending events; unavailable only without a snapshot |
| Client.ProjectClient.Age | crates/immortal-client/src/client.rs:291-302 | only a live client turns stale, by saturating delay |
| Client.ProjectClient.PushDiagnostic | crates/immortal-client/src/client.rs:453-458 | the list becomes the last 32 of the old messages and the new one |
| Client.ProjectClient.ReceiveEvent | crates/immortal-client/src/client.rs:335-369 | an accepted event goes to the pending or the committed list, the snapshot rebuilt with it |
| Client.ProjectClient.Receive | crates/immortal-client/src/client.rs:306-398 | one frame on the object is one step of the machine, refusals included, and keeps the client valid |
| Client.RefusedIff | crates/immortal-client/src/client.rs:306-398 | a frame is refused if and only if it is malformed, of the wrong size, or for this subscription and without its payload or reason |
| ClientRuns.RunInvariant | crates/immortal-client/src/client.rs:266-398 | after any inputs the snapshot is that of the committed events at the last EOSE, modes and pending events are as promised, and both lists are sorted, distinct and bounded |
| ClientModes.ModeIs | crates/immortal-client/src/client.rs:266-398 | after any inputs the mode is the one the last control input (connect, open, disconnect, EOSE, CLOSED) leads to, with disconnect deciding by whether there was an EOSE |
| ClientModes.NoControl | crates/immortal-client/src/client.rs:206-217 | without a control input the client is still connecting |
| ClientModes.StaleIff | crates/immortal-client/src/client.rs:291-302 | after an EOSE the client is stale if and only if some tick came too late and no new event followed it |
| ClientModes.SnapshotIffEose | crates/immortal-client/src/client.rs:371-382 | a snapshot is there if and only if there has been an EOSE, and the clock is that of the last sign of life |
| ClientModes.ClosedKeeps | crates/immortal-client/src/client.rs:384-398 | CLOSED makes the client unavailable, drops what is pending and keeps committed events and snapshot |
| ClientRuns.DiagnosticsAreLatest | crates/immortal-client/src/client.rs:306-458 | after any inputs the client shows the last 32 of all diagnostics it was ever sent |
| ClientRuns.SessionLaw | crates/immortal-client/src/client.rs:335-382 | what is pending before EOSE and committed after it, for every session |
| ClientRuns.OneEose | crates/immortal-client/src/client.rs:335-382 | with one EOSE the committed list is exactly the newest accepted events |
| ClientRuns.Confluence | crates/immortal-client/src/client.rs:335-382 | with one EOSE the committed list and the snapshot, EOSE time aside, do not depend on arrival order, duplicates or the place of the EOSE |
| ClientRuns.ManyEoses | crates/immortal-client/src/client.rs:371-382 | with further EOSEs the committed list is complete if and only if, for every accepted event that was dropped, at least the limit of retained events are newer |
| ClientRuns.SecondEoseDrops | crates/immortal-client/src/client.rs:371-382 | a second EOSE drops what was committed: a concrete session |
| Elements.AssetWritten | crates/immortal-core/src/liquid.rs:1059-1085 | an accepted asset field is the encoding of what it is read as |
| Elements.ValueWritten | crates/immortal-core/src/liquid.rs:1092-1117 | an accepted amount field is the encoding of what it is read as |
| Elements.NonceWritten | crates/immortal-core/src/liquid.rs:1119-1138 | an accepted nonce field is the encoding of what it is read as |
| Elements.InputExact | crates/immortal-core/src/liquid.rs:290-332 | an in-bounds input is read back, flags folded into its index |
| Elements.InputWritten | crates/immortal-core/src/liquid.rs:290-332 | an accepted input is the encoding of what it is read as |
| Elements.OutputWritten | crates/immortal-core/src/liquid.rs:338-351 | an accepted output is the encoding of what it is read as; a null amount is refused |
| ElementsCodec.EncodeThenParse | crates/immortal-core/src/liquid.rs:274-387 | every in-bounds transaction is accepted and read back |
| ElementsCodec.ParseThenEncode | crates/immortal-core/src/liquid.rs:274-387 | every accepted string is the encoding of the parsed fields |
| ElementsCodec.ParseInjective | crates/immortal-core/src/liquid.rs:274-387 | two accepted strings with equal fields are equal |
| ElementsCodec.IdIgnoresWitnesses | crates/immortal-core/src/liquid.rs:896-910 | transactions with equal non-witness fields have one identifier whatever their witnesses |
| ElementsCodec.IdBindsFields | crates/immortal-core/src/liquid.rs:896-910 | equal identifiers mean equal non-witness fields, or two named strings with one hash |
| ElementsReader.ParseInput | crates/immortal-core/src/liquid.rs:290-332 | the cursor-based input reader computes the functional one |
| ElementsReader.ParseFields | crates/immortal-core/src/liquid.rs:274-387 | the cursor-based parser agrees with the functional one on every byte string, errors included |
| ElementsReader.ParseBytes | crates/immortal-core/src/liquid.rs:274-387 | with the identifier cut from the raw bytes |
| ElementsLayout.ParseIff | crates/immortal-core/src/liquid.rs:274-387 | the parser accepts a string as a transaction if and only if every field stands at its position in the string and the limits hold |
| ElementsLayout.IdIs | crates/immortal-core/src/liquid.rs:896-910 | the identifier is the reversed double hash of the same layout with the flag cleared and no witnesses |

## Left out

- secp256k1, SHA-256, HMAC, HKDF expansion and the ChaCha20 block function: parameters with their output lengths.
- JSON parsing, serde shape checks, event signatures and relevance checks: a frame carries the verdict on its event.
- URL validation: a function; the equalities between package and contract that concern neither identifiers, digest,
  selected output nor operator: one flag of the binding, `matches`.
- `verify_vtxo_terms` and the signature checks of the Ark graph: predicates of the graph terms.
- ArkVerify.VerifyArkGraph: the operator binding and the digest of the signed graph are one flag, `bound`; sizes and
  weights of transactions are functions, because transactions arrive decoded.
- The amount of the exit destination output, and value conservation inside the graph: the code checks neither.
- Nonce generation and deterministic signing draw secrets from randomness or hashes; script parsing and witness assembly
  recognise fixed templates; fee and dust rules compare amounts with constants; BOLT11 and SegWit addresses are further
  bech32 formats with their own field tables.
- Liquid output verification, Taproot trees and signature hashes for Elements: equality checks beside the parser.
- Relay information (NIP-11), the subscription request text and error texts: formatting.
- `market.rs`, `tbdex.rs`, `boltz_compat.rs`, the gateways, the lab, the web client and the scripts: sockets, files,
  tables and grammar checks.
- Zeroising secrets on drop and constant-time behaviour: only the stored values after consumption are modelled.
- TransactionCodec.SetInputWitness: returns the changed transaction instead of updating it in place.
- Bech32Sum.RunPolymod: the inner loop over the five generators is written out as a sum, because its order of
  exclusive-ors does not matter.
- ArkExitOrder.ConservedExactly: identifiers are values ordered by hypothesis rather than computed hashes.
- ArkExitGraph.AcceptedExitsAreFresh: takes `NoCollision` as a hypothesis, as do `NoDoubleSpendIff` and
  `SelectedOnceAndConserved`; `GraphAndExits` names the collision instead.
- ArkExitGraph.ReturnsIffRoot: takes `NoCollision` as a hypothesis.
- ClientRuns.Confluence: assumes that equal identifiers mean equal events, as the identifier is a hash of the event.
- Client.ProjectClient.Receive: diagnostics carry the message without the fixed text the code puts before it.
- Elements.InputWritten: witness fields of inputs and outputs are kept in two lists beside them rather than inside them.
