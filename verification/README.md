# Flare Studio policies, verified

This project models the path a policy takes from the browser to a signed payout in Flare Studio, and the state
machines around it, and proves what holds of every input and every run. `dafny verify dfyconfig.toml` checks all of it.

**One policy, several implementations.** The browser compiles a policy (`Schema`, `Compile`, `Payout`), commits to its
shares with a general ABI encoder (`Abi`, `Commitment`), canonicalises the private half (`Json`, `Canonical`) and seals
it (`Ecies`). The enclave parses it, checks it (`Shares`), rebuilds the commitment by hand and signs an EIP-712 preimage
(`Eip712`); the live test rebuilds the digest once more (`RunTest`). `Pipeline` puts the pieces together: whatever the
compiler accepts and the browser seals, the enclave stores and signs over the very commitment that was published, with
the draft's recipients and the salt that was handed in.

**The enclave.** `Enclave` has the handlers as a class that updates the policy map and the counters. `EnclaveRuns` is
the same lock sections as a step machine: any interleaving of STORE, EVALUATE and GET /state, with decryption and
signing outside the lock. `EnclaveRequests` ties every event and answer of a run to the call that opened its request.
`EnclaveProperties` linearises the map and the counters separately; `Atomicity` says exactly
when EVALUATE is one atomic step; `TwinRuns` compares two runs and says exactly what STORE and GET /state give away.

**The serialising server.** `PromiseQueue` models the promise chain used as a mutex, over functions cut at their awaits
and an event loop that may pick any enabled promise; `Handlers`, `Dispatch` and `Encoding` are what runs behind it.

**Workflows and derived structures.** `Registration` is the resumable registration under crashes anywhere and torn
saves, resumed with one command, `Relaunch` the same with a different command each time, and `Completion` what one run
does from start to end; `Deploy` and `Vault` are
the six-step deployment and the browser's list of policies; `Canvas` the picture of a policy and the panel behind each
node; `Sniff` the decoders that accept hex or base64.

Keccak, SHA-256, HMAC, AES-CTR, ECDH, public-key recovery and UTF-8 are parameters. The only laws used are listed where
they are needed: `Ecies.Lawful`, and the round trip of UTF-8 on the text at hand. No hash is taken to be injective: a
binding claim concludes that the inputs are equal or that two of the messages actually hashed collide.

Where methods and runs are specified by a function, lemmas beside it say in literal terms what that function is: under
which conditions each branch is taken (`...Exactly`), or which bytes and characters come out (`...Bytes`, `...Text`).

## Where the code falls short of what is said of it

For each, the exact condition is proved, and for most an input on the failing side.

- A negative chain id signs the same bytes as its absolute value: the preimage binds the chain exactly up to its sign
  (`Eip712.PreimageBinds`, `Eip712.ChainSignIsLost`).
- The schema lets a zero recipient through (`Compile.ZeroRecipientCompiles`); the enclave accepts a compiled policy
  exactly when it has none (`Compile.EnclaveReadsWhatWasCommitted`).
- The 32-bit total judges every list of a length exactly when the length is at most 65537 (`Shares.ExactUpTo65537`), and
  one list wrongly exactly when it accepts a true total of 2^32 or more (`Shares.MisjudgedExactlyOnWrap`).
- EVALUATE as a whole is atomic at a point exactly when its configuration was not replaced by then and nobody looked in
  between (`Atomicity.AtomicExactlyWhen`); there are runs without such a point (`Atomicity.EvaluateIsNotAtomic`).
- Two configurations draw the same STORE answer exactly when they share a verdict, a refused list's total included, and
  if accepted their length (`TwinRuns.SameAnswerExactlyWhenAlike`, `TwinRuns.RefusalRevealsTotal`).
- A base64 field is read for what it is exactly when its text does not match the hex pattern (`Sniff.Base64ReadRight`,
  `Sniff.ThreeBytesMisread`); signatures cannot be affected.
- A recovery id survives the pair of adjustments exactly when it is below 27 (`RunTest.DenormalizeUndoesNormalize`), and
  a name its bytes32 form exactly when it does not end in NUL (`Encoding.NameRoundTrip`).
- A resumed availability check carries the attestation last noted exactly when its command has `r` or `R` and no later
  run began before that attestation was saved (`Relaunch.CheckCarries`, `Relaunch.ResumedWithoutItsAttestation`).
- A step shown as done had a successful transaction exactly when no approval reverts
  (`Deploy.DoneExactlyUnlessApprovalReverts`, `Deploy.RevertedApprovalRun`): the approval's receipt is awaited, its
  status not looked at. And the entry a deployment returns is the one in the vault exactly when no hand-off was made or
  its record was written (`Deploy.ReturnedIsKept`).

## Model

| member | source | states |
|---|---|---|
| `Pipeline.PayloadOpens` | apps/extension/go/internal/extension/extension.go:127-142 | what the browser compiles and seals opens in the enclave to the draft's recipients in policy order and the salt that was handed in, under the published commitment, valid exactly when no recipient is zero |
| `Pipeline.OpensExactly` | apps/extension/go/internal/extension/extension.go:127-138 | which ciphertexts count as undecryptable and which open to a configuration; the rest do not parse |
| `Pipeline.StoreWritesTheCompiled` | apps/extension/go/internal/extension/extension.go:114-158 | in every run of the enclave, all that such a STORE ever writes is that configuration, under its policy |
| `Pipeline.SignedOverPublishedCommitment` | apps/extension/go/internal/extension/extension.go:114-212 | in every run, an EVALUATE whose read found that write as the latest for its policy had asked for that policy, had the node sign the preimage over the published commitment at the trigger time it was called with, and answered with the draft's recipients and salt and the node's signature |
| `Pipeline.BrowserToSignature` | apps/extension/go/internal/extension/extension.go:114-212 | one request after another: stored exactly when no recipient is zero, else the state is unchanged; the EVALUATE right after signs the preimage over the published commitment and answers with the compiled recipients, or reports the node's failure |
| `Compile.EnclaveReadsWhatWasCommitted` | packages/policy/src/compile.ts:81-150 | for every policy and salt the compiler accepts, the plaintext parses to that salt and to the recipients and proportions of the draft's distribution in order, their Go commitment is the published one, they sum to 10000, and the enclave accepts them exactly when no recipient is zero; asset, trigger, conditions and name are published as drafted |
| `Compile.CompilesExactly` | packages/policy/src/compile.ts:81-136 | a policy compiles exactly when every rule of the schema holds, its asset is known, the salt is 32 bytes of hex and the checksum rule takes every recipient |
| `Compile.CompiledText` | packages/policy/src/compile.ts:116-136 | what is sealed, to the character: salt, then address and proportion of each recipient in order, so neither the policy's name nor any label |
| `Compile.MemberIsLast` | apps/extension/go/internal/extension/extension.go:135-137 | of members with one name the enclave reads the last |
| `Compile.ReadsNumbersExactly` | apps/extension/go/pkg/types/types.go:45-48 | which texts the enclave reads as an address, salt or proportion, and as which; an absent member is zero |
| `Compile.ZeroRecipientCompiles` | packages/policy/src/schema.ts:103-139 | the schema lets the all-zero recipient through: the draft that pays it everything compiles whatever the trigger, once the asset is known and the checksum rule takes the text |
| `Compile.PayloadParses` | packages/policy/src/compile.ts:116-136 | the canonical payload of any checked recipient list parses to its shares and salt |
| `Compile.MemberAfterSort` | packages/policy/src/commitment.ts:70-81 | sorting keys moves members of an object but loses none and swaps no values |
| `Compile.SumsAgree` | packages/policy/src/compile.ts:145-150 | the enclave and the schema add the same proportions |
| `Schema.SuperRefine` | packages/policy/src/schema.ts:113-139 | the refinement reports every action whose total is not 10000 and every repeated recipient (case-insensitively), once each, in the order of the loops, and nothing else |
| `Schema.ReportIsDetermined` | packages/policy/src/compile.ts:82-88 | such a report is determined by its issues, and with it the first, which the compiler quotes |
| `Schema.Duplicates` | packages/policy/src/schema.ts:126-137 | the recipients flagged, in order, are exactly those whose address occurred earlier in the same action |
| `Schema.ShapeExactly` | packages/policy/src/schema.ts:16-111 | what the declarative half of the schema admits, rule by rule down to the characters of an address |
| `Compile.UnitsAreUtf16` | packages/policy/src/schema.ts:86-106 | the lengths it limits are counted in UTF-16 code units |
| `Payout.ResolveDistributions` | packages/policy/src/compile.ts:159-176 | every recipient but the last is given the truncated quotient, in order, and the last the rest; an empty list pays nobody |
| `Payout.PaysWholeBalance` | packages/policy/src/compile.ts:165-173 | for any non-empty list and any balance the amounts sum to the balance |
| `Payout.DustBound` | packages/policy/src/compile.ts:165-173 | amounts are non-negative, all but the last are floors, and the last exceeds its own floor by at most n - 1 |
| `Payout.DustBoundAttained` | packages/policy/src/compile.ts:165-173 | the bound is sharp for every complete list: a balance of 9999 leaves exactly n - 1 |
| `Payout.ResidueBalance` | packages/policy/src/compile.ts:165-173 | 10000 times the floors plus the residues is the balance times the total |
| `Payout.PayingTogether` | packages/policy/src/compile.ts:159-176 | paying two balances at once gives every recipient but the last 0 or 1 more and the last at most n - 1 less |
| `Payout.TruncatesTowardsZero` | packages/policy/src/compile.ts:165-173 | a proportion is rounded towards zero, for negative balances too |
| `Commitment.ComputeCommitment` | apps/extension/go/internal/extension/policy.go:46-59 | the buffer grown word by word hashes offset, salt, length and the padded shares in order |
| `Commitment.EncodersAgree` | packages/policy/src/commitment.ts:39-55 | the hand-rolled buffer is the generic ABI head/tail encoding of the same values, for every list |
| `Commitment.CommitmentsAgree` | packages/policy/src/commitment.ts:39-55 | the browser and the enclave derive the same commitment from the same shares and salt |
| `Commitment.DecodeUndoesBuffer` | apps/extension/go/internal/extension/policy.go:46-59 | a decoder recovers the shares, in order, and the salt from the buffer, at every length |
| `Commitment.BufferBytes` | apps/extension/go/internal/extension/policy.go:46-59 | the hashed bytes one by one: 64, the salt, the number of shares, then each recipient behind twelve zeros and its proportion as two big-endian bytes behind thirty |
| `Commitment.CommitmentBinds` | apps/extension/go/internal/extension/policy.go:34-59 | equal commitments mean equal ordered shares and salt, or the two hashed buffers collide |
| `ByteStrings.PadIntBinds` | apps/extension/go/internal/extension/policy.go:125-127 | a padded word remembers a number exactly up to its sign |
| `ByteStrings.WordBytes` | apps/extension/go/internal/extension/policy.go:125-127 | byte k of a word, from its end, is byte k of the absolute value |
| `ByteStrings.SmallWord` | apps/extension/go/internal/extension/policy.go:50-57 | a proportion is thirty zeros and two bytes |
| `ByteStrings.AddressWord` | apps/extension/go/internal/extension/policy.go:50-57 | an address is twelve zeros and its own bytes |
| `Canonical.ParseCanonical` | packages/policy/src/commitment.ts:66-68 | parsing the canonical text of a value gives the value with its keys sorted |
| `Canonical.CanonicalIsNormalForm` | packages/policy/src/commitment.ts:66-81 | two values have the same canonical text exactly when they are equal up to key order at every depth and integers written as decimal text |
| `Canonical.SortKeysIdempotent` | packages/policy/src/commitment.ts:70-81 | sorting keys twice is sorting them once |
| `Canonical.SameSorts` | packages/policy/src/commitment.ts:70-81 | values equal up to key order sort to the same value; array order is kept |
| `Canonical.SortsSame` | packages/policy/src/commitment.ts:70-81 | and values that sort to the same value were equal up to key order |
| `Canonical.CanonicalKeysAscend` | packages/policy/src/commitment.ts:70-81 | the keys of every object of the canonical tree ascend: array indices numerically, then the others by UTF-16 code units |
| `Canonical.UnitsOrder` | packages/policy/src/commitment.ts:75-77 | the order of keys is the lexicographic order of their UTF-16 code units |
| `Json.ParseUndoesPrint` | packages/policy/src/commitment.ts:66-68 | parsing the text of a printable value gives the value back |
| `Json.PrintInjective` | packages/policy/src/commitment.ts:66-68 | printed texts determine their values |
| `Json.OnlySpaceAround` | packages/policy/src/commitment.ts:66-68 | white space before a text is skipped, and after a value nothing else may stand |
| `Eip712.HashShares` | apps/extension/go/internal/extension/policy.go:65-77 | the hash of the packed struct hashes of the shares, in order |
| `Eip712.DomainSeparator` | apps/extension/go/internal/extension/policy.go:84-93 | the EIP-712 domain separator of a policy on a chain |
| `Eip712.BuildPreimage` | apps/extension/go/internal/extension/policy.go:103-123 | the signed bytes: 0x1901, domain separator, struct hash; 66 of them for every input |
| `Eip712.PreimageBytes` | apps/extension/go/internal/extension/policy.go:65-123 | those bytes written out with their three type strings, name and version |
| `Eip712.PreimageBinds` | apps/extension/go/internal/extension/policy.go:65-127 | equal preimages mean equal policy, chain (up to sign), commitment, share list and trigger time, or two hashed messages collide |
| `Eip712.ShareHashesBind` | apps/extension/go/internal/extension/policy.go:65-77 | equal packed share hashes mean equal lists, length and order included, or a collision |
| `Eip712.ChainSignIsLost` | apps/extension/go/internal/extension/policy.go:84-93 | a negative chain id signs the same bytes as its absolute value |
| `Eip712.EvaluationBinds` | apps/extension/go/internal/extension/extension.go:190-196 | a signature over an evaluation is for one policy, one stored configuration and one trigger time, or a collision is exhibited |
| `RunTest.RebuildCommitment` | apps/extension/tools/cmd/run-test/main.go:262-273 | the second construction of the commitment equals the first for every share list |
| `RunTest.RebuildSharesHash` | apps/extension/tools/cmd/run-test/main.go:274-284 | and so does that of the hash of the shares |
| `RunTest.ExecutionDigest` | apps/extension/tools/cmd/run-test/main.go:261-312 | the digest rebuilt from a response alone is the wrapped (version 0x45) hash of the preimage the enclave signs |
| `RunTest.TextHashBytes` | apps/extension/tools/cmd/run-test/main.go:309-312 | the wrapping prefix, byte by byte |
| `RunTest.NormalizeV` | apps/extension/go/internal/extension/node.go:67-74 | a fresh copy with recovery ids below 27 raised by 27 |
| `RunTest.OnlyTheIdMoves` | apps/extension/go/internal/extension/node.go:67-74 | both adjustments touch only the last byte, which ends at 27 or more, or is shifted back |
| `RunTest.DenormalizeUndoesNormalize` | apps/extension/tools/cmd/run-test/main.go:239-244 | the check undoes that adjustment exactly on ids below 27 |
| `RunTest.CheckEvaluation` | apps/extension/tools/cmd/run-test/main.go:212-253 | accepted exactly when salt and ordered shares are ours and the adjusted signature recovers to the machine; each refusal exactly when its own check is the first to fail, and a reported mismatch is the first one |
| `Shares.ValidateShares` | apps/extension/go/internal/extension/extension.go:218-235 | the verdict of the loop with its wrapping 32-bit total |
| `Shares.ZeroExactly` | apps/extension/go/internal/extension/extension.go:224-228 | a list is refused for a zero recipient exactly when it has one, with the total before the first, modulo 2^32 |
| `Shares.CheckExactly` | apps/extension/go/internal/extension/extension.go:218-235 | each other verdict and exactly when it is given: no shares, a wrong total modulo 2^32, or valid |
| `Shares.ValidMeansTenThousand` | apps/extension/go/internal/extension/extension.go:218-235 | up to 65537 shares, valid means non-empty, no zero recipient and an exact total of 10000 |
| `Shares.TotalIsExact` | apps/extension/go/internal/extension/extension.go:223-229 | while the true total is below 2^32, valid means non-empty, no zero recipient and a true total of 10000 |
| `Shares.MisjudgedExactlyOnWrap` | apps/extension/go/internal/extension/extension.go:223-234 | a list is misjudged exactly when it is accepted although its true total is 2^32 or more |
| `Shares.LongListsCanWrap` | apps/extension/go/internal/extension/extension.go:223-234 | at every length from 65538 on there is such a list |
| `Shares.ExactUpTo65537` | apps/extension/go/internal/extension/extension.go:218-235 | every list of a length is judged exactly if and only if the length is at most 65537 |
| `Enclave.Extension.StateHandler` | apps/extension/go/internal/extension/extension.go:50-67 | GET /state shows the size of the map, the count and the last policy |
| `Enclave.Extension.ProcessStore` | apps/extension/go/internal/extension/extension.go:114-158 | a refused STORE changes nothing; an accepted one replaces one entry and reports only its size |
| `Enclave.Extension.ProcessEvaluate` | apps/extension/go/internal/extension/extension.go:166-212 | EVALUATE counts only when it signed, signs only the stored split, and changes nothing else |
| `Enclave.Extension.EvaluatePolicy` | apps/extension/go/internal/extension/extension.go:181-212 | its two sections run with nothing in between |
| `Enclave.SignViaNode` | apps/extension/go/internal/extension/node.go:48-62 | the node's reply adjusted, or an error unless it has 65 bytes |
| `Enclave.SignatureExactly` | apps/extension/go/internal/extension/node.go:48-74 | a signature is 65 bytes of the reply, only a last byte below 27 being raised |
| `Enclave.AdmitExactly` | apps/extension/go/internal/extension/extension.go:114-142 | each refusal of a STORE and exactly when it is given, and what is admitted otherwise |
| `Enclave.GuardExactly` | apps/extension/go/internal/extension/extension.go:166-180 | the same for an EVALUATE up to its read section |
| `EnclaveRuns.RunInv` | apps/extension/go/internal/extension/extension.go:114-212 | in every interleaving of lock sections the state is the fold of the write sections so far, every read is current, every stored configuration is valid, and each request took exactly the sections its answer claims |
| `EnclaveRuns.NextKeepsInv` | apps/extension/go/internal/extension/extension.go:114-212 | every step of every request keeps that invariant |
| `EnclaveRequests.EventsFitTheirCalls` | apps/extension/go/internal/extension/extension.go:114-212 | in every run each section, message and answer of a request fits the call that opened it: a write has its policy and opened configuration, a read its policy, a message its trigger time |
| `EnclaveRequests.RefusedExactly` | apps/extension/go/internal/extension/extension.go:114-180 | in every run a request is answered with an early refusal exactly when its call meets the conditions of that refusal |
| `EnclaveRequests.RefusedTakesNoSection` | apps/extension/go/internal/extension/extension.go:114-180 | and then it takes no section at all |
| `EnclaveRequests.EveryRequestIsAnswered` | apps/extension/go/internal/extension/extension.go:114-212 | from any point of any run at most four more actions answer any open request |
| `EnclaveRequests.UninterruptedStore` | apps/extension/go/internal/extension/extension.go:114-158 | the handler of STORE is a run of its sections with nothing in between |
| `EnclaveRequests.UninterruptedEvaluate` | apps/extension/go/internal/extension/extension.go:166-212 | and so is that of EVALUATE, whatever the node replies |
| `EnclaveProperties.PolicyMapLinearises` | apps/extension/go/internal/extension/extension.go:144-183 | each read section finds what the latest write section for that policy put there, and it is valid; or nothing, when there was none |
| `EnclaveProperties.CountersLinearise` | apps/extension/go/internal/extension/extension.go:50-60 | the count is the number of EVALUATE write sections, the map and last policy those of the write sections so far; a GET /state shows them as of its read section |
| `EnclaveProperties.KeysOnlyGrow` | apps/extension/go/internal/extension/extension.go:144-148 | no run ever loses a stored policy |
| `EnclaveProperties.EvaluateReturnsHeldConfig` | apps/extension/go/internal/extension/extension.go:181-212 | a successful EVALUATE answers with the configuration the map held, at a moment of that very request, under the policy that very request asked for |
| `EnclaveProperties.AnswersAreJustified` | apps/extension/go/internal/extension/extension.go:114-212 | every answer is backed by exactly the sections its request took, in order, and they and the answer are what the call that opened the request asked for |
| `EnclaveProperties.AnswerCarriesTheReply` | apps/extension/go/internal/extension/node.go:48-74 | the signature in every answer is the reply to that very request: 65 bytes, the first 64 untouched, the last at least 27 |
| `EnclaveProperties.LastIsLatestWrite` | apps/extension/go/internal/extension/extension.go:144-206 | the last policy is that of the latest write section of either kind |
| `EnclaveProperties.DigestsAgree` | apps/extension/tools/cmd/run-test/main.go:212-312 | over every run, the digest rebuilt from an answer is that of the message the enclave handed to the node, so the live check accepts just when the node's own signature recovers to the machine |
| `TwinRuns.StoreAndStateRevealOnlyCounts` | apps/extension/go/internal/extension/extension.go:110-158 | two runs of one schedule whose configurations look alike (one verdict, and one length if accepted) give the same STORE and GET /state answers |
| `TwinRuns.SameAnswerExactlyWhenAlike` | apps/extension/go/internal/extension/extension.go:114-158 | after any history, two configurations draw the same STORE answer exactly when they look alike |
| `TwinRuns.RunsAreTwins` | apps/extension/go/internal/extension/extension.go:50-158 | the relation between two such runs is kept by every step |
| `TwinRuns.RefusalRevealsTotal` | apps/extension/go/internal/extension/extension.go:231-233 | a pair of invalid lists of one length that the refusal tells apart by their totals |
| `Atomicity.HeldUntilReplaced` | apps/extension/go/internal/extension/extension.go:181-201 | what a read section found is held at a later point exactly when the latest write for the policy since put nothing else |
| `Atomicity.AtomicAtItsWriteSection` | apps/extension/go/internal/extension/extension.go:181-212 | for every answered EVALUATE in every run: run uninterrupted at its write section it gives the same answer and leaves the same state exactly when its configuration was not replaced in between |
| `Atomicity.AtomicExactlyWhen` | apps/extension/go/internal/extension/extension.go:181-201 | and any point from its read to its write section explains it as one step exactly when the configuration was not replaced by then and no GET /state could tell |
| `Atomicity.EvaluateIsNotAtomic` | apps/extension/go/internal/extension/extension.go:181-201 | a run in which no point explains it |
| `Ecies.ConcatKDF` | packages/policy/src/ecies.ts:47-65 | the loop terminates with exactly the first outputLen bytes of the block stream with big-endian counters from 1 |
| `Ecies.KdfIsPrefixMonotone` | packages/policy/src/ecies.ts:47-65 | asking for fewer bytes gives a prefix |
| `Ecies.BlockOfStream` | packages/policy/src/ecies.ts:51-62 | block i of the stream is the hash of counter i and the secret |
| `Ecies.CounterIsPeriodic` | packages/policy/src/ecies.ts:53-55 | counters below 2^32 are written exactly; from there the stream repeats with period 2^32 |
| `Ecies.DeriveKeys` | packages/policy/src/ecies.ts:74-80 | the two keys of a shared secret |
| `Ecies.KeysPartitionFirstBlock` | packages/policy/src/ecies.ts:74-80 | they split the first block in half, and only the second half is hashed again |
| `Ecies.KeyFormsAgree` | packages/policy/src/ecies.ts:129-141 | a key with and without its prefix byte normalises to itself, a compressed one to its point, and nothing else is taken for a key |
| `Ecies.KeysComeFromX` | packages/policy/src/ecies.ts:74-94 | for the shared point 04 x y both keys come from x alone |
| `Ecies.ToHex` | packages/policy/src/ecies.ts:116-121 | prefixed lower-case hex of the bytes |
| `Ecies.ToBytes` | packages/policy/src/ecies.ts:106-114 | the bytes of any text as the lenient number parsing reads it |
| `Ecies.LenientIsFaithful` | packages/policy/src/ecies.ts:106-121 | the bytes read from a text spell it again, digit case aside, exactly when it is hex with two digits a byte |
| `Ecies.LenientPairs` | packages/policy/src/ecies.ts:106-114 | what the lenient parsing makes of pairs that are not hex |
| `Ecies.HexFormReads` | packages/policy/src/ecies.ts:106-121 | bytes survive their prefixed hex form |
| `Ecies.ConstantTimeEqual` | packages/policy/src/ecies.ts:205-211 | the or of the xors is zero exactly when the texts are equal |
| `Ecies.EciesEncrypt` | packages/policy/src/ecies.ts:150-170 | the hex of point, iv, ciphertext and tag, or the key error |
| `Ecies.EciesDecrypt` | packages/policy/src/ecies.ts:179-203 | an input of at least 113 bytes starting 0x04 with a usable point opens exactly when its last 32 bytes are the MAC over iv and ciphertext |
| `Ecies.SealedBytes` | packages/policy/src/ecies.ts:150-170 | the wire bytes written out: ephemeral key, iv, the message under the first half of the hash of 1 and x, and the tag under the hash of the second half |
| `Ecies.UnusableKeys` | packages/policy/src/ecies.ts:150-170 | sealing fails exactly on a key that is none or shares no point |
| `Ecies.OpenedBytes` | packages/policy/src/ecies.ts:179-203 | any such bytes open, by the same two halves, to the message exactly when the tag is that of iv and ciphertext |
| `Ecies.RefusedBytes` | packages/policy/src/ecies.ts:182-196 | each other refusal and exactly when it is given |
| `Ecies.OpenUndoesSeal` | packages/policy/src/ecies.ts:150-203 | opening undoes sealing for every message, key pair, form of the key, ephemeral key and iv; the wire is 65 + 16 + n + 32 bytes |
| `PromiseQueue.Server.Serialize` | apps/extension/typescript/src/base/server.ts:184-191 | one call makes two promises: the function behind the tail, and a drain that becomes the tail |
| `PromiseQueue.RunInv` | apps/extension/typescript/src/base/server.ts:184-191 | after any arrivals and any scheduling the settled promises are a prefix of the chain, and the shared state is that of the functions run alone so far plus the part of the next one |
| `PromiseQueue.OneAtATime` | apps/extension/typescript/src/base/server.ts:179-191 | at most one function is in flight, and it starts only when all before it have settled |
| `PromiseQueue.AnswersAreTheFold` | apps/extension/typescript/src/base/server.ts:184-191 | every answer is the one the functions give when run one after the other in submission order, whatever rejects |
| `PromiseQueue.FinalStateIsTheFold` | apps/extension/typescript/src/base/server.ts:184-191 | and when nothing is pending the shared state is that of the same fold |
| `PromiseQueue.PendingWorkProgresses` | apps/extension/typescript/src/base/server.ts:179-191 | pending work always has an enabled turn that strictly decreases the work left: a rejecting function never blocks the line |
| `PromiseQueue.OnlyFrontierEnabled` | apps/extension/typescript/src/base/server.ts:184-191 | only the first unsettled promise can take a turn |
| `PromiseQueue.SegmentBySegment` | apps/extension/typescript/src/base/server.ts:179-191 | a function run alone goes segment by segment, and the first that throws ends it with the state as it left it |
| `Handlers.App.HandleSayHello` | apps/extension/typescript/src/app/handlers.ts:56-96 | a failed greeting changes nothing; a successful one increments its count and records its text |
| `Handlers.App.HandleSayGoodbye` | apps/extension/typescript/src/app/handlers.ts:99-129 | the same for farewells |
| `Handlers.ReadsExactly` | apps/extension/typescript/src/app/handlers.ts:56-86 | a greeting is for a payload that parses to an object with no member but a name that is not empty |
| `Handlers.GreetsExactly` | apps/extension/typescript/src/app/handlers.ts:89-95 | it answers and keeps this very text under the next number and moves nothing else |
| `Handlers.GreetsNoOne` | apps/extension/typescript/src/app/handlers.ts:56-86 | every other payload fails and moves nothing |
| `Handlers.NamesAreGreeted` | apps/extension/typescript/src/app/handlers.ts:56-96 | every name that is not empty is greeted when sent as the one member of an object |
| `Handlers.FarewellExactly` | apps/extension/typescript/src/app/handlers.ts:99-129 | the text and number of a farewell, and exactly when it fails |
| `Handlers.ServerAnswersInOrder` | apps/extension/typescript/src/base/server.ts:136-191 | in every run of the server each answer and the final counters are those of the handlers called in submission order |
| `Handlers.AnswersAreNumbered` | apps/extension/typescript/src/app/handlers.ts:83-129 | successful greetings, and likewise farewells, are numbered 1, 2, 3, ... in submission order |
| `Handlers.LastTextIsLatest` | apps/extension/typescript/src/app/handlers.ts:46-129 | the text the state reports is that of the latest success of its kind |
| `Encoding.HexToBytes` | apps/extension/typescript/src/base/encoding.ts:16-35 | absent or empty text is no bytes, odd length or a foreign digit is an error, anything else decodes |
| `Encoding.BytesToHex` | apps/extension/typescript/src/base/encoding.ts:38-42 | prefixed lower-case hex |
| `Encoding.DecodeUndoesEncode` | apps/extension/typescript/src/base/encoding.ts:16-42 | decoding undoes encoding on all bytes |
| `Encoding.EncodeNormalises` | apps/extension/typescript/src/base/encoding.ts:16-42 | re-encoding what decoded gives its lower-case prefixed form |
| `Encoding.DecodesExactly` | apps/extension/typescript/src/base/encoding.ts:16-35 | what decodes is hex of even length behind a prefix in either case or none |
| `Text.HexTextAt` | apps/extension/typescript/src/base/encoding.ts:38-42 | two lower-case digits for each byte, in order |
| `Text.FromHexIgnoresCase` | apps/extension/typescript/src/base/encoding.ts:16-35 | decoding is blind to the case of the digits |
| `Encoding.StringToBytes32Hex` | apps/extension/typescript/src/base/encoding.ts:50-58 | names over 32 bytes are refused, others padded on the right |
| `Encoding.Bytes32HexToString` | apps/extension/typescript/src/base/encoding.ts:64-74 | the decoded text of the bytes without trailing NULs; undecodable hex is the empty name |
| `Encoding.TrimsExactly` | apps/extension/typescript/src/base/encoding.ts:68-73 | trimming takes all the NULs at the end and nothing else |
| `Encoding.NameRoundTrip` | apps/extension/typescript/src/base/encoding.ts:50-74 | a name of at most 32 bytes survives the trip exactly when it does not end in NUL |
| `Encoding.NamesAreInjective` | apps/extension/typescript/src/base/encoding.ts:50-58 | on such names the encoding is injective |
| `Dispatch.Framework.Handle` | apps/extension/typescript/src/base/types.ts:96-102 | a registration is appended, or refused with the registry unchanged |
| `Dispatch.Framework.Lookup` | apps/extension/typescript/src/base/types.ts:105-117 | the first exact pair, else the first wildcard, else none, whatever the sequence of registrations |
| `Dispatch.ChoiceIsUnique` | apps/extension/typescript/src/base/types.ts:105-117 | there is never a second candidate |
| `Dispatch.NormalizeIgnoresCase` | apps/extension/typescript/src/base/types.ts:120-124 | the case of the hex makes no difference |
| `Dispatch.NormalizeExactly` | apps/extension/typescript/src/base/types.ts:120-124 | nothing stands for the all-zero command, a missing prefix is added, letters are lowered |
| `Dispatch.FoundUnderItsName` | apps/extension/typescript/src/base/types.ts:96-124 | a found handler was registered first under the names asked for or, when nobody registered the pair, first under the wildcard |
| `Sniff.DecodeUndoesEncode64` | apps/orchestrator/src/policy.ts:80-86 | base64 decoding undoes encoding at every length |
| `Sniff.Alphabet` | apps/orchestrator/src/policy.ts:83 | the alphabet, and the two URL forms the decoder also knows |
| `Sniff.Base64ReadRight` | apps/orchestrator/src/policy.ts:80-86 | a base64 field is read for what it is exactly when its text does not match the hex pattern |
| `Sniff.SignatureReadsTheSame` | apps/orchestrator/src/policy.ts:80-86 | a 65-byte signature gives the same hex from its hex and its base64 form |
| `Sniff.ThreeBytesMisread` | apps/orchestrator/src/policy.ts:80-86 | a field of three bytes can be taken for hex |
| `Sniff.HexFieldExactly` | apps/orchestrator/src/policy.ts:80-86 | prefixed hex of any case and length comes back as it is, and other text fails exactly when it holds no base64 |
| `Sniff.PayloadReadsTheSame` | apps/orchestrator/src/instructions.ts:178-200 | a payload that starts with an ASCII byte decodes to the same bytes from either form |
| `Sniff.PayloadExactly` | apps/orchestrator/src/instructions.ts:188-190 | hex is read as its bytes, a last odd digit dropped, and base64 that does not match the hex pattern as its bytes |
| `Sniff.ActionDataExactly` | apps/orchestrator/src/instructions.ts:178-200 | each result and exactly when it is given |
| `Sniff.ActionDataRecovered` | apps/orchestrator/src/instructions.ts:178-200 | every JSON text beginning with a brace is recovered from either form |
| `Registration.StateFile.RegisterNode` | apps/extension/tools/pkg/fccutils/registration.go:59-172 | one run, step by step, with a failure or crash at any call and around any save |
| `Registration.StateFile.SaveState` | apps/extension/tools/pkg/fccutils/registration.go:48-57 | a save leaves the old file, the new one, or a torn one |
| `Registration.StateFile.PreRegister` | apps/extension/tools/pkg/fccutils/registration.go:74-106 | a completed step is skipped and its id taken from the file; otherwise it is requested, noted and saved |
| `Registration.StateFile.AttestAgain` | apps/extension/tools/pkg/fccutils/registration.go:108-124 | a second attestation under the same rules replaces the id in hand |
| `Registration.StateFile.CheckAvailability` | apps/extension/tools/pkg/fccutils/registration.go:126-155 | the check carries the attestation in hand; when no check is wanted the instruction given is used |
| `Completion.RunExactly` | apps/extension/tools/pkg/fccutils/registration.go:59-172 | every run to the last event, with its exit and the file it leaves: each recorded step is sent exactly when it is asked for and reached, with the id then in memory, and the promotion after them |
| `Completion.DoneExactlyWhen` | apps/extension/tools/pkg/fccutils/registration.go:59-172 | a run ends well exactly when every step its command asks for and the file has not recorded was answered and survived its save, the proxy was consistent if a check was needed, and p got its proof and its promotion |
| `Completion.DoneMeansAllDone` | apps/extension/tools/pkg/fccutils/registration.go:59-172 | then every letter of r, R and a in the command is complete and a removed file is gone |
| `Completion.DoneMeansPromoted` | apps/extension/tools/pkg/fccutils/registration.go:157-171 | and a promotion was sent once, as the last thing, exactly when the command has p |
| `Completion.UnprovenKeepsFile` | apps/extension/tools/pkg/fccutils/registration.go:157-171 | a promotion without its proof, or refused, fails the run and leaves the file |
| `Registration.RunKeepsOk` | apps/extension/tools/pkg/fccutils/registration.go:59-172 | every run, however it ends, keeps the history sound |
| `Registration.ResumeOk` | apps/extension/tools/pkg/fccutils/registration.go:59-172 | so does any number of runs |
| `Registration.ProgressIsOrdered` | apps/extension/tools/pkg/fccutils/registration.go:59-172 | recorded progress is always a beginning of r, R, a as far as the command asks for them |
| `Registration.RecordedNeverResent` | apps/extension/tools/pkg/fccutils/registration.go:75-158 | once recorded, a step's request is never sent again, whatever crashes and failed saves came in between |
| `Registration.CheckUsesLastAttestation` | apps/extension/tools/pkg/fccutils/registration.go:138-151 | the availability check carries the attestation last noted, in this run or an earlier one |
| `Registration.CheckWithoutAttestation` | apps/extension/tools/pkg/fccutils/registration.go:74-147 | under a command with neither r nor R every check, in the first run or a later one, carries the zero id |
| `Registration.PromotionUsesLastCheck` | apps/extension/tools/pkg/fccutils/registration.go:157-167 | promotion uses the result of the check last noted, or the instruction given |
| `Relaunch.RelaunchedKeeps` | apps/extension/tools/cmd/register-tee/main.go:23-68 | with a new command at every launch, each step still uses what the program remembers: the answers of this run on top of the file it loaded |
| `Relaunch.RecordedLettersAreDistinct` | apps/extension/tools/pkg/fccutils/registration.go:99-145 | whatever the commands, recorded progress is some of r, R and a, none twice |
| `Relaunch.NeverResent` | apps/extension/tools/pkg/fccutils/registration.go:75-151 | whatever the commands, no recorded step is requested again |
| `Relaunch.CheckCarries` | apps/extension/tools/pkg/fccutils/registration.go:74-147 | a check carries the remembered attestation, or zero when the command has neither r nor R; with ids never reused it is the one last noted exactly when the command has r or R and no later run began before that one was saved |
| `Relaunch.PromotionUsesMemory` | apps/extension/tools/pkg/fccutils/registration.go:157-167 | whatever the commands, promotion uses the remembered check or the instruction of this run |
| `Relaunch.ResumedWithoutItsAttestation` | apps/extension/tools/cmd/register-tee/main.go:23-25 | attested and saved, then resumed to check alone: the check carries zero |
| `Canvas.GraphFromIr` | apps/web/lib/canvas.ts:41-109 | the loops build exactly one node per primitive and one link into each but the first; an unknown asset throws |
| `Canvas.CountsRecipients` | apps/web/lib/canvas.ts:77-94 | the count of private inputs is that of the recipients of all the transfers |
| `Canvas.CountIsPositive` | apps/web/lib/canvas.ts:77-94 | so there is a private node exactly when some transfer has a recipient |
| `Canvas.NodeIdsAreDistinct` | apps/web/lib/canvas.ts:41-109 | no two nodes share an id, for any number of conditions and actions |
| `Canvas.EdgeIdsAreDistinct` | apps/web/lib/canvas.ts:57-105 | no two edges share an id, though ids join names that contain dashes |
| `Canvas.PictureIsATree` | apps/web/lib/canvas.ts:41-109 | whatever the ids: one edge fewer than nodes, one into each node but the asset, from an earlier node |
| `Canvas.CanvasIdsAreApart` | apps/web/lib/canvas.ts:57-105 | ids tell nodes apart, and link ids tell both ends apart although both contain dashes |
| `Canvas.EveryConditionGatesEveryAction` | apps/web/lib/canvas.ts:59-106 | a path from the asset to an action or the private node is exactly asset, trigger, every condition in order, that node |
| `Canvas.OnlyRoute` | apps/web/lib/canvas.ts:57-105 | from the root of such a tree there is only one path to each node |
| `Canvas.PanelExactly` | apps/web/lib/inspector.ts:46-65 | which panel any other id opens: a numbered one only for an index that is there, the whole policy otherwise |
| `Canvas.InspectorFindsTheSlice` | apps/web/lib/inspector.ts:46-65 | every node id opens the panel of the very slice the node was drawn from, never the fallback |
| `Deploy.PolicyAddressFromReceipt` | apps/web/lib/deploy.ts:363-378 | the address of the first readable event of the factory, or none |
| `Deploy.AddressIsTheFactorys` | apps/web/lib/deploy.ts:363-378 | the address found is the factory's, and no earlier log of the factory was readable |
| `Deploy.Deployment.DeployPolicy` | apps/web/lib/deploy.ts:155-354 | which step fails, decided by the first bad answer; the final status of all six steps; exactly which transactions went out, in order; that the vault holds the new entry exactly when the trigger was configured and the write went through; and that steps shown as done had successful transactions exactly when no approval reverted |
| `Deploy.Deployment.Transact` | apps/web/lib/deploy.ts:205-233 | one write and its receipt: its transaction goes out exactly when the wallet submits it, the step ends done or failed, and later steps stay pending |
| `Deploy.Deployment.HandOver` | apps/web/lib/deploy.ts:284-304 | the hand-off never fails the deployment, and is done exactly when its record is in the vault |
| `Deploy.Deployment.Fund` | apps/web/lib/deploy.ts:308-351 | without a deposit both funding steps are skipped and nothing is sent |
| `Deploy.VerdictExactly` | apps/web/lib/deploy.ts:155-354 | each outcome and exactly when it is reached, from the wallet's answers and the receipts alone |
| `Deploy.FinalSteps` | apps/web/lib/deploy.ts:155-354 | the contract of a run leaves one possibility for all six statuses |
| `Deploy.EntryExactly` | apps/web/lib/deploy.ts:255-303 | the new entry, field by field: address from the factory's event, sealed text if there is one, hand-off if it was made and, in the vault, recorded |
| `Deploy.DoneWasSent` | apps/web/lib/deploy.ts:205-351 | a write that ends done had its transaction sent in that very run |
| `Deploy.EndedWasRunning` | apps/web/lib/deploy.ts:167-171 | a step shown as done or failed was shown running before |
| `Deploy.SnapshotShape` | apps/web/lib/deploy.ts:167-171 | every snapshot reads settled steps, at most one running or failed, then pending; sealing and hand-off never fail |
| `Deploy.StatusesOnlyAdvance` | apps/web/lib/deploy.ts:167-171 | no step is ever taken back between two snapshots |
| `Deploy.TransactionsInOrder` | apps/web/lib/deploy.ts:155-354 | transactions go out in step order and none twice |
| `Deploy.SavedBeforeHandOffAndFunding` | apps/web/lib/deploy.ts:258-275 | the entry is saved before the hand-off or either funding transaction is sent |
| `Deploy.SavedAfterConfigure` | apps/web/lib/deploy.ts:252-275 | and only once the trigger is configured |
| `Deploy.DoneExactlyUnlessApprovalReverts` | apps/web/lib/deploy.ts:205-351 | however a run ends, every step shown as done had a successful transaction exactly when no approval reverted |
| `Deploy.RevertedApprovalRun` | apps/web/lib/deploy.ts:325-327 | a run reported as deployed and funded although its approval reverted |
| `Deploy.ReturnedIsKept` | apps/web/lib/deploy.ts:297-303 | the returned entry is the one in the vault unless the hand-off was made and its record not written |
| `Vault.Storage.SaveEntry` | apps/web/lib/vault.ts:84-87 | a save drops the entries of that address in any case and appends; a failed write changes nothing |
| `Vault.SaveUpdatesTheMap` | apps/web/lib/vault.ts:84-87 | saving is the update of a map keyed by lower-cased address, on any list |
| `Vault.SavesRefineMap` | apps/web/lib/vault.ts:73-87 | so is any sequence of saves, which never introduces a duplicate |
| `Vault.GetAfterSave` | apps/web/lib/vault.ts:79-87 | what was saved last under an address, in whatever case, is what is read back |
| `Vault.FindsTheFirst` | apps/web/lib/vault.ts:79-82 | reading takes the first entry of the address, or none when there is none |
| `Vault.WithoutOne` | apps/web/lib/vault.ts:84-87 | and drops exactly those of its own address in any case |
| `Vault.WithoutSplits` | apps/web/lib/vault.ts:84-87 | a save keeps the other entries in their order |
| `Vault.ListingIsSorted` | apps/web/lib/vault.ts:73-77 | the listing is newest first, entries of one moment in stored order |
| `Vault.ListingIsComplete` | apps/web/lib/vault.ts:73-77 | and holds exactly the stored entries of that chain |

## Left out

- Text is a sequence of Unicode scalar values: lone surrogates, escaped surrogates in JSON and a leading byte-order mark
  are not modelled; lower-casing is ASCII lower-casing, which is all an address has.
- Numbers in JSON are their numerals; floating-point reading and printing of them is not modelled.
- Objects have distinct keys that are not array indices; duplicate and `__proto__` keys in JavaScript objects are not
  modelled. Go's case-insensitive matching of JSON keys is not modelled: the payload's keys are exact.
- Type failures the schema library reports before the rules apply (missing or mistyped fields) are taken as checked.
- `Ecies.ToBytes` reads text character by character; characters outside the basic plane count twice in the code.
  Decompression of a compressed key is a parameter.
- The address checksum rule and the asset table are parameters of the compiler. That the salt is exactly 64 hex digits is
  assumed: the code leaves it to the type and to the ABI encoder, whose size check is library behaviour.
- The node's decryption and signing are modelled by what they return; its decryption is taken to be that of
  `Ecies.Open`.
- Go's `int` evaluation count is unbounded here; the last policy is an optional address instead of its hex text; a nil
  trigger time is a request without one, refused like zero.
- HTTP, routing by path, the decoding of actions before the queue and the shape of the JSON responses.
- Handlers that never return: a function in the queue is a finite sequence of segments.
- `Encoding.Bytes32HexToString`: the lenient decoding of UTF-8 is a parameter.
- `Registration.StateFile.RegisterNode`: chain calls and polling are one request and one answer each; a run without
  `--resume` deletes the file first and is a new history.
- In `Deploy` a progress callback that throws is not modelled, and a snapshot is what the callback reads when it is
  called: the code hands out the step objects themselves, which change later. Hashes and notes shown beside a step are
  dropped.
- `Vault` entries survive their own JSON text; only the fields the list is searched, sorted and updated by are separate.
- The listing's sort and the panel's index parsing assume well-formed numbers (`Canvas.InspectorFindsTheSlice` asks that
  decimal text reads as its number for every possible array index).
- Descriptions, rows, help texts and date formats of nodes and panels: a slice stands for the panel made from it.
- The contracts, the attestor gate and the trigger contracts: nothing is said about execution on chain.
- The Python port of the server, the templates, the remaining deployment tools, and all user-interface components.
