# PQ1 host tools and USB link: a verified model

PQ1 is a hardware wallet. This project models the logic around its firmware that is pure computation or
protocol: the tools that prepare what the device signs, the demo that talks to it over USB, and the parts of the
firmware at the other end of the wire. Every main result is a statement about all inputs, all runs or
all crash points. Nothing is assumed without proof; hash functions, character classes and the like that the
proofs do not depend on are parameters.

## What is proved

* **Merkle-Patricia proofs** (`Bytes`, `Rlp`, `Mpt`). The RLP decoder inverts the encoder on every item and
  accepts nothing else, so an item has one accepted encoding. On that rests the proof walker: for every
  well-formed, non-empty trie and every key, the nodes on the look-up path are accepted for the trie's root and yield
  what a plain look-up yields, whatever the hash. Unless a node of the proof collides with one of that path, no
  other list is accepted; a wrong answer hands over the two byte strings that collide.
* **The USB link** (`Buffers`, `HidFraming`, `HidReassembly`, `ChainedExchange`, `LinkedExchange`, `PingBarrier`,
  `SyncedExchange`, `ScheduledRequest`, `ReportRing`). Both ends cut messages into the same frames, and both
  reassemblers return exactly the message, whatever stale frames arrive with it. Over those frames a chained request
  is executed by the firmware once or not at all, and the host ends with exactly its outcome, for every state of the
  router; it is exactly the payload that is executed if and only if it is within the bound and no bytes of an
  abandoned request wait in the chain. After the PING barrier both queues hold nothing from before it, over every
  interleaving of host, device and writes of unknown outcome, and the exchange that follows, whatever its APDU, ends
  with its own answer or with none (deadline, disconnect, cancellation), never with another's. A chained request
  after it, drain included, ends under every schedule with its own outcome or with none, and even then the firmware
  executed it once or not at all.
* **The mutation journal** (`Journal`, `Manifest`). Every crash of a run or of a recovery, in the middle of a
  write included, leaves a disk from which the next recovery restores the tree or refuses over a tree that is intact,
  as long as the restoring write finds a whole journal behind it. The exact condition is below.
* **Three Keccak-256 implementations** (`Keccak*`). The C version (25 machine words), the nested-list and the
  flat-list Python versions (unbounded integers, in-place steps, different paddings) compute one
  digest on every message, and their tables are those that FIPS 202 generates.
* **Parsers** (`ParseUnits`, `Splitter`, `Interpolation`, `TypeGrammar`, `Glob`). Each is proved exact against a
  grammar or a printer: what it accepts, what it returns, and that nothing else is accepted. For `Glob` that is
  what the gate checker is for: a trigger of which nothing is reported runs the gate on every policed path.
* **The descriptor catalogue** (`Merkle`, `Catalogue`, `CatalogueWriter`, `DescriptorBundle`). From the records
  that the compiler writes, through the look-up of the build script, to the verifier on the device: every
  deployment is found and its trailer verifies, and whatever the device accepts is an entry of the catalogue, at
  the claimed index, or exhibits a collision between inputs that the tree and the walk really hash.
* **Graph walks, SHA-256 blocks, Safe calldata** (`GraphWalks`, `Sha256Blocks`, `SafeCalldata`, `SafeExec`).

Imperative code is modelled by methods over arrays and objects, each proved equal to a function of its
inputs; the lemmas are about those functions, and for graph walks the postcondition is the property itself.

## Where the code does not do what it is meant to do

Each of these is a lemma, with the exact condition under which the code does meet the property.

* `Journal.CrashIsRecoverable`: `run_one` restores the file in its `finally` clause even when `journal_begin` raised
  before the journal was whole. That rewrite is unprotected: if it is torn, the next run finds no usable journal over
  a damaged file. Crash by crash, the file is recoverable exactly when the journal was written in full or the crash
  does not tear that rewrite; `Journal.RestoreNeedsJournal` says the same of all crashes of a run.
* `ChainedExchange.EndToEnd`: when a block's answer does not come, the demo gives the request up, and the router keeps
  the blocks it has. A second try with the same instruction is then executed on the old bytes followed by the
  payload (or refused for their length); with another instruction it is refused. It is exactly the payload that is
  executed if and only if it is within the bound and nothing is left over. `LinkedExchange.EndToEndOverFrames` says
  the same over the frames.
* `Mpt.EmptyTrieHasNoProof`: absence from a trie with nothing in it is refused with every proof, though the walker has
  a test for the empty reference; every other absence has its proof (`Mpt.ProofIsAccepted`).
* `TypeGrammar.TrailingCommaAccepted`: `(uint256,)` is accepted as a type. On printable ASCII, which is all
  that `is_valid_text_sig` lets through, with no comma before a closing parenthesis and no spaces the validator is
  exact (`TypeGrammar.AcceptsExactlyThePrints`).
* `DescriptorBundle.LongIrIsCut`: the build script casts the length of an IR to 16 bits; it reads back exactly
  below 64 KiB. No catalogue reaches that, because the compiler refuses an IR above 4096 bytes.
* `GraphWalks.NoneIsExact`: the dependency search does not examine its root, so "nothing found" means "nothing
  classical is reachable" exactly when the root is no classical package. The check of package sources reports a
  workspace package of such a name before that.

## Model

| member | source | states |
|---|---|---|
| Rlp.RlpItem | tools/ens_proof_check.py:114-134 | the recursive item decoder, with its loop over lists, is the function that the round trip is about |
| Rlp.RlpList | tools/ens_proof_check.py:153-163 | the list loop consumes exactly its payload: truncation and overrun are refused as in the specification |
| Rlp.RlpDecode | tools/ens_proof_check.py:107-111 | a whole byte string is one item with nothing after it |
| Rlp.RoundTrip | tools/ens_proof_check.py:90-163 | what is encoded decodes to itself, for every nested item, except exactly a top-level string of 2^64 bytes or more |
| Rlp.DecodeEncodeAll | tools/ens_proof_check.py:153-163 | encoded items side by side anywhere in a byte string are read back as that list |
| Rlp.AcceptedIsCanonical | tools/ens_proof_check.py:107-163 | every accepted byte string is the encoding of the item it yields |
| Rlp.OneEncodingPerItem | tools/ens_proof_check.py:107-163 | two accepted byte strings with one meaning are equal: nothing is malleable |
| Mpt.NibblesOf | tools/ens_proof_check.py:169-173 | the loop yields the high and low half of each byte in order |
| Mpt.MptGet | tools/ens_proof_check.py:176-231 | the while loop over `ref`, `path` and `used` is the recursive walk, terminates on every proof, and counts nodes, bytes and distinct hashes of an accepted proof |
| Mpt.CountsAre | tools/ens_proof_check.py:176-231 | those counts are the length of all nodes joined and one entry for each digest among them |
| Mpt.HexPrefixReadsBack | tools/ens_proof_check.py:211-216 | the flag nibble tells leaf and parity, and the rest of a hex-prefix path is the path it was made of |
| Mpt.NodeStepIsTrieStep | tools/ens_proof_check.py:201-226 | one decoded node does to a path what the trie's own node does: branch, leaf, extension, mismatch |
| Mpt.AcceptsExactly | tools/ens_proof_check.py:176-231 | for a non-empty trie exactly the nodes on the look-up path are accepted, and the answer is the plain look-up of the hashed key, present or absent |
| Mpt.SoundOrCollision | tools/ens_proof_check.py:176-231 | for any hash: an accepted proof gives the right answer, or a node of it and a node of the path collide |
| Mpt.ProofIsAccepted | tools/ens_proof_check.py:176-231 | whatever the hash, every key of every non-empty trie has a proof that is accepted and answers as the look-up does |
| Mpt.EmptyTrieHasNoProof | tools/ens_proof_check.py:184-198 | no proof of absence is accepted for the root of the empty trie |
| Mpt.StorageWordExact | tools/ens_proof_check.py:242-249 | a slot holding n is read as n, from its one proof and from no other; n = 0 is the absent slot |
| Buffers.Buf.Put | macos-demo/pq1-demo.c:62-67 | bytes are appended in place within the buffer's bound |
| HidFraming.Frames | macos-demo/pq1-demo.c:1381-1398 | the loop over one scratch frame appends the wire form: first frame with length, continuations numbered from 1, zero padded |
| HidFraming.WriteApdu | macos-demo/pq1-demo.c:1400-1410 | the reports handed over are those frames in order |
| HidFraming.ChunksOfWire | macos-demo/pq1-demo.c:1381-1410 | cutting the wire form every 64 bytes gives the frames |
| HidFraming.TransmitIsFramesOf | nonsecure/src/usb/transport.rs:219-276 | polling the firmware's transmitter until it is idle emits the same frames as the host's loop for the response, cut at the buffer's size |
| HidReassembly.CopyFrame | macos-demo/pq1-demo.c:1457-1470 | a frame is accepted or refused as specified and copied behind what was read; what was read never exceeds the announced length nor 4096 |
| HidReassembly.ReadReply | macos-demo/pq1-demo.c:1441-1478 | on any stream of reports, time-outs and disconnects the loop returns what the reading function returns, and leaves the same events unread |
| HidReassembly.ReadsTheMessage | macos-demo/pq1-demo.c:1441-1478 | the frames of any message of 2 to 4096 bytes are read as exactly that message and status word, after any reports of another tag or another number than 0, and with any reports of another tag between them |
| HidReassembly.RepliesExactly | macos-demo/pq1-demo.c:1441-1478 | and nothing else is: the loop answers exactly when frames with tag 0x05, numbered from 0, carry a whole message of 2 to 4096 bytes among such reports, and then with that message |
| HidReassembly.AssemblesTheMessage | shared/src/apdu_framing.rs:406-551 | the firmware's assembler makes the frames of a message, between foreign ones, that one APDU and is idle again |
| HidReassembly.CompletedIsWhole | shared/src/apdu_framing.rs:406-551 | whatever the stream, an APDU that comes out was sent as a whole: its frames arrived in order on one channel, with nothing but foreign reports between them |
| ChainedExchange.DrainReply | macos-demo/pq1-demo.c:1487-1501 | draining into the reply buffer in place, with its round and capacity limits |
| ChainedExchange.ExchangeAndDrain | macos-demo/pq1-demo.c:1480-1501 | one exchange and its drain, against any peer |
| ChainedExchange.SendChained | macos-demo/pq1-demo.c:1515-1533 | the loop over 255-byte blocks, stopping on an error or a status other than 0x9000 |
| ChainedExchange.OnlyWholeRequests | macos-demo/pq1-demo.c:1487-1533 | against any peer a prefix of the blocks is sent, each but the first after a drained 0x9000; only a failure or another status stops before the last; at most 200 GET_RESPONSEs go out between two blocks or after the last |
| ChainedExchange.DrainGivesUp | macos-demo/pq1-demo.c:1487-1501 | a far side that never ends is asked exactly 200 times |
| ChainedExchange.BlocksCarryThePayload | macos-demo/pq1-demo.c:1515-1533 | the data of the blocks, joined, is the payload |
| ChainedExchange.OnlyTheLastIsMarked | macos-demo/pq1-demo.c:1515-1533 | P1 is 0x00 on the last block and 0x80 on every other, also for an empty payload; class, instruction and length are right |
| ChainedExchange.FramesCarryTheExchange | macos-demo/pq1-demo.c:1480-1484 | the frames of a block arrive as that block and the frames of the answer as that answer, so an exchange is a call |
| ChainedExchange.DrainsAll | nonsecure/src/usb/commands.rs:877-916 | draining a pending reply yields all of it and leaves nothing pending exactly when it fits the host's buffer |
| ChainedExchange.DirectEndToEnd | nonsecure/src/usb/commands.rs:288-317 | an instruction answered from its one APDU is executed on that data, its answer is drained, and an open chain stays as it is |
| ChainedExchange.RouterRefuses | nonsecure/src/usb/commands.rs:251-396 | broken headers, other classes and unknown instructions are refused with their status word and execute nothing; a reply not drained is dropped by every other instruction |
| ChainedExchange.SendExecutes | nonsecure/src/usb/commands.rs:251-408 | from any block on, the chain executes the whole payload once, or refuses it with the wrong-length status |
| ChainedExchange.SendFromOffset | macos-demo/pq1-demo.c:1515-1533 | to any peer the blocks of a payload are those of a longer one from there on |
| ChainedExchange.OtherChainCloses | shared/src/apdu_framing.rs:266-300 | with a chain of another instruction open the first block is refused with 0x6985 and the chain closed |
| ChainedExchange.LeftOverJoins | shared/src/apdu_framing.rs:266-300 | the payload joins what an abandoned request of the same instruction left, and is executed with it, or refused for the length of both |
| ChainedExchange.EndToEnd | macos-demo/pq1-demo.c:1515-1533 | for every state of the router: the outcome in each case, and that exactly the payload is executed, once, if and only if it is within the command's bound and nothing is left over |
| LinkedExchange.CallIsExchange | nonsecure/src/usb/transport.rs:128-276 | one exchange over the frames, of any APDU that fits the assembler and whatever the link slips in, is to host and router the APDU handed over and its response |
| LinkedExchange.PlainIsPassable | macos-demo/pq1-demo.c:1400-1478 | a link that adds nothing is among those covered |
| LinkedExchange.SendsAlike | macos-demo/pq1-demo.c:1487-1533 | a chained request, drain included, comes to the same with any two peers that answer alike |
| LinkedExchange.LinkedIsCalled | macos-demo/pq1-demo.c:1487-1533 | so over the frames it is to host and router the request made by calls |
| LinkedExchange.EndToEndOverFrames | macos-demo/pq1-demo.c:1381-1533 | over the frames, for every state of the router: the same outcomes and the same condition; no APDU stays half assembled |
| PingBarrier.RunKeeps | nonsecure/src/usb/transport.rs:128-173 | over every run of the two queues the answers stay in order and the PING's echo, or the PING, is still on its way |
| PingBarrier.EchoEmptiesThePast | macos-demo/pq1-demo.c:1424-1439 | when the echo is read nothing caused by an earlier frame is queued anywhere |
| PingBarrier.Barrier | macos-demo/pq1-demo.c:1424-1439 | the same from the moment the PING is queued, over every possible run until its echo is taken |
| PingBarrier.OwnNoncesDiffer | macos-demo/pq1-demo.c:1424-1439 | until the 64-bit counter runs out no nonce is used twice |
| PingBarrier.Link.HidWrite | macos-demo/pq1-demo.c:1230-1262 | its result by what the operating system makes of the write; success queues the report, and a failure may have queued it too |
| PingBarrier.Link.HidRead | macos-demo/pq1-demo.c:1264-1282 | the oldest report is taken when there is one, and otherwise none, while the device works on |
| PingBarrier.Link.SendPing | macos-demo/pq1-demo.c:1424-1431 | a PING with the next nonce, which no queued frame carries, is written, and the write may fail |
| PingBarrier.Link.SyncLink | macos-demo/pq1-demo.c:1424-1439 | its result, whatever happened: success exactly when the PING was written and the last report read is its echo, a time-out only when every read was made and none was, a disconnect only when a read found it; success leaves both queues empty, so no stale reply can be read |
| PingBarrier.Link.AwaitEcho | macos-demo/pq1-demo.c:1432-1438 | the waiting loop, with the same account of its reads |
| SyncedExchange.FirmwareAnswers | nonsecure/src/usb/transport.rs:128-173 | the firmware, report by report, is a device such as the barrier relies on, whether or not the echo of a PING gets through |
| SyncedExchange.InOrder | nonsecure/src/usb/transport.rs:128-276 | over every schedule of the two queues, what the host took and what waits for it is what the firmware sent for the reports it worked through, in order and without loss, but that the echo of a PING may be dropped |
| SyncedExchange.ServesWithoutPings | nonsecure/src/usb/transport.rs:128-173 | where no PING is among the reports nothing at all is dropped |
| SyncedExchange.ServeRequest | shared/src/apdu_framing.rs:406-551 | a first part of a request draws nothing, the whole its reply; an assembler left in the middle of something drops it |
| SyncedExchange.TakesItsReply | macos-demo/pq1-demo.c:1441-1478 | from empty queues the host takes a first part of its reply and nothing else; once it is all, the queues are empty and the request was dispatched once; until then it was dispatched once or not at all |
| SyncedExchange.ReadsAll | macos-demo/pq1-demo.c:1441-1478 | all reports of a reply are read as it; with fewer the host waits until its deadline, a disconnect or the user ends it |
| SyncedExchange.ItsAnswerOrNone | macos-demo/pq1-demo.c:1480-1484 | from empty queues, whatever state the firmware was left in, the exchange of any APDU, answered directly or through the chain, ends with exactly its own answer, or with none when the deadline, a disconnect or the user ends the wait first |
| SyncedExchange.StatusOrNone | macos-demo/pq1-demo.c:1562-1565 | so the GET_STATUS that follows the barrier reads the status the firmware has to give, or none |
| SyncedExchange.SyncFirst | macos-demo/pq1-demo.c:2173-2174 | after the barrier that holds for the next exchange, whatever was queued before |
| ScheduledRequest.SettlesOrIsLost | macos-demo/pq1-demo.c:1480-1484 | an exchange under any schedule is to host and firmware the exchange by a call, over queues that are empty again, or no reply comes and the APDU was dispatched once or not at all |
| ScheduledRequest.SendsOrIsLost | macos-demo/pq1-demo.c:1515-1533 | from any block on, drain included, the same of the rest of a chained request |
| ScheduledRequest.ItsOutcomeOrNone | nonsecure/src/usb/commands.rs:251-396 | from empty queues, for every schedule and every state of assembler and router: the chained request comes to what it comes to by calls, over queues that are empty again, or the host gives up and it was executed once or not at all |
| ScheduledRequest.SyncThenRequest | macos-demo/pq1-demo.c:1424-1439 | the barrier succeeded, so that holds of the next request, whatever was queued before |
| ScheduledRequest.ItsOutcome | macos-demo/pq1-demo.c:1515-1533 | with an idle assembler and under a schedule in which the host hears every reply to its end the outcome is that by calls |
| ScheduledRequest.PromptIsComplete | nonsecure/src/main.rs:325-340 | there is such a schedule: write all, answer all, take all |
| ReportRing.Ring.OnReport | macos-demo/pq1-demo.c:1116-1130 | the ring holds the newest 128 reports, each cut or zero padded to 64 bytes; empty and failed ones are ignored |
| ReportRing.Ring.Read | macos-demo/pq1-demo.c:1264-1271 | the oldest waiting report is taken out |
| ReportRing.LastOnesStay | macos-demo/pq1-demo.c:1116-1130 | dropping the oldest one at a time keeps the last 128 of all arrivals |
| Journal.Files.Write | scripts/check_pin_credential_mutations.py:105-109 | a durable write is one effect on the disk, logged |
| Journal.Files.TryWrite | scripts/check_pin_credential_mutations.py:105-109 | a write that raises has landed in part or not at all, as what is to become of it says |
| Journal.Runner.JournalBegin | scripts/check_pin_credential_mutations.py:120-130 | backup first, journal second; when a write raises, a first part of these two |
| Journal.Runner.JournalEnd | scripts/check_pin_credential_mutations.py:133-135 | journal first, backup second |
| Journal.Runner.JournalPending | scripts/check_pin_credential_mutations.py:138-146 | the entry of the journal; one that cannot be read still counts, as an entry no backup matches |
| Journal.Runner.JournalRecover | scripts/check_pin_credential_mutations.py:149-167 | the verdict and the effects of the recovery plan, refusals included |
| Journal.Runner.RestoreAll | scripts/check_pin_credential_mutations.py:305-315 | every remembered file gets its original bytes and is forgotten |
| Journal.Runner.TryMutation | scripts/check_pin_credential_mutations.py:336-352 | the `try` block gets all of its effects done, or a first part of them when a step raises |
| Journal.MutantIsInTheTree | scripts/check_pin_credential_mutations.py:336-340 | when the `try` block is done the edited file is in the tree, no other source is touched, and backup and journal say how to undo it |
| Journal.Runner.RunOne | scripts/check_pin_credential_mutations.py:323-355 | an entry is applied exactly when its text occurs once and differs from the replacement; then the effects are those the `try` block got done and the whole `finally` block, in order, and the sources are as before; when nothing raised, the `try` block ended by writing the file with the replacement where its first occurrence was; otherwise the disk is untouched |
| Journal.RecoveryRestores | scripts/check_pin_credential_mutations.py:149-167 | from every safe disk: restored and clean, or refused with the tree intact; no other file changes and a second recovery does nothing |
| Journal.RecoversExactly | scripts/check_pin_credential_mutations.py:149-167 | on any disk at all: the backup is written back exactly when the journal can be read and holds its digest; otherwise nothing is touched |
| Journal.JournalIsRead | scripts/check_pin_credential_mutations.py:120-167 | a whole journal is recovered from by writing the original bytes back |
| Journal.CrashIsSafe | scripts/check_pin_credential_mutations.py:120-167 | safe throughout a plan means safe at each of its crash points, the last write torn or not |
| Journal.RunRestores | scripts/check_pin_credential_mutations.py:334-355 | a run that is not cut off, whatever its `try` block got done, leaves every source as it was and nothing pending |
| Journal.RecoveryIsSafe | scripts/check_pin_credential_mutations.py:149-167 | a recovery interrupted anywhere can be repeated |
| Journal.RunIsSafe | scripts/check_pin_credential_mutations.py:323-355 | a run whose journal was written is safe at every crash point, whichever step raised, and ends clean |
| Journal.CrashIsRecoverable | scripts/check_pin_credential_mutations.py:335-355 | a crash of a run, whichever step raised, is recoverable if and only if the journal was written in full or the restoring write is not torn |
| Journal.RestoreNeedsJournal | scripts/check_pin_credential_mutations.py:335-355 | every crash of a run is recoverable if and only if its journal was written in full or the file is empty |
| Journal.TornRestore | scripts/check_pin_credential_mutations.py:353-355 | a file that is not empty has such a torn restoring write |
| Journal.AlwaysRecoverable | scripts/check_pin_credential_mutations.py:120-355 | after any history of runs and recoveries, each raising and crashed anywhere but for the crash ruled out above, the tree can be recovered |
| Manifest.ReplacementIsThere | scripts/check_pin_credential_mutations.py:170-181 | replacing all occurrences leaves the replacement in the text |
| Manifest.ReplacesTheFirst | scripts/check_pin_credential_mutations.py:340 | with one occurrence counted the edit puts the replacement where the first occurrence is and keeps the text before and after it |
| Manifest.CountNext | scripts/check_pin_credential_mutations.py:330-332 | the count is one for the first occurrence and then the count behind it |
| Manifest.AnchorsInSeam | scripts/check_pin_credential_mutations.py:184-201 | after the edit the sought text counts as often as in the seam: the replacement and fewer bytes on either side than the text has |
| Manifest.BlindExactly | scripts/check_pin_credential_mutations.py:170-201 | an entry is undetectable exactly when its replacement does not contain the sought text but forms it again, once, across the seam; every other applied entry is reported |
| KeccakSpec.Mod5IsRemainder | macos-demo/pq1-demo.c:232-240 | the case splits that the index arithmetic modulo 5 is proved with are the remainder |
| KeccakSpec.RoundIsSteps | macos-demo/pq1-demo.c:230-242 | whatever satisfies theta, rho with pi, chi and iota in turn is the round of sections 3.2 and 3.3 of FIPS 202 |
| KeccakSpec.FromTo | macos-demo/pq1-demo.c:236-237 | the lane moves of pi are undone by their inverse, so each target is written once |
| KeccakSpec.ToFrom | macos-demo/pq1-demo.c:236-237 | and each source is read once |
| KeccakC.KeccakFC | macos-demo/pq1-demo.c:216-243 | the in-place rounds over 25 lanes are the permutation |
| KeccakNested.KeccakFNested | tools/build_erc20_db.py:224-238 | the in-place rounds over a five by five list are the permutation |
| KeccakNested.OffsetsAgree | tools/build_erc20_db.py:210-216 | the nested offset table is the flat one, column by column |
| KeccakFlat.KeccakFFlat | tools/erc7730_proxy_drift.py:204-231 | the in-place rounds over the flat list are the permutation |
| KeccakMap.RoundsMap | tools/erc7730_proxy_drift.py:204-231 | rounds over two kinds of lanes correspond when rotation, exclusive or and chi do |
| KeccakWords.RolWidens | tools/build_erc20_db.py:220-221 | the masked shifts of unbounded integers rotate a 64-bit word as the machine does |
| KeccakWords.ChiWidens | tools/erc7730_proxy_drift.py:220-229 | complementing an unbounded integer, which makes it negative, does not show in chi |
| KeccakWords.RolIsRotation | macos-demo/pq1-demo.c:214 | rotation by n moves bit i to bit i + n modulo 64 |
| KeccakWords.ChiIsBitwise | macos-demo/pq1-demo.c:238-240 | chi and exclusive or, bit by bit |
| KeccakWords.NestedRespects | tools/build_erc20_db.py:220-238 | so the lanes of the nested version are the C lanes |
| KeccakWords.FlatRespects | tools/erc7730_proxy_drift.py:198-231 | and so are those of the flat version |
| KeccakSponge.PadIsWholeBlocks | tools/build_erc20_db.py:241-247 | the padding fills whole blocks of 136 bytes and is never empty |
| KeccakSponge.AbsorbStep | macos-demo/pq1-demo.c:245-269 | absorbing block by block without a padded copy is absorbing the padded message |
| KeccakSponge.DigestMaps | macos-demo/pq1-demo.c:245-272 | machines whose lanes correspond hash alike |
| KeccakSponge.EmitAllKeepFour | tools/erc7730_proxy_drift.py:249-250 | writing out all lanes and keeping 32 bytes is writing out four |
| KeccakHash.LoadLane | macos-demo/pq1-demo.c:261-262 | a lane is assembled from its bytes, last first, as little-endian |
| KeccakHash.LastBlock | macos-demo/pq1-demo.c:253-258 | the final block in its zeroed buffer is the padding of what is left, also when both marks meet in one byte |
| KeccakHash.Keccak256C | macos-demo/pq1-demo.c:245-272 | the C loop writes the digest of the sponge into the output |
| KeccakHash.PadNested | tools/build_erc20_db.py:241-246 | the builder's padding is that padding |
| KeccakHash.Keccak256Nested | tools/build_erc20_db.py:241-255 | the builder's hash is the digest of the sponge |
| KeccakHash.PadFlat | tools/erc7730_proxy_drift.py:237-241 | the drift checker's padding is that padding |
| KeccakHash.Keccak256Flat | tools/erc7730_proxy_drift.py:234-250 | the drift checker's hash is the digest of the sponge |
| KeccakAgreement.ThreeKeccaksAgree | macos-demo/pq1-demo.c:216-272 | the three hash every message to the same bytes |
| KeccakAgreement.StoreUndoesLoad | macos-demo/pq1-demo.c:260-271 | on all three machines eight bytes read as a lane are written as those eight bytes |
| KeccakAgreement.LoadedBit | macos-demo/pq1-demo.c:260-263 | bit i of byte k is bit 8k + i of the lane |
| KeccakAgreement.BitIsShift | macos-demo/pq1-demo.c:260-271 | the bits of a byte are numbered from the low one |
| KeccakAgreement.ConstantIsStored | macos-demo/pq1-demo.c:218-225 | a round constant is the lane whose bytes are its own, the low one first |
| KeccakAgreement.LanesStayBelow | tools/build_erc20_db.py:241-255 | after any number of blocks every Python lane is below 2^64, so writing it as eight bytes cannot raise |
| KeccakConstants.RoundConstantsAreGenerated | macos-demo/pq1-demo.c:218-225 | the 24 round constants are those that the shift register of section 3.2.5 of FIPS 202 generates |
| KeccakOffsets.OffsetsAreGenerated | macos-demo/pq1-demo.c:226-228 | the 25 rotation offsets are those of the walk of section 3.2.2 of FIPS 202 |
| ParseUnits.Trim | macos-demo/pq1-demo.c:145-153 | the text without surrounding space, cut to the buffer, terminated |
| ParseUnits.Strip | macos-demo/pq1-demo.c:185-187 | separators are squeezed out in place |
| ParseUnits.TimesTen | macos-demo/pq1-demo.c:201-206 | number times ten plus digit equals buffer plus carry at its end, and the carry never exceeds 9 |
| ParseUnits.Accumulate | macos-demo/pq1-demo.c:198-208 | the digits and the padding zeros are accumulated exactly when the number fits |
| ParseUnits.ParseUnits | macos-demo/pq1-demo.c:179-210 | the three refusals in order; a refusal before the digits are read leaves the output alone |
| ParseUnits.ReadsTheNumber | macos-demo/pq1-demo.c:179-210 | for every text that spells a decimal, with commas and underscores anywhere in it and white space around it: accepted exactly when its fraction and its value times 10^decimals fit, and as that value; of a text too long for the buffer the first 127 characters count |
| ParseUnits.RefusesTheRest | macos-demo/pq1-demo.c:188-193 | exactly the texts that spell no decimal are refused as no number |
| ParseUnits.InsertedExactly | macos-demo/pq1-demo.c:185-187 | squeezing takes out the commas and underscores that were put in, and nothing else |
| Splitter.SplitTopLevel | tools/cross_parity_erc7730.py:177-218 | the index loop with its stack, quote and escape flags is the splitting function, refusals included |
| Splitter.SplitsExactly | tools/cross_parity_erc7730.py:177-218 | a value splits into these parts exactly when it is their join and each is spelled by characters, strings with backslash escapes, and matched round, square or curly brackets, with no comma outside them |
| Splitter.ItemsAreParts | tools/cross_parity_erc7730.py:188-218 | the same for one part |
| Splitter.MixedBracketsAreRefused | tools/cross_parity_erc7730.py:201-203 | a bracket closed by one of another kind is refused, whatever stands between them |
| Splitter.BracketsMakeAnItem | tools/cross_parity_erc7730.py:177-218 | brackets of one kind around any accepted value make a single part, to any depth |
| Splitter.StringsAreItems | tools/cross_parity_erc7730.py:177-218 | a quoted string is a single part whatever it spells |
| Splitter.ParseParamMap | tools/cross_parity_erc7730.py:221-234 | the loop over the parts, with its three refusals |
| Splitter.ParamMapRoundTrip | tools/cross_parity_erc7730.py:221-234 | distinct keys with values, printed and joined, are read back as that map |
| Splitter.ParamMapAccepts | tools/cross_parity_erc7730.py:221-234 | every accepted value is the print of entries with distinct keys |
| Splitter.PairsAre | tools/cross_parity_erc7730.py:221-234 | the map holds each entry and nothing else |
| Interpolation.ParseOfficial | tools/cross_parity_erc7730.py:777-804 | the cursor loop is the parsing function, with its three refusals |
| Interpolation.ParsesExactly | tools/cross_parity_erc7730.py:777-804 | a text yields a template exactly when the template is well formed and spells the text |
| TypeGrammar.SplitTypeList | tools/build_selectors_json.py:70-91 | on printable ASCII, the loop over depth and current text is the splitting function |
| TypeGrammar.IsValidType | tools/build_selectors_json.py:94-114 | on printable ASCII, the suffix loop and the recursion are the validity predicate |
| TypeGrammar.IsValidTextSig | tools/build_selectors_json.py:120-138 | length, character set, name and parameter list of a signature |
| TypeGrammar.SplitsThePrints | tools/build_selectors_json.py:70-91 | the printed list of any type trees splits into the printed trees |
| TypeGrammar.SplitsTheSpaced | tools/build_selectors_json.py:70-91 | with any spaces around them as well |
| TypeGrammar.PrintIsValid | tools/build_selectors_json.py:94-114 | every printed type tree is accepted |
| TypeGrammar.SpacedTupleAccepted | tools/build_selectors_json.py:94-114 | and so is a tuple with spaces around its parts |
| TypeGrammar.PrimitivesAre | tools/build_selectors_json.py:53-67 | the primitive types: the plain ones, bytes of 1 to 32, and integers of 8 to 256 bits in steps of 8 |
| TypeGrammar.PrintInjective | tools/build_selectors_json.py:94-114 | different trees print differently |
| TypeGrammar.AcceptsExactlyThePrints | tools/build_selectors_json.py:66-114 | a tidy text of printable ASCII is accepted exactly when it is the print of a type tree, and then of one only |
| TypeGrammar.TrailingCommaAccepted | tools/build_selectors_json.py:70-114 | a comma before the closing parenthesis is accepted although no type prints one |
| TypeGrammar.SignatureIsValid | tools/build_selectors_json.py:120-138 | every printed signature of at most 63 characters is accepted |
| TypeGrammar.ValidSigIsSignature | tools/build_selectors_json.py:120-138 | every tidy accepted text is a printed signature of at most 63 printable characters |
| Glob.Covers | scripts/check_gate_enforcement.py:222-246 | covered exactly when one filter passes one of the four tests |
| Glob.CoversOneIsSound | scripts/check_gate_enforcement.py:222-246 | a filter that passes matches every path that the policed pattern matches |
| Glob.NegativeFailures | scripts/check_gate_enforcement.py:498-512 | exclusions in either list are reported |
| Glob.CoverageFailures | scripts/check_gate_enforcement.py:544-553 | exactly the policed paths that the filters miss are reported |
| Glob.PathFailures | scripts/check_gate_enforcement.py:470-560 | exactly the failures that a trigger's path filters deserve are reported, malformed lists first |
| Glob.NothingReportedRuns | scripts/check_gate_enforcement.py:432-560 | when nothing is reported the workflow runs on a change to every path that a policed pattern matches |
| Glob.CoversLiteralExactly | scripts/check_gate_enforcement.py:222-246 | for a single file and the four filter forms, covered exactly when matched |
| Merkle.Pad | dbgen/src/merkle.rs:66-72 | the last leaf is repeated up to a power of two |
| Merkle.Pair | dbgen/src/merkle.rs:75-82 | neighbours are hashed into the next level |
| Merkle.Build | dbgen/src/merkle.rs:66-85 | the levels of the padded leaves, up to the root |
| Merkle.ProofOf | dbgen/src/merkle.rs:103-111 | one sibling from each level below the root |
| Merkle.VerifyProof | tx/src/erc20/merkle.rs:33-72 | depth, proof length and leftover index bits are examined and the walk ends on the root |
| Merkle.ProofVerifies | dbgen/src/merkle.rs:66-111 | every entry verifies against the root with the proof made for it |
| Merkle.VerifiedIsAnEntry | tx/src/erc20/merkle.rs:33-72 | whatever verifies is the entry at that index with exactly its proof, at the tree's depth, or a hashed input of the walk collides with one of the tree |
| Catalogue.LittleEndianRoundTrip | nonsecure/build.rs:183-186 | little-endian fields read back |
| Catalogue.RowYieldsExactly | nonsecure/build.rs:214-257 | a matching row is read exactly when the IR it names lies before the proofs and inside the blob, binds chain, contract and kind, and its proof lies inside the blob; the entry is made of these slices |
| Catalogue.BuildEntry | nonsecure/build.rs:167-268 | the loop over the rows is the scan |
| Catalogue.BuildsExactly | nonsecure/build.rs:167-268 | for every blob a trailer comes out exactly when one row matches chain and contract, and it is what the bytes of that row yield |
| CatalogueWriter.WriteHeader | dbgen/src/erc7730.rs:2398-2430 | the 32-byte header, field by field |
| CatalogueWriter.WriteRow | dbgen/src/erc7730.rs:2434-2453 | a 72-byte row, field by field |
| CatalogueWriter.Emit | dbgen/src/erc7730.rs:2378-2470 | the blob is header, rows, IR pool and proofs, and is refused exactly when an offset leaves 32 bits; the root is that of the IRs |
| CatalogueWriter.FindsTheRecord | nonsecure/build.rs:167-268 | in every written catalogue a deployment with one record is found, with that record's IR, index and proof |
| DescriptorBundle.VerifyBundle | pqsigner-erc7730/src/bundle.rs:123-179 | the device's parser, its caps in order, and the Merkle walk |
| DescriptorBundle.TrailerUnpacks | nonsecure/build.rs:238-243 | a trailer with an IR below 64 KiB is taken apart into what it was made of, whatever the device's limits |
| DescriptorBundle.TrailerIsOfItsRow | nonsecure/build.rs:167-268 | for every blob the trailer that comes out, taken apart, is the slice that the one matching row names as its IR, the row's index, the depth and the row's slice of the proofs |
| DescriptorBundle.ParsesExactly | pqsigner-erc7730/src/bundle.rs:123-179 | the device's parser takes a bundle apart the same way and accepts it exactly within its limits |
| DescriptorBundle.TrailerReadsBack | pqsigner-erc7730/src/bundle.rs:123-179 | so a trailer within the limits is read back by the device |
| DescriptorBundle.LongIrIsCut | nonsecure/build.rs:238-243 | the packed IR length is right exactly below 64 KiB |
| DescriptorBundle.TrailersVerify | pqsigner-erc7730/src/bundle.rs:123-179 | from records to the device: each deployment's trailer is accepted for that record's IR |
| DescriptorBundle.AcceptedIsCatalogued | pqsigner-erc7730/src/bundle.rs:123-179 | whatever is accepted under a catalogue's root is the IR at the claimed index, or exhibits a collision |
| DescriptorBundle.BuildProofSet | nonsecure/build.rs:274-307 | the method is the function that `DescriptorBundle.ProofSetOpens` is about |
| DescriptorBundle.ProofSetOpens | nonsecure/build.rs:274-307 | for every blob a proof set comes out exactly when both look-ups find contracts, and it is the one that opens as their two trailers, in order |
| DescriptorBundle.OpensExactly | nonsecure/build.rs:293-305 | a payload opens as two bundles exactly when it is their envelope and both lengths fit 16 bits |
| DescriptorBundle.VerifyProofSet | pqsigner-erc7730/src/proof_set.rs:118-216 | the envelope or lone bundle is verified with its refusals in order |
| DescriptorBundle.EnvelopeSplits | pqsigner-erc7730/src/proof_set.rs:172-184 | within the device's cap an envelope splits into its two bundles in order with nothing left over |
| DescriptorBundle.EnvelopeComesTo | pqsigner-erc7730/src/proof_set.rs:118-170 | an envelope comes to the first refusal of its two bundles, with its place, or to their two descriptors when their hashes differ |
| DescriptorBundle.AcceptsPairsExactly | pqsigner-erc7730/src/proof_set.rs:118-170 | two descriptors are accepted exactly from the envelope of two bundles accepted one by one, with different leaf hashes |
| DescriptorBundle.AcceptsLoneExactly | pqsigner-erc7730/src/proof_set.rs:118-170 | one is accepted exactly from a bundle accepted alone |
| DescriptorBundle.LoneBundleIsNoEnvelope | pqsigner-erc7730/src/proof_set.rs:127-141 | no acceptable bundle starts with the envelope's magic |
| DescriptorBundle.ProofSetVerifies | nonsecure/build.rs:274-307 | the envelope for two deployments is accepted as their two IRs, outer first |
| GraphWalks.Expand | scripts/check_classical_crypto_boundary.py:69-80 | one package's dependencies: paths added are shortest, a path found is shortest, and its successors are seen |
| GraphWalks.DependencyPath | scripts/check_classical_crypto_boundary.py:61-81 | a shortest path over normal and build edges to a classical package, and none exactly when there is none |
| GraphWalks.NoneIsExact | scripts/check_classical_crypto_boundary.py:61-81 | finding none means that only the root itself can be a reachable classical package |
| GraphWalks.ReachesBoard | scripts/check_hw_target_boards.py:58-67 | the search from one feature, on cyclic graphs too, finds exactly whether the board feature is reachable |
| GraphWalks.FeaturesRequiringBoard | scripts/check_hw_target_boards.py:54-68 | exactly the features that reach it |
| Sha256Blocks.SetBe | macos-demo/pq1-demo.c:107-110 | big-endian bytes in place, the rest of the buffer unchanged |
| Sha256Blocks.FillLast | macos-demo/pq1-demo.c:326-334 | the last one or two blocks, in place |
| Sha256Blocks.Sha256 | macos-demo/pq1-demo.c:322-336 | the compression function is fed exactly the padded message of section 5.1.1 of FIPS 180-4, in order |
| Sha256Blocks.PaddingIsSound | macos-demo/pq1-demo.c:322-336 | whole blocks that start with the message; the length field is the bit length exactly below 2^61 bytes |
| Sha256Blocks.PaddingIsMarked | macos-demo/pq1-demo.c:326-334 | after the message 0x80, then fewer than 64 zeros up to the length field |
| Sha256Blocks.PaddingIsInjective | macos-demo/pq1-demo.c:322-336 | different messages below that length are padded differently |
| SafeCalldata.WordReadsExactly | tx/src/multisend.rs:125-131 | a 32-byte word reads as n exactly when it is the word of n and n fits 32 bits |
| SafeCalldata.MultiSend | macos-demo/pq1-demo.c:517-524 | selector, offset, length, payload and zero padding are appended |
| SafeCalldata.MultiSendIs | macos-demo/pq1-demo.c:517-524 | the bytes of the call: selector 8d80ff0a, the words 32 and length, the payload, zeros up to a multiple of 32 |
| SafeCalldata.MsRecord | macos-demo/pq1-demo.c:526-533 | a call record without value is appended |
| SafeCalldata.DecodesExactly | tx/src/multisend.rs:141-175 | the device accepts exactly the canonical encodings, and reads the payload out of them |
| SafeCalldata.WalksExactly | tx/src/multisend.rs:242-279 | the record walk yields these records exactly when the payload is their concatenation |
| SafeCalldata.SummarizePacked | tx/src/multisend.rs:459-488 | accepted exactly when the walk succeeds on one to six call records with nonzero targets; the count, the number of presignature claims and the last claim's index are right |
| SafeCalldata.ClaimsAreCounted | tx/src/multisend.rs:459-488 | that number is the number of records that claim |
| SafeCalldata.BatchReadsBack | tools/demo_px_flows.py:326-333 | batched records come back one by one from the calldata |
| SafeExec.ExecReadsBack | tools/demo_px_flows.py:317-323 | following the two offsets of execTransaction recovers data and signatures; every other field is as given |

## Left out

- Cryptographic strength. Hashes are parameters; where an answer depends on them the result names the two inputs that collide (`Mpt.SoundOrCollision`, `Merkle.VerifiedIsAnEntry`), or assumes no collision between the nodes at hand (`Mpt.AcceptsExactly`).
- The compression function of SHA-256 and the parser of descriptor IRs: parameters. The `account` record, the selftest and the name hashing around the proof walker are single calls.
- Factory instructions, which only a factory build has and whose direct responses are longer. What a command does with its data is a parameter, also for the commands answered directly; how it answers is modelled.
- ScheduledRequest.ItsOutcomeOrNone: a firmware that restarts, and so forgets its state, while the host waits is not a schedule here.
- ChainedExchange.EndToEnd: the firmware's time-out of an open chain is not an event of its own, because the theorem starts from any state of the router; which error a lost exchange returns is left to its caller.
- Time. Deadlines, time-outs, disconnects and cancellation are events that may occur at any point; how long anything takes is not modelled, and neither are the firmware's reassembly, chain and response time-outs.
- The operating system's USB layers, terminal handling, rendering and key input of the demo; the report ring is modelled with one callback at a time.
- The firmware's router lease, second channels in a chained exchange, header errors on other commands, and the glitch hardening of `fi_min`; its receive and transmit buffers are modelled on values.
- PingBarrier.Link.SyncLink: the seed, made of process id and clock, is a parameter; the constructor excludes only that an earlier process left a PING with a nonce this one has yet to use, and the counter is not driven to 2^64, where the code would seed it anew.
- The journal assumes that writes reach the disk in program order with at most the last one torn, although the restoring write before the journal is removed is not flushed by the code; modification times, signals and the exit hook are left out, since both call the same restore.
- Journal.Runner.RunOne: the cargo run is no effect on the disk and may raise; the verdict over its output is left out, because it is text matching on foreign output. The `finally` block's own writes do not raise in the method; that they may be cut off is what the crash lemmas are about.
- JSON is a pair of functions that undo each other on whole texts and refuse a torn one; `json` itself is not part of this model.
- Limits of Python's recursion depth in the RLP decoder and the type validator, and memory limits anywhere.
- TypeGrammar.IsValidType: on texts that are not printable ASCII the regular expressions accept more (a final newline, other digits), because the only caller has refused such texts before.
- Glob.NothingReportedRuns: branch filters, activity types and the parsing of the workflow file are left out, because they do not concern paths.
- Glob.CoversOneIsSound: GitHub's further pattern characters (`?`, `+`, `[`, `]`, `\`) are left to a parameter, because the tool never interprets them; policed patterns are built from literal text and stars.
- The shell comment stripper and the logical-line joiner of the gate checker, which only approximate a shell.
- GraphWalks.DependencyPath: a dependency missing from the list of package names raises a KeyError in the tool and is no classical package here, because `cargo metadata` lists every package.
- SafeCalldata.SummarizePacked: which of several errors is reported is not stated, because the callers only tell acceptance from refusal.
- SafeExec.ExecReadsBack: one direction only, because the device's decoder also takes other offsets and paddings; values of 2^32 bytes and more are excluded as the decoder refuses them.
- CatalogueWriter.Emit: descriptor compilation, sorting, attestation policy and the bloom filter before and after the layout are left out; records are given.
- DescriptorBundle.TrailersVerify: `usize` is 64 bits wide, as on the build host; the 32-bit device refuses every length that could overflow before it adds.
- The binary search of `selector_proof`, the demo's other request builders, network access and subprocesses.
