# Treeminer, modelled and proved in Dafny

Treeminer is a miner for an Argon2-based chain with a marketplace for hash power: rigs (C++) connect
over MQTT to a platform server (Python) that leases them out, signs commands for them, settles leases
and checks reported blocks against a simulated chain. This project models the parts whose
correctness is hard to see from any one function, and proves what they are for.

`dafny verify dfyconfig.toml` checks everything.

| file | what it models |
|---|---|
| `Blake2bSpec.dfy`, `Blake2bStream.dfy` | BLAKE2b as in RFC 7693, and the incremental hasher that refines it |
| `Blake2bExample.dfy` | the worked example of appendix A of RFC 7693 |
| `Argon2Host.dfy` | the host side of Argon2 (RFC 9106): variable-length hash, prehash, first blocks, final tag |
| `MqttCodec.dfy`, `MqttBroker.dfy` | the MQTT 3.1.1 codec of broker and client, the connection loops, topic matching and fan-out |
| `Market.dfy`, `MarketLaws.dfy`, `MarketMoney.dfy` | the marketplace as a step system, what every run keeps, and where the money is |
| `MarketPlatform.dfy` | the services that update the tables in place, each proved to take its step |
| `CanonicalJson.dfy`, `CommandEnvelope.dfy` | canonical JSON and a reader for it, the signed string, signing and checking, the nonce window |
| `MerkleTree.dfy` | the Merkle root and collision extraction |
| `WorkerSpec.dfy`, `WorkerPlatform.dfy` | the rig's lease state machine and command queue, as steps and as objects |
| `Chain.dfy`, `Watcher.dfy` | the chain simulator with its caches, and the block watcher |
| `MiningLoop.dfy` | attempt accounting and the fee schedule |
| `Common.dfy` | options and the identifier checks |

Where the source updates things in place, the model is a class or a method with loops, and its
contract ties the new state to a function of the old one; the laws are proved about those functions
over every run, and the platform and rig objects carry their history, so that the laws hold of the
objects themselves.

## How the model reads the code

* Each operation is one atomic step: a stop includes its settlement, an expiry pass its settlements,
  and a handler or watchdog tick of the rig runs to its end. The code does not enforce this
  everywhere: `check_expired_leases` does not take the lock, and deposit and withdraw read and write
  across awaits.
* Money is `real`, so the shares 0.95 and 0.05 add up to 1. The difficulty factor 1.05 is
  floor(21 * d / 20).
* Clock readings, random draws, network outcomes, address checksums, Python's `int(key, 16)`, the XUNI
  time window, the verdict on a command's authorisation and whether `json.loads` raises an exception
  that is not caught are inputs. SHA-256 and HMAC are arbitrary functions of fixed output width, where
  they are defined. An expiry pass reads the clock once.
* Lengths are mathematical integers; fields that the code casts to 32 bits are truncated in the model
  too.
* Strings in packets are byte sequences; validity of UTF-8 is checked as in RFC 3629. Lower-casing and
  digit and letter tests on keys, hashes and identifiers are those of ASCII.

## Where the code differs from what one would expect

Each of these is what the named theorems say, most of them as an exact condition.

* `transfer` to an account that does not exist fails after the debit, and the debit is not rolled back
  (`TransferConserves`, `TransferToNobody`).
* A worker may register under an identifier that no command can be published to. Its lease can be
  closed, but the failed publish comes before the settlement, so the provider is never paid
  (`ChargedStop`, `UnsafeWorkerUnpaid`, `UnpaidStaysUnpaid`). In an expiry pass one such worker keeps
  all leases of that pass from being settled: those before it in row order are closed and never paid,
  also when their workers are safe, and those behind it stay active for the next pass (`ExpirePass`,
  `UnpaidIff`, `SafeProviderUnpaid`).
* If the clock runs backwards during a lease, its cost is negative and can overdraw worker and
  treasury (`SettleOverdraws`, `BackwardClockOverdraws`).
* On the rig, "a lease is stored" does not imply MINING: a late registration acknowledgement moves
  MINING to AVAILABLE, and pause and stop skip a lease that has already expired (`HeldMiningRun`,
  `LateAcknowledgement`, `LatePause`). Once such a lease has expired it blocks the rig until it is
  released (`StaleUntilReleased`).
* After a remote shutdown the dispatch thread is still joinable, so the assignment of a new thread in
  the next `start` that connects ends the process (`ShutdownRun`, `RestartEndsProcess`).
* A comment in `PlatformManager.cpp` says that commands still queued at a stop are dropped. The code
  keeps them and handles them after a restart, and `FifoRun` covers this.
* `json.loads` can raise exceptions other than the two that broker and client catch, for very deep
  nesting or very long integers. Such a payload ends the connection before it is passed on
  (`StreamRoundTrip`, `ClientStreamRoundTrip`).
* A SUBSCRIBE or UNSUBSCRIBE packet that does not decode ends the connection, and so does a SUBSCRIBE with
  more than 253 filters, whose acknowledgement cannot be built (`MalformedEnds`).
* `sign` takes its nonce before it encodes the text to be signed, so that a text that cannot be encoded,
  such as one with a lone surrogate, uses up a nonce (`CommandSigner.Sign`).
* A base difficulty above the maximum drops at the first adjustment (`DifficultyNeverDrops`).
* A block that is on the chain is not verified when 100 or more later blocks share its prefix
  (`VerifiedIff`, `MissedBlock`).
* A Merkle root determines neither the number of leaves nor their level: any level of a tree, and any
  list with the same completion, has the same root (`SameRootIff`, `LevelsForge`, `RepeatedLastLeaf`).

## Main results

* `HashChunks`, `DigestLong`, `InitialHash`, `FillFirstBlocksTimed`, `Finalize`: the streaming hash and
  the host side of Argon2 compute what RFC 7693 and RFC 9106 define, for all inputs; `AbcDigest` ties the
  constants to the digest that RFC 7693 publishes.
* `WireBytes`, `BodyBytes`, `StreamRoundTrip`, `ClientStreamRoundTrip`, `ServeClient`,
  `RelayPreservesContents`, `MatchMeaning`: the MQTT codec, connection loops and routing, from the bytes of
  one client to what another one reads.
* `RunLaws`, `RunNonNegative`, `RunOnlyCloses`, `UnpaidIff`, `SettleOverdraws`, `RentThenStop`,
  `SafeProviderUnpaid` and `Platform.Laws`: money and leases over every run.
* `ReadPrint`, `PrintIffSameMeaning`, `SignedBytesDetermine`, `AlterationDetected`, `CommandSigner.Sign`: what a
  signature covers.
* `ConsistentRun`, `TaskTimes`, `HeldMiningRun`, `StaleUntilReleased`, `ShutdownRun`, `LeaseProvenance`,
  `FifoRun`, `BlocksCounted` and `PlatformManager.Laws`: the rig over every run.
* `SameRootIff`, `ExtractCollision`: what a Merkle root says about its leaves.
* `SubmitBlock`, `HandleBlockFound`, `VerifiedIff`: caches and counters against the list of blocks.
* `MineBatches`, `GpuSlots`, `CpuSlots`, `FeeShare`: attempts and fees.

## Model

| member | source | states |
|---|---|---|
| `Blake2bStream.HashChunks` | treeminer/src/blake2b.cpp:171-216 | for every way of cutting a message into `update` calls, empty chunks and exactly full buffers included, `init`, the updates and `final` give the one-shot BLAKE2b digest of section 3.3 of RFC 7693 of the concatenation |
| `Blake2bStream.Blake2b.Init` | treeminer/src/blake2b.cpp:90-99 | establishes the invariant for the empty message: the chaining value is the parameterised IV, the counter and the buffer are empty |
| `Blake2bStream.Blake2b.Update` | treeminer/src/blake2b.cpp:171-196 | appends the input to the message absorbed so far and keeps the invariant that chaining value, two-word counter and buffer are those of that message, of which the possibly last block is still uncompressed |
| `Blake2bStream.Blake2b.FillAndAbsorb` | treeminer/src/blake2b.cpp:175-193 | with more input than the buffer has room for, the block in the buffer is completed and compressed, then whole blocks of the input, and what is left over is the rest of the message, at least one byte and at most a block |
| `Blake2bStream.Blake2b.AbsorbBlocks` | treeminer/src/blake2b.cpp:187-192 | the inner loop compresses whole blocks straight from the input and leaves between 1 and 128 bytes of it |
| `Blake2bStream.Blake2b.Final` | treeminer/src/blake2b.cpp:198-216 | writes exactly `outLen` bytes, the start of the digest of everything fed, and leaves the rest of the output buffer alone |
| `Blake2bStream.Blake2b.IncrementCounter` | treeminer/src/blake2b.cpp:165-169 | the two words with carry are a 128-bit counter |
| `Blake2bStream.CarryCounts` | treeminer/src/blake2b.cpp:165-169 | the comparison `t[0] < inc` detects the carry for all counter values and increments |
| `Blake2bStream.Blake2b.Compress` | treeminer/src/blake2b.cpp:101-163 | the in-place compression is F of section 3.2 of RFC 7693 at the current counter and finalisation flag |
| `Blake2bStream.CompressModulo` | treeminer/src/blake2b.cpp:137-138 | F depends on the counter modulo 2^128 only, so the wrapping counter of the code agrees with the unbounded offset of the standard |
| `Blake2bStream.MixInPlace` | treeminer/src/blake2b.cpp:29-39 | the macro G on an array is the mixing function of section 3.1 of RFC 7693 on the vector |
| `Blake2bStream.RoundInPlace` | treeminer/src/blake2b.cpp:41-51 | one round is the eight mixes of section 3.2 of RFC 7693 in order |
| `Blake2bStream.RowsRepeat` | treeminer/src/blake2b.cpp:12-25 | the twelve-row schedule table is the ten-row table of the standard indexed modulo ten |
| `Blake2bStream.LastBlockUnique` | treeminer/src/blake2b.cpp:175-195 | a message has exactly one split into leading blocks and a non-empty rest of at most one block, which is what makes the lazy last block right |
| `Blake2bSpec.ChainOfPrefix` | treeminer/src/blake2b.cpp:187-192 | compressed leading blocks stay the leading blocks when more input is appended |
| `Blake2bExample.AbcDigest` | treeminer/src/blake2b.cpp:5-51 | the digest of "abc" is the one of appendix A of RFC 7693, word by word through the twelve rounds, which fixes the initial value, the schedule, the rotations, the byte order and the parameter word |
| `Blake2bSpec.TwoBlocks` | treeminer/src/blake2b.cpp:171-216 | a message of more than one block: the first block is compressed with the count 128 and no flag, the padded rest with the length of the message and the flag |
| `Blake2bSpec.LengthAndFlag` | treeminer/src/blake2b.cpp:90-140 | the digest length enters the first word of the initial value alone, and the flag inverts the fifteenth word of the vector |
| `Blake2bSpec.LittleEndian64` | treeminer/src/blake2b.cpp:53-71 | byte k of the eight stands at bits 8k to 8k + 7 of the word that is read |
| `Blake2bStream.Load64` | treeminer/src/blake2b.cpp:53-71 | the shifting reader gives that word |
| `Blake2bStream.Store64` | treeminer/src/blake2b.cpp:73-88 | the shifting writer gives the eight bytes that are read back as the word, lowest first |
| `Argon2Host.DigestLong` | treeminer/src/argon2params.cpp:49-88 | for every output length, writes exactly H' of section 3.3 of RFC 9106 and nothing else |
| `Argon2Host.HalfBlocks` | treeminer/src/argon2params.cpp:73-82 | the loop emits r = ceil(T/32) - 2 half digests and stops with T - 32r bytes to produce |
| `Argon2Spec.LongHash` | treeminer/src/argon2params.cpp:63-87 | H' piece by piece: 32-byte piece i is the first half of digest i of the chain that starts from length and input, and the rest is the digest, of the length still missing, of the end of the chain |
| `Argon2Spec.HalfCount` | treeminer/src/argon2params.cpp:73-86 | there is at least one half digest, and the last digest is between 33 and 64 bytes long |
| `Argon2Host.InitialHash` | treeminer/src/argon2params.cpp:100-157 | whichever branch is taken, the result is the prehash digest of section 3.2 of RFC 9106 |
| `Argon2Host.PackedFields` | treeminer/src/argon2params.cpp:107-130 | the packed-header branch feeds the hash exactly the byte string of the standard when secret and associated data are empty |
| `Argon2Host.SingleFields` | treeminer/src/argon2params.cpp:136-154 | the field-by-field branch feeds the hash exactly that byte string, for all parameters |
| `Argon2Host.PackedHeader` | treeminer/src/argon2params.cpp:108-116 | the header buffer holds the seven 32-bit fields in order |
| `Argon2Spec.ExampleFields` | treeminer/src/argon2params.cpp:136-154 | the bytes that the prehash covers for the parameters of the example in section 5.3 of RFC 9106 |
| `Argon2Host.FillFirstBlocks` | treeminer/src/argon2params.cpp:159-180 | writes column 0 and then column 1 of the first blocks and leaves the rest of memory alone |
| `Argon2Host.FillFirstBlocksTimed` | treeminer/src/argon2params.cpp:182-225 | with or without a timings object, fills the same memory as the other overload |
| `Argon2Host.FirstBlockPlacement` | treeminer/src/argon2params.cpp:159-180 | block (j, l) lies at offset (j * lanes + l) * 1024 and is H' of the seed for column j and lane l |
| `Argon2Spec.SeedEnds` | treeminer/src/argon2params.cpp:159-180 | the seed of a first block is the prehash digest, the column and then the lane |
| `Argon2Host.Finalize` | treeminer/src/argon2params.cpp:227-249 | the tag is H' of the exclusive or of the lanes' last blocks, for one lane and for many, although the code folds 64-bit words |
| `Argon2Host.StoreOfLoads` | treeminer/src/argon2params.cpp:234-248 | reading a block as words and writing the words back is the identity, so folding words is folding bytes |
| `Argon2Host.MemorySize` | treeminer/src/argon2params.cpp:43-47 | the segment length makes the memory size m' of section 3.2 of RFC 9106: the largest multiple of 4 * lanes within the requested cost, and never less than 8 * lanes |
| `Argon2Spec.LittleEndian32` | treeminer/src/argon2params.cpp:10-17 | a number with base-256 digits d0, d1, d2, d3 and anything above them is stored as those four bytes, lowest first |
| `Argon2Host.Store32` | treeminer/src/argon2params.cpp:10-17 | the shift-and-store method writes those four bytes at its place and leaves the rest alone |
| `MqttCodec.StreamRoundTrip` | treeminer/server/broker.py:328-347 | of any sequence of PUBLISH packets, concatenated, the broker delivers exactly the messages before the first payload on which `json.loads` raises an exception that is not caught; all of them, ending cleanly with no bytes left, exactly when there is none |
| `MqttCodec.WireBytes` | treeminer/server/broker.py:512-523 | the bytes of a PUBLISH packet: 0x30 plus twice the quality of service, a length field that says how long the body is, and the body |
| `MqttCodec.BodyBytes` | treeminer/server/broker.py:512-523 | the bytes of its body: the length of the topic with the most significant byte first, the topic, for quality of service above 0 the packet identifier likewise, and the payload |
| `MqttCodec.PacketExamples` | treeminer/server/broker.py:328-366 | what five packets given byte by byte do: two PUBLISH, a SUBSCRIBE, an UNSUBSCRIBE and a DISCONNECT |
| `MqttCodec.ClientStreamRoundTrip` | treeminer/server/simulator.py:180-236 | the simulator's loop reads the same stream as exactly those topics and payloads, under the same condition on its own `json.loads` |
| `MqttCodec.SubscribeRoundTrip` | treeminer/server/simulator.py:157-163 | a subscription that the client sends, in front of any bytes, reaches the broker as just that filter |
| `MqttCodec.MalformedEnds` | treeminer/server/broker.py:478-510 | a SUBSCRIBE or UNSUBSCRIBE body that does not decode, such as an empty one, ends the connection, and nothing behind it has any effect; one that decodes is one action |
| `MqttCodec.ForwardedRead` | treeminer/server/broker.py:456-457 | forwarded messages are read by the client with the topics and payloads they came with, all of them exactly when it can load every payload |
| `MqttCodec.FrameRoundTrip` | treeminer/server/broker.py:512-523 | one built packet in front of any bytes is cut off the stream exactly, with its flags and body |
| `MqttCodec.BodyRoundTrip` | treeminer/server/broker.py:427-437 | topic, quality of service, packet identifier and payload of a message are recovered from its flags and body |
| `MqttCodec.StringRoundTrip` | treeminer/server/broker.py:83-96 | a length-prefixed string in front of any bytes decodes to itself, by both decoders |
| `MqttCodec.FirstPacket` | treeminer/server/broker.py:439-452 | what one packet at the front of a stream adds to a session, on either side: its message, or the end of the connection when its payload makes `json.loads` raise an exception that is not caught |
| `MqttCodec.PeersAgree` | treeminer/server/simulator.py:226-232 | on every body that the broker accepts, whoever wrote it, the client reads the same topic and payload |
| `MqttCodec.EncodeRemainingLength` | treeminer/server/broker.py:53-63 | the loop emits the base-128 digits, least significant first |
| `MqttCodec.DecodeRemainingLength` | treeminer/server/broker.py:66-80 | the loop returns value and width of the length field at the offset, or the error for an incomplete one |
| `MqttCodec.LengthRoundTrip` | treeminer/server/broker.py:53-80 | decoding undoes encoding for every length and every suffix |
| `MqttCodec.FourLengthBytes` | treeminer/server/broker.py:53-63 | four bytes are enough exactly up to 268435455 |
| `MqttCodec.LengthBytes` | treeminer/server/broker.py:53-63 | k bytes are enough exactly below 128^k |
| `MqttCodec.LengthShape` | treeminer/server/broker.py:53-63 | the digits of a length, weighed by powers of 128, sum to it; all bytes but the last have the top bit, and there is no leading zero digit |
| `MqttCodec.LengthMeans` | treeminer/server/broker.py:66-80 | a length field decodes exactly when some byte lacks the top bit, and its value is the weighed sum of the bytes up to the first such one |
| `MqttCodec.LengthExamples` | treeminer/server/broker.py:53-63 | the boundary values of section 2.2.3 of MQTT 3.1.1, byte by byte |
| `MqttCodec.EncodedValid` | treeminer/server/broker.py:94-96 | every text of Unicode scalar values, encoded by the table of RFC 3629, is valid UTF-8 |
| `MqttCodec.ValidEncoded` | treeminer/server/broker.py:83-91 | whatever is accepted as UTF-8 is the encoding of a text of scalar values: no surrogate, no overlong form, nothing above 0x10FFFF |
| `MqttConnection.NextFrame` | treeminer/server/broker.py:328-347 | reading a header byte, a length field byte by byte and a body in arbitrary pieces gives the next frame, end of stream or a lost connection, and leaves the stream just behind the frame |
| `MqttConnection.ReadExact` | treeminer/server/broker.py:374-381 | collects exactly n bytes from reads that may return less, or reports the early end |
| `MqttConnection.Serve` | treeminer/server/broker.py:328-366 | the broker's connection loop does exactly what the packets of the byte stream say, publications, subscriptions and unsubscriptions, up to a malformed packet, an uncaught exception of `json.loads` or a disconnect, and ends as the stream does |
| `MqttConnection.HandlePacket` | treeminer/server/broker.py:349-361 | one packet is decoded to one action, to none, or to the exception that ends the connection |
| `MqttConnection.ParseFilters` | treeminer/server/broker.py:485-506 | the loop over the filters of a body returns all of them in order, or the error of the first that is malformed |
| `MqttConnection.ClientServe` | treeminer/server/simulator.py:180-215 | the client's read loop does the same with its own frame reader, decoder and `json.loads` |
| `MqttConnection.ClientNextFrame` | treeminer/server/simulator.py:183-204 | the client's frame reader, with its own length arithmetic, cuts the same frames off a stream as the broker's |
| `MqttConnection.SumLength` | treeminer/server/simulator.py:198-201 | the client's loop over the collected length bytes gives the value that the broker's decoder gives |
| `MqttRouting.TopicMatches` | treeminer/server/broker.py:99-117 | the two-cursor loop is the level-by-level specification |
| `MqttRouting.MatchMeaning` | treeminer/server/broker.py:99-117 | a filter matches exactly when the levels before its first "#" agree one by one, "+" agreeing with any, and the topic has as many levels, or at least as many when there is a "#" |
| `MqttRouting.HashMatchesParent` | treeminer/server/broker.py:99-117 | "a/#" matches "a" (section 4.7.1.2 of MQTT 3.1.1) |
| `MqttRouting.FilterExamples` | treeminer/server/broker.py:99-117 | "a/+" matches "a/b" and not "a"; "a/#" matches both |
| `MqttRouting.SplitJoin` | treeminer/server/broker.py:99-102 | splitting into levels loses nothing |
| `MqttRouting.Broker.FanOut` | treeminer/server/broker.py:282-295 | each client with at least one matching filter, other than the sender and clients whose write fails, gets one more copy; nobody else gets anything |
| `MqttRouting.Broker.ServeClient` | treeminer/server/broker.py:328-371 | over a whole connection, every other client whose writes succeed is sent exactly the forwarded form of the messages published there that one of its filters matches, in order, and keeps its filters; the client itself is gone in the end |
| `MqttRouting.Broker.Act` | treeminer/server/broker.py:456-469 | one action: a publication fans out to everybody but the sender, a subscription or unsubscription changes the filters of that client only |
| `MqttRouting.RelayPreservesContents` | treeminer/server/broker.py:427-469 | whatever bytes arrive on a connection, what a subscriber is sent decodes to exactly the topics and payloads of the messages published there that one of its filters matches, in order, as far as it can load them; all of them exactly when it can load every one |
| `MqttRouting.RelayOfPublishes` | treeminer/server/broker.py:427-469 | the same for a stream of PUBLISH packets, in terms of the messages sent |
| `MqttRouting.Broker.AnyMatch` | treeminer/server/broker.py:459-469 | the loop over the filters of one client finds a match exactly when there is one |
| `MarketMoney.RunLaws` | treeminer/server/settlement.py:37-119 | in every run: each balance is its opening balance plus the signed sum of its rows; the total changes only by deposits, withdrawals and transfers to missing accounts; every leased worker, every payer and the treasury have an account; no worker has two active leases; no lease is charged twice |
| `MarketMoney.RunNonNegative` | treeminer/server/settlement.py:64-85 | no balance is negative in any run whose clock does not run backwards |
| `MarketMoney.RunOnlyCloses` | treeminer/server/matcher.py:233-277 | between any two points of any run a lease keeps its terms, leaves `active` at most once and never returns |
| `MarketMoney.UnpaidIff` | treeminer/server/server.py:213-222 | in every run and for every lease: it is closed and unpaid exactly when some operation lost it, a stop for an unsafe worker, or an expiry pass that failed at an unsafe worker at or behind it in row order |
| `MarketMoney.RunSettles` | treeminer/server/server.py:213-222 | so when all registered worker identifiers are safe, every closed lease is settled, and charged exactly once |
| `MarketMoney.SafeProviderUnpaid` | treeminer/server/matcher.py:251-277 | on the default accounts: a safe and an unsafe worker are rented and both leases expire; the pass closes the safe worker's lease, and no later run ever pays it |
| `MarketMoney.NeighbourUnpaid` | treeminer/server/matcher.py:251-277 | the same for "rig-1" and "rig 2" |
| `MarketMoney.SettleOverdraws` | treeminer/server/settlement.py:64-85 | settling keeps all balances non-negative exactly when the cost is not negative or the worker and the treasury, two balances that can be read beforehand, cover their parts of a negative one |
| `MarketMoney.BackwardClockOverdraws` | treeminer/server/settlement.py:43-47 | on every new platform with an empty treasury: register, rent at t, stop before t leaves the treasury negative |
| `MarketMoney.OneSecondBack` | treeminer/server/settlement.py:43-47 | the same on the default accounts with a clock one second back |
| `MarketMoney.TransferConserves` | treeminer/server/storage/accounts.py:141-164 | a transfer keeps the total exactly when it is refused outright or the payee has an account |
| `MarketMoney.TransferOutcome` | treeminer/server/storage/accounts.py:141-164 | when a transfer succeeds, that payer and payee then change by the amount and nobody else does, and the two rows it writes |
| `MarketMoney.CashOutcome` | treeminer/server/storage/accounts.py:115-139 | when a deposit and a withdrawal succeed, the new balance and the row; a refusal changes nothing |
| `MarketMoney.WorkerOutcome` | treeminer/server/matcher.py:57-125 | what registration, pricing and status messages do to the worker, its account and everybody else |
| `MarketMoney.TransferToNobody` | treeminer/server/storage/accounts.py:141-164 | on the default accounts, a transfer of 1 to an unknown account loses 1 |
| `MarketMoney.SettlementSplit` | treeminer/server/settlement.py:43-114 | 95% of the charge goes to the provider and 5% to the treasury, also when one account has several of these roles, nobody else is touched, three rows say so, and so does the record of the first settlement; of three different parties, the consumer pays elapsed time times rate when the balance covers it and otherwise the whole balance |
| `MarketSpec.Payable` | treeminer/server/settlement.py:64-69 | the charge is at most what is due and at most the balance, and equals one of them; a negative amount due is charged in full and a negative balance pays nothing |
| `MarketMoney.RentedOverdue` | treeminer/server/storage/leases.py:105-116 | a lease rented at t for d seconds is in the expiry pass at a later time exactly when that time is past t + d |
| `MarketMoney.RentThenStop` | treeminer/server/matcher.py:156-249 | whenever a rent request succeeds, for a named worker or any, stopping later frees the worker and charges the elapsed seconds at the price that held at the start, as far as the balance goes, unless the worker identifier is unsafe: then nothing is paid |
| `MarketMoney.StopOutcome` | treeminer/server/matcher.py:233-249 | when a stop succeeds, when it changes nothing, and which lease and worker it changes |
| `MarketMoney.TotalStep` | treeminer/server/storage/accounts.py:115-164 | every single operation changes the total by exactly its inflow or outflow |
| `MarketMoney.LedgerStep` | treeminer/server/storage/accounts.py:181-188 | every operation writes rows that account for every change of every balance |
| `MarketMoney.TotalCharge` | treeminer/server/settlement.py:74-95 | provider and treasury together receive what the consumer pays |
| `MarketMoney.UnsafeWorkerUnpaid` | treeminer/server/broker.py:199-207 | on every new platform: registering a worker with an unsafe identifier, renting and stopping it leaves a closed lease that no later run ever settles or charges |
| `MarketMoney.SpacedNameUnpaid` | treeminer/server/broker.py:204-207 | the same for a worker named "rig 1" on the default accounts |
| `MarketMoney.UnpaidStaysUnpaid` | treeminer/server/routers/rental.py:67-94 | over any later run, a lease that was closed without a settlement stays as it is, unsettled and uncharged |
| `MarketLaws.TablesStep` | treeminer/server/matcher.py:57-70 | every operation keeps the tables consistent; in particular registration gives a worker its account before it can be leased |
| `MarketLaws.LeasesStep` | treeminer/server/matcher.py:57-125 | whatever status messages and registrations say, a worker never has two active leases and closed leases do not change |
| `MarketLaws.ChargedStep` | treeminer/server/routers/rental.py:67-86 | every operation keeps: a settled lease is closed and charged once, any other lease is not charged |
| `MarketLaws.ChargedStop` | treeminer/server/routers/rental.py:67-86 | stopping an active lease settles it exactly when its worker identifier is safe, and settles no other lease |
| `MarketLaws.ChargedExpire` | treeminer/server/server.py:213-222 | an expiry pass settles all expired leases exactly when all their workers are safe, and otherwise none |
| `MarketLaws.RentOutcome` | treeminer/server/matcher.py:156-231 | a rent request succeeds exactly when it may and some admissible worker is AVAILABLE without an active lease; it then leases such a worker at its price; a refusal changes nothing |
| `MarketLaws.RentChoice` | treeminer/server/matcher.py:176-215 | the lease that is made: its worker is AVAILABLE with no active lease, for a request that names no worker it is the first such one of the roster, and duration, consumer and time are those of the request |
| `MarketLaws.OverdueMeans` | treeminer/server/storage/leases.py:105-116 | a pass takes exactly the active leases that have lasted longer than their duration, in row order |
| `MarketLaws.CloseAllEffect` | treeminer/server/matcher.py:251-277 | the closing loop touches no money, reaches its end exactly when every release can be published, and then has closed all leases given |
| `MarketLaws.CloseAllExactly` | treeminer/server/matcher.py:251-277 | the closing loop closes exactly the leases up to and including the first whose worker is unsafe |
| `MarketLaws.ExpirePass` | treeminer/server/server.py:213-222 | what a pass does to every lease: closed exactly up to the first unsafe worker in row order, settled exactly when there is none, untouched when not overdue |
| `MarketPlatform.Platform.Laws` | treeminer/server/settlement.py:37-119 | at any time between two operations the tables of the platform object are consistent, account for every balance and the total, have no double lease and no double charge, and under the stated conditions no negative balance and no unpaid closed lease, because the object is where a run over its whole history leads, which every operation keeps |
| `MarketPlatform.Platform.DepositTo` | treeminer/server/storage/accounts.py:115-125 | takes the deposit step |
| `MarketPlatform.Platform.OpenWallet` | treeminer/server/storage/accounts.py:16-30 | takes the step that opens an account with nothing in it |
| `MarketPlatform.Platform.OnStatus` | treeminer/server/matcher.py:105-125 | takes the status step: ignored without a worker or a state, no effect for an unknown worker |
| `MarketPlatform.Platform.SetPricing` | treeminer/server/pricing.py:48-74 | takes the pricing step, refusing an unknown worker, a negative price or impossible duration limits |
| `MarketPlatform.Platform.WithdrawFrom` | treeminer/server/storage/accounts.py:127-139 | takes the withdrawal step, refusing more than the balance |
| `MarketPlatform.Platform.Transfer` | treeminer/server/storage/accounts.py:141-164 | takes the transfer step: debit, credit, payer row, payee row, where a missing payee fails after the debit |
| `MarketPlatform.Platform.SettleLease` | treeminer/server/settlement.py:37-119 | takes the settlement step, rolled back as a whole when an account is missing |
| `MarketPlatform.UpdatesThenRows` | treeminer/server/settlement.py:74-95 | three balance updates followed by three rows are three postings |
| `MarketPlatform.TransferOrder` | treeminer/server/storage/accounts.py:141-164 | debit, credit and then the rows are the two postings of a transfer, or the first alone when there is nobody to credit |
| `MarketPlatform.Platform.RegisterWorker` | treeminer/server/matcher.py:57-70 | takes the registration step: AVAILABLE again, price kept, account ensured |
| `MarketPlatform.Platform.HasActiveLease` | treeminer/server/storage/leases.py:95-103 | the scan finds an active lease of the worker exactly when there is one |
| `MarketPlatform.Platform.FindTarget` | treeminer/server/matcher.py:177-192 | the search returns the first rentable candidate, which `RentChoice` describes |
| `MarketPlatform.Platform.RentHashpower` | treeminer/server/matcher.py:170-215 | takes the rent step |
| `MarketPlatform.Platform.StopLease` | treeminer/server/matcher.py:233-249 | takes the stop step with its settlement |
| `MarketPlatform.Platform.FindExpired` | treeminer/server/storage/leases.py:105-116 | the scan returns the expired active leases in row order |
| `MarketPlatform.Platform.CheckExpired` | treeminer/server/matcher.py:251-277 | closes expired leases one after the other and fails at the first release that cannot be published |
| `MarketPlatform.Platform.Watchdog` | treeminer/server/server.py:213-222 | takes the expiry step: a failed pass settles nothing |
| `CanonicalJson.ReadPrint` | treeminer/server/command_signing.py:183-205 | a JSON reader that is defined on text alone reads the printed form of every float-free document as what the document means, with nothing left over |
| `CanonicalJson.ReadEmit` | treeminer/server/command_signing.py:183-205 | the same in front of anything that may follow a value, so values inside arrays and objects are read back one by one |
| `CanonicalJson.ReadDecimal` | treeminer/server/command_signing.py:199-205 | the numeral printed for an integer is read, by powers of ten, as that integer |
| `CanonicalJson.EscapeLengths` | treeminer/server/command_signing.py:199-205 | which characters are printed as they are, which by a short escape and which by \uXXXX in lower case |
| `CanonicalJson.BeforeMeans` | treeminer/server/command_signing.py:199-205 | the order of keys: the first different character decides, and a proper prefix comes first |
| `CanonicalJson.PrintIffSameMeaning` | treeminer/server/command_signing.py:183-205 | two float-free documents print alike exactly when they have the same meaning, whatever the order of their keys: compact sorted-key printing is canonical and injective |
| `CanonicalJson.EmitPrefix` | treeminer/server/command_signing.py:183-205 | printing is prefix-free: equal text followed by anything that may follow a value means equal documents and equal rests |
| `CanonicalJson.CanonMeaning` | treeminer/server/command_signing.py:183-205 | sorting keys at every depth does not change the meaning |
| `CanonicalJson.CanonCanonical` | treeminer/server/command_signing.py:183-205 | after sorting, keys are strictly increasing at every depth |
| `CanonicalJson.MeaningDetermines` | treeminer/server/command_signing.py:183-205 | a sorted document is determined by its meaning |
| `CanonicalJson.EmitOneLine` | treeminer/server/command_signing.py:183-205 | printed JSON contains no line break |
| `CommandEnvelope.FramingUnambiguous` | treeminer/server/command_signing.py:208-225 | equal signing strings have equal fields and bodies as soon as one side has no line break in its fields, whoever wrote the other |
| `CommandEnvelope.SigningText` | treeminer/server/command_signing.py:208-225 | the signed string is seven lines: version, worker, command, the two times in decimal, nonce and body |
| `CommandEnvelope.SignedBytesDetermine` | treeminer/server/command_signing.py:147-225 | for safe identifiers, two signing strings are equal exactly when all envelope fields are equal and the commands mean the same; key order and an old `auth` play no part |
| `CommandEnvelope.SignedShape` | treeminer/server/command_signing.py:412-442 | a signed message carries its envelope and has the original command as its body |
| `CommandEnvelope.SignedFields` | treeminer/server/command_signing.py:433-442 | the signed message is the fields of the command without its `auth`, in order, followed by an `auth` with exactly the six fields of the envelope |
| `CommandEnvelope.SignedVerifies` | treeminer/server/command_signing.py:445-484 | `verify_signature` accepts every output of signing |
| `CommandEnvelope.VerifyIff` | treeminer/server/command_signing.py:445-484 | what verifies: a complete envelope for the expected worker whose signature is 64 hexadecimal digits and, up to case, the code of the message; an incomplete envelope or another worker gives false |
| `CommandEnvelope.AlterationDetected` | treeminer/server/command_signing.py:445-484 | a message that verifies with the signature of a signed command says the same in every signed field, or exhibits two different strings with the same code |
| `CommandEnvelope.CommandSigner.RememberNonce` | treeminer/server/command_signing.py:352-356 | list and set hold exactly the last 4096 issued nonces, and any two nonces at most 4096 issuances apart differ |
| `CommandEnvelope.CommandSigner.FreshNonce` | treeminer/server/command_signing.py:337-350 | issues the first fresh, well-formed value among eight draws, or fails and issues nothing |
| `CommandEnvelope.PickMeans` | treeminer/server/command_signing.py:337-350 | all draws before the one that is taken, or before the malformed one, are in use; without either, all are |
| `CommandEnvelope.NoncesApart` | treeminer/server/command_signing.py:352-356 | the window holds 4096 nonces, and any two nonces at most 4096 issuances apart differ |
| `CommandEnvelope.CommandSigner.Sign` | treeminer/server/command_signing.py:358-409 | exactly when a nonce is taken, and exactly when signing then succeeds; the result verifies, keeps the command and carries the envelope with that nonce; a refusal uses up no nonce, except that of a text that cannot be encoded |
| `CommandEnvelope.WindowGrows` | treeminer/server/command_signing.py:352-356 | the nonce that leaves the window is not in it twice, so dropping it from the set is right |
| `MerkleTree.ExtractCollision` | treeminer/src/MerkleTree.cpp:58-75 | from two lists of 64-character leaves of the same length with equal roots, either the lists are equal or two different hashed inputs with one hash are found in the two trees |
| `MerkleTree.RootDeterminesLeaves` | treeminer/src/MerkleTree.cpp:58-75 | without such a collision, roots are equal exactly when the leaves are |
| `MerkleTree.SameRootIff` | treeminer/src/MerkleTree.cpp:58-75 | for any two lists of any lengths whose trees have no collision: the roots are equal exactly when the levels of equal depth, completed by repeating the last subtree, are the same |
| `MerkleTree.SameDepth` | treeminer/src/MerkleTree.cpp:58-75 | for trees of equal depth: exactly when the completed leaf lists are the same |
| `MerkleTree.CompletedRoot` | treeminer/src/MerkleTree.cpp:65-72 | completing a list to a power of two, which only appends, keeps its root |
| `MerkleTree.CompletionExtends` | treeminer/src/MerkleTree.cpp:65-72 | the completed list starts with the list itself |
| `MerkleTree.LevelsForge` | treeminer/src/MerkleTree.cpp:58-75 | every level of a tree, taken as a list of leaves, has the root of the tree |
| `MerkleTree.RepeatedLastLeaf` | treeminer/src/MerkleTree.cpp:65-72 | repeating the last leaf of an odd list keeps the root |
| `MerkleTree.Tree.BuildTree` | treeminer/src/MerkleTree.cpp:58-75 | terminates on every non-empty list with the root, and adds exactly the hashes above the leaves to the node map, each the hash of its two children |
| `MerkleTree.RootIsInner` | treeminer/src/MerkleTree.cpp:58-75 | with more than one leaf, the root is itself an entry of the node map |
| `MerkleTree.SmallRoots` | treeminer/src/MerkleTree.cpp:58-75 | the roots of one, two and three leaves written out |
| `WorkerSpec.ConsistentRun` | treeminer/src/PlatformManager.cpp:376-521 | in every reachable state the coordinator is in platform mode exactly when a lease is stored, with its address, prefix and ids; MINING implies a stored lease; the queue is bounded |
| `WorkerSpec.BlocksCounted` | treeminer/src/PlatformManager.cpp:201-217 | the stored lease's `blocks_found` is the number of block events in MINING since it was stored |
| `WorkerSpec.LeaseStable` | treeminer/src/LeaseManager.cpp:5-69 | a step that keeps a lease changes nothing in it but its block count |
| `WorkerSpec.LeaseBegins` | treeminer/src/PlatformManager.cpp:393-455 | a lease begins exactly when an AVAILABLE rig without one is handed an authorised, valid task, and it is the lease of that task |
| `WorkerSpec.TaskTaken` | treeminer/src/PlatformManager.cpp:393-439 | which tasks an AVAILABLE rig takes: identifiers of 1 to 64 safe characters, a checked address, 60 seconds to 7 days, and no prefix or one of 16 hexadecimal digits |
| `WorkerSpec.LeaseBegun` | treeminer/src/PlatformManager.cpp:393-455 | in every run, the stored lease began with the dispatch of a task, and has its start at the time of that event and the duration of that task |
| `WorkerSpec.TaskTimes` | treeminer/src/LeaseManager.cpp:109-117 | in every run, for the stored lease, whose task has duration d and was dispatched at t: a watchdog tick in MINING clears it exactly at t + d or later, a pause or stop exactly before t + d |
| `WorkerSpec.LeaseEndsOnTime` | treeminer/src/LeaseManager.cpp:109-117 | the same for one step in any consistent state, shutdown included |
| `WorkerSpec.StateAfter` | treeminer/src/PlatformManager.cpp:376-521 | the state, the owner address and whether the manager runs after every event |
| `WorkerSpec.ReleaseOutcome` | treeminer/src/PlatformManager.cpp:457-486 | a release clears the lease exactly when it names no lease or names this one |
| `WorkerSpec.ArrivalOutcome` | treeminer/src/PlatformManager.cpp:253-280 | a command is queued exactly when it has at most 64 KiB and fewer than 256 are waiting, and is otherwise counted as dropped; a stopped manager ignores it |
| `WorkerSpec.LeaseEnds` | treeminer/src/PlatformManager.cpp:457-521 | a lease ends exactly by its release, by the watchdog when expired in MINING, or by a pause, shutdown or stop before its time is up; the rig then mines for its owner |
| `WorkerSpec.LeaseProvenance` | treeminer/src/PlatformManager.cpp:339-455 | every lease stored in any run has the fields of an authorised, valid task that was dispatched in that run |
| `WorkerSpec.HeldMiningRun` | treeminer/src/PlatformManager.cpp:376-521 | in every run, a lease is stored outside MINING exactly when some event stranded it and none since has ended it |
| `WorkerSpec.HeldMiningStep` | treeminer/src/PlatformManager.cpp:376-521 | "a stored lease is being mined for" is lost exactly by a registration acknowledgement, or by a pause, remote shutdown or stop after expiry, and regained exactly when the lease ends |
| `WorkerSpec.LateAcknowledgement` | treeminer/src/PlatformManager.cpp:376-391 | a run that ends AVAILABLE with a stored lease |
| `WorkerSpec.LatePause` | treeminer/src/PlatformManager.cpp:497-503 | a run that ends IDLE with a stored, expired lease |
| `WorkerSpec.StaleUntilReleased` | treeminer/src/PlatformManager.cpp:457-521 | over any later events, an expired lease outside MINING is stored, unchanged and not mined for exactly until the first release that applies to it, which clears it |
| `WorkerSpec.StaleWithoutRelease` | treeminer/src/PlatformManager.cpp:497-503 | without such a release it stays for ever |
| `WorkerSpec.ShutdownRun` | treeminer/src/PlatformManager.cpp:175-181 | in every run, the dispatch thread is left unjoined exactly when some event dispatched an authorised shutdown, and the process has ended exactly when a start connected after that |
| `WorkerSpec.RestartEndsProcess` | treeminer/src/PlatformManager.cpp:128-129 | a run that takes a task, is shut down remotely and ends the process at the next start |
| `WorkerSpec.ShutdownIsFinal` | treeminer/src/PlatformManager.cpp:175-181 | after a remote shutdown the rig never runs again |
| `WorkerSpec.FifoRun` | treeminer/src/PlatformManager.cpp:253-298 | in every run, dispatched commands followed by queued ones are the accepted ones in arrival order, at most 256 are queued, and accepted plus dropped is arrived |
| `WorkerPlatform.PlatformManager.Laws` | treeminer/src/PlatformManager.cpp:88-521 | at any time between two events the objects satisfy the lease and context invariant, the FIFO law, the block count and the origin of the lease, because they are where a run over everything that has happened leads, which every event keeps |
| `WorkerPlatform.PlatformManager.StartManager` | treeminer/src/PlatformManager.cpp:88-146 | takes the start step; over an unjoined dispatch thread it ends the process |
| `WorkerPlatform.PlatformManager.Halt` | treeminer/src/PlatformManager.cpp:148-189 | takes the stop step from outside; queued commands stay queued |
| `WorkerPlatform.PlatformManager.StopManager` | treeminer/src/PlatformManager.cpp:148-189 | ends an unexpired lease and goes IDLE; on the dispatch thread itself, leaves that thread unjoined |
| `WorkerPlatform.PlatformManager.OnBlockFound` | treeminer/src/PlatformManager.cpp:201-217 | counts a block only in MINING |
| `WorkerPlatform.PlatformManager.EnqueueCommand` | treeminer/src/PlatformManager.cpp:253-280 | accepts, or drops and counts, an arriving command while running |
| `WorkerPlatform.PlatformManager.DispatchNext` | treeminer/src/PlatformManager.cpp:282-298 | takes the oldest command off the queue and handles it |
| `WorkerPlatform.PlatformManager.OnMessage` | treeminer/src/PlatformManager.cpp:339-374 | an unauthorised command changes nothing; any other goes to its handler |
| `WorkerPlatform.PlatformManager.OnRegisterAck` | treeminer/src/PlatformManager.cpp:376-391 | an acknowledgement makes the rig AVAILABLE whatever its state, a rejection puts it in error |
| `WorkerPlatform.PlatformManager.OnAssignTask` | treeminer/src/PlatformManager.cpp:393-455 | takes the assignment step: ignored unless AVAILABLE and valid, error when a lease is still stored |
| `WorkerPlatform.PlatformManager.OnRelease` | treeminer/src/PlatformManager.cpp:457-486 | takes the release step |
| `WorkerPlatform.PlatformManager.OnPause` | treeminer/src/PlatformManager.cpp:497-503 | takes the pause step, which leaves an already expired lease stored |
| `WorkerPlatform.PlatformManager.WatchdogTick` | treeminer/src/PlatformManager.cpp:647-679 | takes the watchdog step: expiry first, at the time that `TaskTimes` gives, then recovery from error |
| `Chain.ChainSimulator.SubmitBlock` | treeminer/server/chain_simulator.py:164-219 | when a block is accepted and what is appended; keeps: keys distinct and equal to the known-key set, block i has id i+1, the balance of each lower-cased account is the sum of its rewards, the difficulty is that of the block count |
| `Chain.ChainSimulator.GetBalance` | treeminer/server/chain_simulator.py:221-222 | the cached balance is the sum of the rewards of all blocks of the address in any case, zero for a stranger |
| `Chain.CountsPartition` | treeminer/server/chain_simulator.py:244-256 | the three counts by type add up to the number of blocks |
| `Chain.CountMeans` | treeminer/server/chain_simulator.py:244-247 | the count of a type is the number of positions that hold a block of it |
| `Chain.ClassifyMeans` | treeminer/server/chain_simulator.py:137-148 | the type of a block from its hash: the marker somewhere with at least 50 capital letters, or with fewer, or no marker but "XUNI" and a digit inside the time window |
| `Chain.EarnedByKind` | treeminer/server/chain_simulator.py:269-277 | the balance of an account is 10 for each normal, 50 for each super and 1 for each XUNI block of it |
| `Chain.AdjustMeans` | treeminer/server/chain_simulator.py:279-285 | inside the bounds an adjustment adds a twentieth, rounded down, up to the maximum |
| `Chain.MultiplesMeans` | treeminer/server/chain_simulator.py:164-219 | with n blocks there have been n / interval adjustments |
| `Chain.HasPrefixMeans` | treeminer/server/chain_simulator.py:236-242 | a key is matched when its first characters are those of the prefix in any case |
| `Chain.DifficultyNeverDrops` | treeminer/server/chain_simulator.py:279-285 | the difficulty is non-decreasing exactly when it starts at most at the maximum |
| `Chain.DifficultyInRange` | treeminer/server/chain_simulator.py:279-285 | the difficulty stays in 100..100000 exactly when it starts there |
| `Chain.LookupFindsKey` | treeminer/server/chain_simulator.py:236-242 | a key on the chain is found by a prefix of it exactly when fewer than 100 later blocks share that prefix in any case |
| `Chain.BalancesGrow` | treeminer/server/chain_simulator.py:164-219 | crediting one account keeps the balance cache equal to the sums over the blocks |
| `Watcher.BlockWatcher.HandleBlockFound` | treeminer/server/watcher.py:36-107 | which row is recorded and which counter moves; keeps: the counter of each lease is the number of its rows that are prefix-valid and verified, and every verified row names the block with its key |
| `Watcher.BlockWatcher.FindOnChain` | treeminer/server/watcher.py:75-81 | the search returns the id of the block with the key exactly when the bounded lookup contains it |
| `Watcher.VerifiedIff` | treeminer/server/watcher.py:76-81 | a reported key that is on the chain is verified exactly when fewer than 100 later blocks share its first 16 characters in any case |
| `Watcher.CrowdedOut` | treeminer/server/chain_simulator.py:236-242 | a chain of 101 blocks with distinct 64-digit keys on which the oldest key is not found |
| `Watcher.MissedBlock` | treeminer/server/watcher.py:72-103 | the simulator accepts these blocks one by one, and the watcher then records the oldest one as prefix-valid and not verified |
| `Watcher.CountersStep` | treeminer/server/watcher.py:91-107 | recording a row and moving the counter together keep counters and rows in agreement |
| `Watcher.PrefixMeans` | treeminer/server/watcher.py:60-65 | a key satisfies the prefix of a lease exactly when there is none or the first 16 characters agree in any case |
| `Watcher.CountedMeans` | treeminer/server/watcher.py:105-107 | the count of a lease is the number of its rows that are prefix-valid and verified |
| `Identifiers.CharacterCodes` | treeminer/server/command_signing.py:123-141 | the safe, hexadecimal and lower-cased characters by their code points |
| `MiningLoop.MineBatches` | treeminer/src/MineUnit.cpp:127-145 | over any batches, with finds in any order inside their batch, reported attempts plus the carried residue are the attempts hashed, on either kind of worker, with one report for each find that counts |
| `MiningLoop.SubmitMatches` | treeminer/src/MineUnit.cpp:127-145 | after each find, the reports so far sum to what was carried over and all positions up to the highest seen; the residue is the rest of the batch |
| `MiningLoop.CpuMatches` | treeminer/src/CpuMiningWorker.cpp:267-296 | the same for accepted finds, where a rejected find reports nothing and loses nothing |
| `MiningLoop.AcceptedMeans` | treeminer/src/CpuMiningWorker.cpp:274-277 | the number of reports is the number of finds whose digest matches |
| `MiningLoop.CreditedExactly` | treeminer/src/MineUnit.cpp:142-144 | a batch is credited with exactly its attempts when and only when all finds lie inside it |
| `MiningLoop.GpuSlots` | treeminer/src/MineUnit.cpp:67-97 | with its counter that wraps at 1000, the loop serves the slots of the schedule and gives each beneficiary its count of slots |
| `MiningLoop.CpuSlots` | treeminer/src/main.cpp:1192-1201 | with its own sequence counter, the CPU work provider serves the same schedule |
| `MiningLoop.SameBeneficiary` | treeminer/src/main.cpp:1192-1201 | the CPU and GPU fee rules choose the same beneficiary in every slot |
| `MiningLoop.SlotCounts` | treeminer/src/MineUnit.cpp:67-97 | exact fee and eco counts after n slots |
| `MiningLoop.FeeShare` | treeminer/src/MineUnit.cpp:67-97 | a cycle has exactly p fee slots, p/2 of them for a configured eco address, and at no point has more than p/1000 of the slots gone to fees |

## Left out

* `FindJournal`, `FallbackSink`, `SubmissionManager`, `CircuitBreaker`, the C++ envelope check and nonce
  cache, the GPU kernels and the Rust crates are not part of this model.
* The middle of Argon2, which fills memory after the first two columns, runs on the device and is not
  modelled; decoding the hexadecimal salt is not modelled, the salt bytes are an input.
* SHA-256, HMAC, Keccak, address checksums and JWT are abstract.
* CONNECT, the acknowledgements and ping answers that the broker writes, session takeover, several
  connections served at once and the JSON inside payloads are not modelled.
* Interleavings inside one operation, and the implicit SQLite transaction left open after a failed
  transfer, which a later rollback could still undo, are not modelled.
* Heartbeats, worker configuration, price suggestions, marketplace listings, reputation, monitoring,
  wallet statistics and self-mined counters are bounds and sums with little to prove.
* Status reports, callbacks and log output of the rig are not modelled; of `set_config` only the payout
  address matters to the lease machine and is kept. The pass through LEASED and COMPLETED inside one
  handler is not visible between steps.
* Loading the command secret, the default command identifier and the default clock of the signer are
  inputs. The characters of the model have no surrogates: whether a text can be encoded is an input
  (`Runtime.mac`), and so is whether a document can be printed within the limits of the interpreter
  (`Runtime.prints`); both are taken to be the same when signing and when checking.
* JSON objects with repeated keys cannot be built in Python and are outside `Signable`; floats are
  refused, as in the code.
* The chain simulator is modelled for a positive adjustment interval; an interval of zero raises in the source.
* Overflow of C++ `size_t`, of 64-bit attempt counters and of the CPU slot counter after 2^64 requests is
  not modelled.

- MarketPlatform.Platform.RentHashpower: the reply tells what the tables say; the publish of its assignment that follows, which fails for an unsafe worker after the lease is stored, only changes what the caller is told.
- MarketMoney.RunNonNegative: needs a clock that does not run backwards; `SettleOverdraws` is the exact condition for one settlement.
- MiningLoop.MineBatches: needs finds inside their batch, which is exactly when a batch is credited with its own attempts (`CreditedExactly`).
