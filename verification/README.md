# Verified models of the BioAuth desktop agent and its tools

This project models the stateful algorithms and codecs of the BioAuth desktop side in Dafny and
proves what they promise: BLE framing, the session pool and pairing protocol of the network
transport, the ssh-agent connection, the audit log, the recovery-code, base 64, CRC-32, ZIP and
PNG codecs, the vault walk, password generation, and the tray's connection to the agent.
`dafny verify dfyconfig.toml` checks all of it.

Code that updates objects or buffers in place is modelled by classes, arrays and loops, each
proved against a function on values; the theorems about whole runs, orders and round trips are
lemmas about those functions.

| file | models |
|---|---|
| `Common.dfy`, `Lines.dfy`, `Text.dfy`, `Bits.dfy` | shared: byte orders, line cutting, UTF-8 and white space, bit strings and the 32-bit accumulator |
| `BleFraming.dfy`, `BleReassembly.dfy`, `BleDelivery.dfy`, `BleLeftovers.dfy` | `ble_framing.rs` |
| `SessionPool.dfy` | the parked sessions of `qr_network.rs` |
| `Pairing.dfy`, `PairingRuns.dfy`, `PairingCancel.dfy` | pairing in `qr_network.rs` and `service.rs` |
| `DeviceStore.dfy` | the store of paired devices, `pairing.rs` |
| `Forgetting.dfy` | pool and pairing joined: forgetting a phone |
| `SshFraming.dfy`, `SshAgent.dfy`, `SshSession.dfy` | `ssh_session.rs`, `ssh_agent.rs`, `ssh_policy.rs` |
| `AuditLog.dfy`, `AuditRuns.dfy` | `audit.rs` |
| `RecoveryCode.dfy`, `Base64.dfy` | `recovery.rs`, the plugin's base64url, `api.rs`, `ssh_policy.rs` |
| `Crc32.dfy`, `Deflate.dfy`, `Zip.dfy`, `ZipReading.dfy`, `PngRows.dfy`, `PngFile.dfy` | `package-extension.js`, `make-icons.js` |
| `VaultWalk.dfy`, `Password.dfy`, `PasswordUniform.dfy` | `vault.rs`, `password.rs` |
| `AgentConnection.dfy`, `AgentRuns.dfy`, `AgentCuts.dfy` | `agent-connection.js` |

## Assumptions

- The frame limit of the BLE codec is a parameter; its crate is not part of this model.
- The handshake is an abstract outcome. It counts as a pairing exactly when the peer was unknown
  to the connection's snapshot, which needs an armed code. When it completes it proves the device
  that was claimed and, if that was known, the identity that was found for it; an enrolment heard over
  it has been decoded. Random ids are inputs, drawn fresh.
- A connection reads the armed code, reads the peer table and posts in three separate steps, each
  on what it read before. Operations of the service are single steps, since everything runs
  behind one mutex.
- Whether a change of the device store can be written to its file is an input. Runs of pairing start
  from an empty store.
- In `Forgetting.dfy` a request names a device that the service's store holds, and the peer table is that
  store's while the request runs; writes of the store succeed there (`PairingRuns.MirrorLapsesIff` says
  what a failed one does). Clock readings never go back.
- The ssh-agent connection reads fields with the protocol crate's reader, which refuses one of more
  than 64 KiB. The vault's page decoder refuses a page of more than 32 items; whatever else it refuses
  counts as a page that could not be read.
- Whether a parked socket still answers, the time, timers, and losses of a connection are inputs of
  a step. Ghost ledgers (the pool's book of departures, the outputs of the tray's connection) record
  what happened and steer nothing.
- Fingerprints, JSON, deflate and inflate, and an audit entry's encoding are function parameters;
  where a round trip needs it, decoding is required to undo encoding.
- `(a << k) | v` on 32 bits is modelled as the shift modulo 2^32 plus `v`, which is the same because
  the shift leaves the low bits clear. CRC words are bit vectors. `usize` is unbounded.
- The random source is a tape of 64-bit samples; the word list is a parameter whose words have at most
  nine characters, as the repository asserts of its file.
- JavaScript text is a sequence of characters, one for each UTF-16 unit.

## Where the code does not do what is said of it

Each of these is a lemma with the input, next to the exact condition under which the promise holds.

- Cancelling a pairing does not reach a connection that has already read the code
  (`PairingRuns.CancelDoesNotRecall`, `PairingCancel.CancelRecallsIff`). Nor does the posting that
  disarms it: one code can store any number of devices (`PairingCancel.OneCodeManyDevices`,
  `PairingCancel.SpentCodeStoresIff`).
- Forgetting a phone does not reach a connection that has already looked it up. Nothing is asked over
  the session it parks until the phone is paired again (`Forgetting.NothingIsAsked`,
  `Forgetting.ForgottenReturnsIff`); after that a request can run over that channel, opened while the
  old pairing still existed (`Forgetting.LingeringAnswers`, `Forgetting.AnsweredStaleIff`).
- A forgetting whose write fails takes the phone from the store in memory and leaves it in the listener's
  peer table, which goes on accepting it; an enrolment whose write fails is refused to the user and is
  in the store in memory all the same (`PairingRuns.MirrorLapsesIff`, `Pairing.Service.InstallPairing`).
- A refused length drops the messages completed by the same push (`SshFraming.RefusalDropsItsPush`,
  `SshFraming.RefusalDropsIff`).
- The audit log's size bound does not hold for every file: behind a line that cannot be read the file
  grows without bound, or loses what is appended (`AuditRuns.TornExample`,
  `AuditRuns.BlockedAppendStaysIff`, `AuditRuns.OverThresholdIff`).
- A write cut short can cost more than its own entry: the next one joins it, and if that line cannot be
  read, neither can any later one (`AuditRuns.TornWriteBlocksIff`, `AuditRuns.TornWriteLosesTheRest`,
  `AuditRuns.TornExample`, `AuditRuns.AppendReadsBackIff`).
- The JSON channel's base 64 reader accepts texts no encoder writes (`Base64.LenientExamples`,
  `Base64.LenientIsCanonicalIff`).
- The vault walk does not count the last page against its ceiling: a list of 4097 to 4128 items is
  returned too (`VaultWalk.ReturnedLengths`, `VaultWalk.FaithfulPhoneIsRead`).
- A `null` line makes the tray's line loop throw and hides the lines behind it until the next chunk
  (`AgentCuts.NullHidesTheNextLine`, `AgentCuts.CutShowsIff`).
- The zip writer takes 65535 entries, and sizes of 2^32 - 1, which the format reserves: a reader looks for
  a ZIP64 record then, and there is none (`ZipReading.ArchivesReadBack`).
- The check's refusal for too many classes is never reached (`Password.ClassesAlwaysFit`).

## Model

| member | source | states |
|---|---|---|
| BleFraming.BleFrameEncoder.Encode | desktop/crates/phone-auth-agent/src/ble_framing.rs:25-63 | a frame is refused when empty, over the limit, or needing more than 1024 chunks, and otherwise cut into its headed chunks under the next 16-bit id, which wraps; a refusal uses up no id |
| BleFraming.BleFrameDecoder.AddChunk | desktop/crates/phone-auth-agent/src/ble_framing.rs:78-121 | one chunk changes the held frames and answers exactly as `Receive` says, whose runs the rows below are about |
| BleFraming.ChunkBytesRead | desktop/crates/phone-auth-agent/src/ble_framing.rs:48-62 | the header that the encoder writes is the one the decoder reads |
| BleFraming.ChunkBytesCanonical | desktop/crates/phone-auth-agent/src/ble_framing.rs:48-61 | a chunk is the only spelling of its id, index, total and payload |
| BleFraming.EveryChunkIsFilled | desktop/crates/phone-auth-agent/src/ble_framing.rs:44-62 | every chunk but the last is filled and the last is not empty, and each carries the frame's bytes from where those before it end, behind its id, its number and the count of all in big-endian |
| BleReassembly.ReceiveKeepsBounds | desktop/crates/phone-auth-agent/src/ble_framing.rs:78-121 | any single input, accepted or refused, keeps the bounds, and the missing-chunk refusal is never given |
| BleReassembly.EveryRunIsBounded | desktop/crates/phone-auth-agent/src/ble_framing.rs:73-137 | after any inputs at all at most four frames are held, each with at least one and fewer than all of its chunks, chunks nonempty and in range, the byte count equal to their sum and within the limit |
| BleReassembly.HeldChunksArrived | desktop/crates/phone-auth-agent/src/ble_framing.rs:100-111 | every chunk held for an id arrived for that id and total, in the stretch since the id was last opened |
| BleReassembly.EmittedFramesAreReceivedChunks | desktop/crates/phone-auth-agent/src/ble_framing.rs:112-121 | every frame emitted is the index-ordered join of chunks received for its id, with its total, in one unbroken stretch that ends with the emitting input |
| BleReassembly.StretchesAreDisjoint | desktop/crates/phone-auth-agent/src/ble_framing.rs:100-121 | two frames emitted for one id come from stretches that do not meet, so no chunk serves twice |
| BleDelivery.EncodedFrameIsValid | desktop/crates/phone-auth-agent/src/ble_framing.rs:25-63 | an accepted frame is cut into nonempty parts that join to it, each on the wire as one encoded chunk |
| BleDelivery.ArrivalIsAnswered | desktop/crates/phone-auth-agent/src/ble_framing.rs:78-121 | in a state that mirrors what has arrived, a chunk is answered with its whole frame exactly when it was the last one missing |
| BleDelivery.LegalRunsDeliver | desktop/crates/phone-auth-agent/src/ble_framing.rs:78-121 | in any order of arrivals that never has five frames open or two open under one id, every arrival is answered with the frame exactly when it completes it and with nothing otherwise |
| BleDelivery.LegalRunsEndEmpty | desktop/crates/phone-auth-agent/src/ble_framing.rs:112-121 | such a run that completes every frame leaves the decoder empty |
| BleDelivery.AnyOrderOfFourDelivers | desktop/crates/phone-auth-agent/src/ble_framing.rs:78-121 | at most four frames with distinct ids, chunks in any order and interleaving: each frame comes back whole exactly when its last chunk arrives, and the decoder ends empty |
| BleDelivery.FramesInOrderDecode | desktop/crates/phone-auth-agent/src/ble_framing.rs:25-63 | any calls of one encoder, each with its own payload size, put on the wire what decodes to the list of the accepted frames; any number of them and any first id, so through every wrap of the id counter |
| BleLeftovers.InOrderComesBackIff | desktop/crates/phone-auth-agent/src/ble_framing.rs:78-121 | from any state within the bounds a frame sent in order comes back exactly when its id is free and fewer than four frames are held, or when what an earlier frame left under its id is as many last chunks with the same bytes together |
| BleLeftovers.DeafForGood | desktop/crates/phone-auth-agent/src/ble_framing.rs:89-91 | once four frames are held, no input of another id changes anything, and each is refused, however many come |
| SessionPool.Pool.DiscardStale | desktop/crates/phone-auth-agent/src/qr_network.rs:440-444 | after a sweep exactly the sessions parked less than the idle window ago whose socket answers are left, unchanged |
| SessionPool.Pool.EnforceSessionCap | desktop/crates/phone-auth-agent/src/qr_network.rs:484-503 | the eviction loop makes room on one device only, removing only its oldest sessions and only while it is at the cap |
| SessionPool.Pool.Park | desktop/crates/phone-auth-agent/src/qr_network.rs:849-868 | the new session is in place after a sweep, a replacement of its own key or room made on its device, and every departure is booked |
| SessionPool.Pool.TakeMatching | desktop/crates/phone-auth-agent/src/qr_network.rs:527-533 | the session of the device and credential, or else the one that named no credential, leaves the pool, and no other does |
| SessionPool.Pool.Take | desktop/crates/phone-auth-agent/src/qr_network.rs:392-416 | taking sweeps first and then takes a match: a session it returns was parked less than the idle window ago, and its socket answers |
| SessionPool.Pool.DiscardSessions | desktop/crates/phone-auth-agent/src/qr_network.rs:313-322 | exactly the device's own sessions leave |
| SessionPool.OldestExists | desktop/crates/phone-auth-agent/src/qr_network.rs:490-503 | the eviction loop always finds an oldest session |
| SessionPool.StepKeepsInv | desktop/crates/phone-auth-agent/src/qr_network.rs:313-533 | every step keeps the cap of eight and the book in which each session ever parked is in place or has left once |
| SessionPool.EveryRunKeepsInv | desktop/crates/phone-auth-agent/src/qr_network.rs:313-868 | in every run no device has more than eight sessions, every session is parked where it arrived or gone for one fitting reason, and what has left neither comes back nor leaves again |
| SessionPool.DeparturesAreExplained | desktop/crates/phone-auth-agent/src/qr_network.rs:392-533 | a session leaves only swept when stale, taken by a request for its device and credential, replaced under its own key, evicted by a newcomer of its own device with no older one left standing, or discarded with its device |
| SessionPool.SweptIffStale | desktop/crates/phone-auth-agent/src/qr_network.rs:392-444 | a session that leaves in a step that looks at the clock leaves swept exactly when it was parked the idle window or more ago or its socket does not answer |
| Forgetting.ForgetForgets | desktop/crates/phone-auth-agent/src/service.rs:267-282 | once the peer table has lost a device, discarding leaves no session of it |
| Forgetting.LingersIff | desktop/crates/phone-auth-agent/src/qr_network.rs:713-754 | those who linger are exactly the connections that asked for the device while the peer table had it and have not ended since |
| Forgetting.NothingIsAsked | desktop/crates/phone-auth-agent/src/service.rs:147-160 | unless the device is paired again, no request, whatever device it names, is answered over a socket that was parked for it, whatever else is parked and whatever connection lingers |
| Forgetting.ForgottenReturnsIff | desktop/crates/phone-auth-agent/src/qr_network.rs:308-322 | unless the device is paired again, a session of it is parked after the forgetting exactly when some connection looked it up before and has not ended |
| Forgetting.LingeringAnswers | desktop/crates/phone-auth-agent/src/qr_network.rs:844-869 | from any state in which a device is forgotten and such a connection is under way, a run parks its session, pairs the device again under any identity, and answers the next request over the channel opened before |
| Forgetting.AnsweredStaleIff | desktop/crates/phone-auth-agent/src/service.rs:627-637 | once the device may be paired again, under any identity, a request can be answered over a channel whose look-up was made by the time it was forgotten exactly when some connection lingered then |
| Pairing.Network.ArmPairing | desktop/crates/phone-auth-agent/src/qr_network.rs:296-300 | arming sets the code and drops an earlier proposal |
| Pairing.DecodesIff | desktop/crates/phone-auth-protocol/src/enrolment.rs:95-113 | an enrolment that decodes has a character other than white space in its name and in its credential id, and a key of 1 to 512 bytes |
| PairingRuns.SnapshotsAreReads | desktop/crates/phone-auth-agent/src/qr_network.rs:713-754 | what a connection holds is what it read, the armed code at one step and the peer table at a later one; no step in between or after refreshes either |
| PairingRuns.EachLockOnce | desktop/crates/phone-auth-agent/src/qr_network.rs:713-842 | in every run a connection reads the code, looks its phone up and ends at most once each, in that order |
| Pairing.Network.Complete | desktop/crates/phone-auth-agent/src/qr_network.rs:756-842 | a connection posts exactly what its two snapshots and the handshake lead to, and posting disarms whatever code is armed by then |
| Pairing.Service.BeginPairing | desktop/crates/phone-auth-agent/src/service.rs:470-523 | beginning drops the held proposal and arms the new code |
| Pairing.Service.CancelPairing | desktop/crates/phone-auth-agent/src/service.rs:525-536 | cancelling clears the armed code, the proposal and the held proposal |
| Pairing.Service.PendingPairing | desktop/crates/phone-auth-agent/src/service.rs:547-560 | a poll moves a waiting proposal into the held place and answers with what is held |
| Pairing.Service.ConfirmPairing | desktop/crates/phone-auth-agent/src/service.rs:571-625 | confirming installs the held proposal or gives the one refusal that applies, and spends the proposal unless the attempt was stale |
| Pairing.Service.InstallPairing | desktop/crates/phone-auth-agent/src/service.rs:627-637 | an enrolment is refused when its credential id is taken, is in the store before that is written, and in the peer table after |
| Pairing.Service.ForgetDevice | desktop/crates/phone-auth-agent/src/service.rs:267-276 | a device leaves the store before that is written, and the peer table after |
| DeviceStore.PairingStore.FindCredential | desktop/crates/phone-auth-verifier/src/pairing.rs:247-256 | the device and credential found have the id, and none is found only when none has it |
| DeviceStore.PairingStore.Insert | desktop/crates/phone-auth-verifier/src/pairing.rs:269-298 | a device is refused exactly when one of its credential ids is held by another device or under another key, and otherwise merged into the store |
| DeviceStore.PairingStore.Remove | desktop/crates/phone-auth-verifier/src/pairing.rs:300-307 | a device that is there goes, and no other |
| DeviceStore.OnlyClash | desktop/crates/phone-auth-verifier/src/pairing.rs:269-280 | with one owner an id, the first credential found decides the refusal |
| DeviceStore.InsertMerges | desktop/crates/phone-auth-verifier/src/pairing.rs:258-298 | an insertion leaves the incoming credentials on their device and every credential of another id where it was, and no id stands twice |
| DeviceStore.RemoveTakesOwn | desktop/crates/phone-auth-verifier/src/pairing.rs:300-307 | a removal takes the device's own credentials and keeps each id once |
| PairingRuns.PostingNeedsAnArmedCode | desktop/crates/phone-auth-agent/src/qr_network.rs:714-842 | every proposal posted comes from a connection that had read an armed code of the proposal's purpose |
| PairingRuns.StoredOnlyFromAnArmedCode | desktop/crates/phone-auth-agent/src/service.rs:571-625 | a device comes into the store only from the proposal then held, posted by a connection that had read an armed code of its purpose, with the quoted code and the quoted attempt, if any, equal to the proposal's |
| PairingRuns.StoredIsWhatWasEnrolled | desktop/crates/phone-auth-agent/src/service.rs:571-637 | whenever a confirmation answers that it stored, the device under the handshake's id has the enrolment's name, the handshake's identity and the enrolment's credential id, public key and purpose with no permissions, in the store and as an identity in the peer table; enrolment and handshake are those of the step that posted it |
| PairingRuns.StoredForWhomWasLookedUp | desktop/crates/phone-auth-agent/src/qr_network.rs:743-777 | a phone stored is the one its connection had claimed and looked up, under the identity the peer table then had for it, if any: pairing a known phone afresh cannot change its identity |
| PairingRuns.StoredAtMostOnce | desktop/crates/phone-auth-agent/src/service.rs:571-625 | in every run each proposal is in at most one place, so none is stored twice |
| PairingRuns.StaleAttemptsTouchNothing | desktop/crates/phone-auth-agent/src/service.rs:577-596 | a confirmation is refused as stale exactly when it quotes another attempt than the held one, and then nothing changes; every other answer leaves nothing held |
| PairingRuns.PollsAgree | desktop/crates/phone-auth-agent/src/service.rs:547-560 | polls repeat the proposal once returned until the user begins, cancels or confirms |
| PairingRuns.SnapshotIsCurrentIff | desktop/crates/phone-auth-agent/src/qr_network.rs:714-842 | the code a connection read is still armed later exactly when no step between began, cancelled or posted |
| PairingRuns.OnlyEarlierReadersSurviveCancel | desktop/crates/phone-auth-agent/src/qr_network.rs:302-306 | after a cancellation and before the next beginning, whatever is proposed, held or newly stored was posted after it by a connection that had read a code before it |
| PairingRuns.CancelDoesNotRecall | desktop/crates/phone-auth-agent/src/qr_network.rs:302-306 | for any code and any phone, a run in which such a connection's device is stored after the cancellation |
| PairingRuns.StoreStaysSound | desktop/crates/phone-auth-verifier/src/pairing.rs:247-256 | in every run each credential id names one credential of one device |
| PairingRuns.MirrorLapsesIff | desktop/crates/phone-auth-agent/src/service.rs:272-276 | the listener's peer table goes on mirroring the store in every step but one that changes the identities held and fails to write them |
| PairingRuns.MirroredThroughout | desktop/crates/phone-auth-agent/src/service.rs:141-160 | so it mirrors the store in every run without such a failure |
| PairingCancel.UnderwayStores | desktop/crates/phone-auth-agent/src/qr_network.rs:756-842 | from any state in which a connection that read a code is under way, whichever phone it can speak to whose record the store takes, and whatever is held, a run without a beginning stores that phone's enrolment, gives up what was held, and leaves every other connection as it was |
| PairingCancel.CancelRecallsIff | desktop/crates/phone-auth-agent/src/service.rs:525-536 | at a cancellation: some continuation without a new beginning stores a device exactly when some connection has read a code and has not ended |
| PairingCancel.SpentCodeStoresIff | desktop/crates/phone-auth-agent/src/qr_network.rs:822-842 | once a posting or a cancellation has disarmed the code: some continuation without a new beginning stores exactly so many later enrolments just when the number is no more than that of the connections that have read a code and have not ended |
| PairingCancel.OneCodeManyDevices | desktop/crates/phone-auth-agent/src/qr_network.rs:713-842 | for any list of phones with device and credential ids of their own, a run with one beginning that stores them all, in that order, each as its own device |
| SshFraming.SshFraming.Push | desktop/crates/phone-auth-agent/src/ssh_session.rs:133-147 | a push returns the complete messages of the pending bytes and the new ones, or the refusal at their head, and keeps exactly the tail |
| SshFraming.HeadIsJudged | desktop/crates/phone-auth-agent/src/ssh_agent.rs:219-235 | a stream is refused at its head exactly when its first four bytes, the most significant first, announce zero or more than 256 KiB, and otherwise its first message is that many bytes once they are there |
| SshFraming.SplitAppend | desktop/crates/phone-auth-agent/src/ssh_session.rs:133-147 | splitting a stream that has grown goes on from the tail it left |
| SshFraming.FragmentationIsInvisible | desktop/crates/phone-auth-agent/src/ssh_session.rs:133-147 | however a stream is cut into pushes, they succeed exactly when no announced length is refused, and then return the same messages and keep the same tail |
| SshFraming.TailIsSplit | desktop/crates/phone-auth-agent/src/ssh_session.rs:133-147 | after a successful push the tail holds no complete message |
| SshFraming.RefusalIsFinal | desktop/crates/phone-auth-agent/src/ssh_agent.rs:223-236 | after a refused length every further push is refused the same way and returns no message |
| SshFraming.FramedBodiesComeBack | desktop/crates/phone-auth-agent/src/ssh_agent.rs:213-236 | framed nonempty bodies up to the limit come back in any fragmentation, with nothing pending |
| SshFraming.RefusalDropsItsPush | desktop/crates/phone-auth-agent/src/ssh_session.rs:133-147 | a message completed by the same push as a refused length is never handed over, and the same message in an earlier push is |
| SshFraming.HandedAndDropped | desktop/crates/phone-auth-agent/src/ssh_session.rs:133-147 | for any stream and any cut, what earlier pushes handed over and what the failing push had completed make up the messages of the whole stream |
| SshFraming.RefusalDropsIff | desktop/crates/phone-auth-agent/src/ssh_session.rs:133-147 | every message before a refused length is handed over exactly when the failing push had completed none, which is when it began no earlier than the refused length stands |
| SshAgent.ReadStringIff | desktop/crates/phone-auth-agent/src/ssh_agent.rs:103-177 | a string (section 5 of RFC 4251) is read just when the bytes start with it |
| SshAgent.ReadStrIff | desktop/crates/phone-auth-protocol/src/ssh.rs:138-155 | the agent reads a field just when the bytes start with it and it is no longer than 64 KiB |
| SshAgent.ParsesAsIdentitiesIff | desktop/crates/phone-auth-agent/src/ssh_agent.rs:126-135 | a body asks for the identities exactly when it is the one byte 11 |
| SshAgent.ParsesAsSignIff | desktop/crates/phone-auth-agent/src/ssh_agent.rs:120-145 | a body is a sign request exactly when it is that request's one spelling, with nothing after it, and its key blob and data are within the field limit |
| SshAgent.BindParses | desktop/crates/phone-auth-agent/src/ssh_agent.rs:146-174 | a session bind as a client writes it, its fields within the limit, parses to its host key and forwarding flag |
| SshAgent.BoundMeansWritten | desktop/crates/phone-auth-agent/src/ssh_agent.rs:146-174 | a body that parses as a session bind is one written for that host key and flag, its fields within the limit |
| SshAgent.ParsesAsBindIff | desktop/crates/phone-auth-agent/src/ssh_agent.rs:146-174 | so a body is a session bind for a host key and a flag exactly when it is one of those spellings |
| SshAgent.DescribedMeansSaid | desktop/crates/phone-auth-agent/src/ssh_agent.rs:103-116 | the user and service a prompt shows are those in the bytes being signed |
| SshAgent.SaidMeansDescribed | desktop/crates/phone-auth-agent/src/ssh_agent.rs:103-116 | a login request's bytes, its fields within the limit, are described as that login |
| SshAgent.DescribedIff | desktop/crates/phone-auth-agent/src/ssh_agent.rs:103-116 | a prompt shows a user and service exactly when the bytes being signed are a login request for them with readable fields |
| SshAgent.IdentitiesAnswer | desktop/crates/phone-auth-agent/src/ssh_agent.rs:180-190 | the answer is the framed list of advertised keys |
| SshAgent.IdentitiesReadBack | desktop/crates/phone-auth-agent/src/ssh_agent.rs:180-190 | a client that reads the framed answer, its type, its count and its keys, gets all advertised keys back in order |
| SshAgent.SignatureReadsBack | desktop/crates/phone-auth-agent/src/ssh_agent.rs:192-196 | a client that reads the sign response finds one body with nothing after it, of type 14, and in it exactly the encoded signature, whenever the reply fits its length field |
| SshAgent.ShortAnswersReadBack | desktop/crates/phone-auth-agent/src/ssh_agent.rs:204-210 | a client reads the refusal as type 5 and the acknowledgement as type 6, with nothing more in either |
| SshSession.SshSession.Handle | desktop/crates/phone-auth-agent/src/ssh_session.rs:57-105 | one message changes bind and policy and is answered as `HandleMessage` says, whose runs the rows below are about |
| SshSession.SshPolicy.RestrictTo | desktop/crates/phone-auth-agent/src/ssh_policy.rs:83-86 | the restriction is replaced and nothing else changes |
| SshSession.SshPolicy.AllowForwardingTo | desktop/crates/phone-auth-agent/src/ssh_policy.rs:88-91 | one destination more may forward and nothing else changes |
| SshSession.SshPolicy.Remember | desktop/crates/phone-auth-agent/src/ssh_policy.rs:94-96 | one destination more is known and nothing else changes |
| SshSession.BindIsLatest | desktop/crates/phone-auth-agent/src/ssh_session.rs:61-66 | the bind in force is the latest session-bind message's, whatever else was sent |
| SshSession.SignedIff | desktop/crates/phone-auth-agent/src/ssh_session.rs:57-105 | a sign response is returned exactly when the policy asked under the latest bind, the key was advertised, the backend signed and its signature encoded |
| SshSession.RepliesReadBack | desktop/crates/phone-auth-agent/src/ssh_session.rs:57-105 | what a client reads of the reply to any message of a run: the encoded signature when it was earned, an acknowledgement of a bind, the advertised keys when they were asked for, and one and the same refusal otherwise |
| SshSession.AsksIff | desktop/crates/phone-auth-agent/src/ssh_policy.rs:101-141 | at any point of a run the policy asks exactly when the request says who logs in, the latest bind is in the restriction if there is one, and a forwarded one is allowed |
| SshSession.SignaturesRespectRules | desktop/crates/phone-auth-agent/src/ssh_policy.rs:101-141 | every signature of a run keeps the restriction and the forwarding rule |
| SshSession.KnownIff | desktop/crates/phone-auth-agent/src/ssh_session.rs:94-99 | a destination is known exactly when it was at the start or an earlier step on it returned a signature |
| SshSession.PromptsTellTheTruth | desktop/crates/phone-auth-agent/src/ssh_policy.rs:101-141 | the prompt names the user in the bytes to be signed and the latest bind's destination and flag, and `first_time` is false exactly when that destination was known or has been signed for |
| AuditLog.AuditLog.Append | desktop/crates/phone-auth-agent/src/audit.rs:101-129 | an append adds one line and then trims |
| AuditLog.AuditLog.NewestLines | desktop/crates/phone-auth-agent/src/audit.rs:168-203 | the loop over the entries, newest first, collects exactly the lines the limits allow |
| AuditLog.AuditLog.TrimIfNeeded | desktop/crates/phone-auth-agent/src/audit.rs:157-228 | a trim leaves the file alone or rewrites it to the newest entries that fit |
| AuditLog.AuditLog.Recent | desktop/crates/phone-auth-agent/src/audit.rs:132-155 | the newest entries that are readable, newest first, as many as asked for |
| AuditRuns.WrittenReadsBack | desktop/crates/phone-auth-agent/src/audit.rs:101-155 | a log of written entries reads back as those entries |
| AuditRuns.OneNewlineEach | desktop/crates/phone-auth-agent/src/audit.rs:101-129 | a log of written entries has one newline for each and ends with it |
| AuditRuns.KeepCountIsKept | desktop/crates/phone-auth-agent/src/audit.rs:168-203 | a trim keeps a count within the limit, with twice the bytes within the threshold unless it is one entry, and not one more would do |
| AuditRuns.KeptIsUnique | desktop/crates/phone-auth-agent/src/audit.rs:168-203 | only one count fits that description |
| AuditRuns.LogIsASuffix | desktop/crates/phone-auth-agent/src/audit.rs:101-228 | with at least one entry retained the log is after every append a nonempty suffix of all entries, ends with the newest, and is within the threshold or a single entry |
| AuditRuns.RecentIsNewestFirst | desktop/crates/phone-auth-agent/src/audit.rs:132-137 | the answer is the reverse of the last entries appended, and starts with the newest |
| AuditRuns.TrimIsPaidFor | desktop/crates/phone-auth-agent/src/audit.rs:157-228 | a trim rewrites no more bytes than the credit its appends left |
| AuditRuns.RewritingIsAmortised | desktop/crates/phone-auth-agent/src/audit.rs:101-228 | from an empty log, with twice each line within the threshold: trims rewrite in all no more bytes than were appended |
| AuditRuns.AllKeptIff | desktop/crates/phone-auth-agent/src/audit.rs:168-203 | a trim keeps everything readable exactly when there is no more of it than the count limit and, unless it is one entry, its bytes are within half the threshold |
| AuditRuns.OverThresholdIff | desktop/crates/phone-auth-agent/src/audit.rs:157-228 | for any file, a trim leaves it over the threshold exactly when it was over and the readable entries are within the limits, or the newest of them is too big on its own |
| AuditRuns.UntouchedIff | desktop/crates/phone-auth-agent/src/audit.rs:157-228 | a trim leaves a file alone exactly when it fits or its readable entries are within the limits, whatever else is in it |
| AuditRuns.BlockedStays | desktop/crates/phone-auth-agent/src/audit.rs:139-150 | behind a line that cannot be read nothing is read any more, whatever is appended |
| AuditRuns.BlockedGrowsForever | desktop/crates/phone-auth-agent/src/audit.rs:101-228 | behind such a line, while the entries before it are within the limits, every append of any run stays in the file unread: it grows by every line, without bound |
| AuditRuns.BlockedAppendStaysIff | desktop/crates/phone-auth-agent/src/audit.rs:101-228 | an append behind such a line stays exactly when the file still fits or the entries before the line are within the limits; otherwise the trim loses it at once, with everything else unread |
| AuditRuns.AppendJoinsTheTail | desktop/crates/phone-auth-agent/src/audit.rs:101-150 | an append after a write that was cut short completes its line: what is read is the complete lines' entries and whatever the joined line says, and nothing behind it when it cannot be read |
| AuditRuns.AppendReadsBackIff | desktop/crates/phone-auth-agent/src/audit.rs:101-150 | whatever is in the file, an append reads back behind all that was read before exactly when no complete line ends the reading and nothing hangs over, unless what hangs over reads as no entry and with the appended one as that one |
| AuditRuns.TrimKeepsNewest | desktop/crates/phone-auth-agent/src/audit.rs:157-228 | whatever is in the file, what is read after a trim is the newest of what was read before it, and something if anything was |
| AuditRuns.TornWriteBlocks | desktop/crates/phone-auth-agent/src/audit.rs:139-150 | when what hangs over makes the next line unreadable, that entry and all later ones stay in the file and none is ever read, while the entries before may all stay |
| AuditRuns.TornWriteBlocksIff | desktop/crates/phone-auth-agent/src/audit.rs:139-150 | for any faithful encoding read as UTF-8: after a write that was cut short, the next append makes the log unreadable from there on exactly when the cut fell within a character |
| AuditRuns.TornWriteLosesTheRest | desktop/crates/phone-auth-agent/src/audit.rs:101-228 | and then nothing appended is ever read, and all of it stays while what was read before may |
| AuditRuns.TornExample | desktop/crates/phone-auth-agent/src/audit.rs:81-88 | such logs exist under the program's own limits |
| Text.CutTextIff | desktop/crates/phone-auth-agent/src/audit.rs:139-146 | text cut short and followed by other text is UTF-8 exactly when it was not cut within a character |
| Text.Utf8Iff | desktop/crates/phone-auth-agent/src/audit.rs:139-146 | bytes are UTF-8 exactly when they spell characters by the table in section 3 of RFC 3629 |
| RecoveryCode.FormatRecoveryCode | desktop/crates/phone-auth-locker/src/recovery.rs:43-65 | the loop over an unmasked 32-bit accumulator writes the base 32 spelling (section 6 of RFC 4648) with a dash before every fourth letter |
| RecoveryCode.Push | desktop/crates/phone-auth-locker/src/recovery.rs:67-73 | one letter more, after a dash when a group is full |
| RecoveryCode.ParseRecoveryCode | desktop/crates/phone-auth-locker/src/recovery.rs:77-117 | the parsing loop, its writes within the 32-byte array, gives exactly what the code stands for or a refusal |
| RecoveryCode.AlphabetIsABijection | desktop/crates/phone-auth-locker/src/recovery.rs:43-117 | each digit has one letter and each letter one digit |
| RecoveryCode.CodesAreCanonical | desktop/crates/phone-auth-locker/src/recovery.rs:43-117 | a typed code is accepted as a key exactly when, dashes, underscores, spaces and case aside, it is that key's own code |
| RecoveryCode.ParsedIsAKey | desktop/crates/phone-auth-locker/src/recovery.rs:77-117 | whatever is accepted is 32 bytes |
| RecoveryCode.ParseSkips | desktop/crates/phone-auth-locker/src/recovery.rs:78-81 | a dash, an underscore or a white-space character may stand anywhere in a typed code and changes nothing |
| RecoveryCode.ParseFoldsCase | desktop/crates/phone-auth-locker/src/recovery.rs:78-82 | a small letter anywhere in a typed code reads as its capital |
| RecoveryCode.ForeignIsRefused | desktop/crates/phone-auth-locker/src/recovery.rs:97-101 | a code with any other character in it is refused |
| RecoveryCode.CodeShape | desktop/crates/phone-auth-locker/src/recovery.rs:43-73 | a written code is 'BAL1' and thirteen groups of four letters and digits, each after a dash |
| Bits.SpellingReadsBack | desktop/crates/phone-auth-locker/src/recovery.rs:43-117 | regrouping bytes into digits (section 3.5 and sections 4 to 6 of RFC 4648) and back gives the bytes and only zero bits over |
| Bits.CleanDigitsAreSpellings | desktop/crates/phone-auth-locker/src/recovery.rs:110-117 | digits that leave only zero bits over, fewer than a digit's worth, are the spelling of the bytes they read as |
| Bits.Absorb | desktop/crates/phone-auth-locker/src/recovery.rs:49-51 | shifting into a 32-bit word appends to its pending bits although older bits fall off the top |
| Bits.Emit | desktop/crates/phone-auth-locker/src/recovery.rs:52-55 | the shift and mask read off the oldest pending group and leave the rest pending |
| Bits.Pad | desktop/crates/phone-auth-locker/src/recovery.rs:57-63 | the last shift pads the pending bits with zeros |
| Base64.EncodeUnpadded | desktop/crates/phone-auth-agent/src/ssh_policy.rs:153-170 | the streaming loop writes the base 64 spelling, without padding, in either alphabet; the plugin's `base64url` is the same loop with the URL-safe one |
| Base64.ParseBase64Url | desktop/windows-plugin/phone-auth-windows-webauthn-plugin.cpp:77-104 | the loop, whose value is cut back after each byte, gives what the text stands for or the refusal that applies |
| Base64.AlphabetIsABijection | desktop/windows-plugin/phone-auth-windows-webauthn-plugin.cpp:58-85 | each digit has one character, never the padding one, and each character one digit |
| Base64.Base64UrlIsCanonical | desktop/windows-plugin/phone-auth-windows-webauthn-plugin.cpp:58-104 | a text is read as these bytes exactly when they are not empty and it is their encoding |
| Base64.AcceptedIsBytes | desktop/windows-plugin/phone-auth-windows-webauthn-plugin.cpp:77-104 | whatever is accepted is a nonempty byte string |
| Base64.Serialize | desktop/crates/phone-auth-agent/src/api.rs:475-498 | the loop over chunks of three bytes writes the base 64 spelling followed by its padding |
| Base64.ChunkIsQuad | desktop/crates/phone-auth-agent/src/api.rs:477-496 | a last chunk of one or two bytes, filled with zeros, has the padded spelling as its first digits |
| Base64.ChunksAreIndependent | desktop/crates/phone-auth-agent/src/api.rs:477-496 | whole chunks leave nothing over, so what follows is spelled on its own |
| Base64.EncodersAgree | desktop/crates/phone-auth-agent/src/api.rs:475-498 | without its padding the chunked text is the streaming one on every input, and its length is a multiple of four |
| Base64.Deserialize | desktop/crates/phone-auth-agent/src/api.rs:500-519 | the decoding loop drops padding anywhere and gives what the remaining text stands for, or a refusal |
| Base64.DeserializeInverts | desktop/crates/phone-auth-agent/src/api.rs:475-519 | every byte string comes back from its padded text |
| Base64.LenientExamples | desktop/crates/phone-auth-agent/src/api.rs:500-519 | texts no encoder writes are accepted: one stray character reads as nothing, and so does padding on its own |
| Base64.LenientIsCanonicalIff | desktop/crates/phone-auth-agent/src/api.rs:500-519 | an accepted text is the padded encoding of what it reads as exactly when its unpadded length is not one past a multiple of four, the bits it leaves over are zero, and its padding is the one its length calls for and all at the end |
| Crc32.PackageCrc.Crc32 | tools/package-extension.js:128-143 | with the table filled on first use or kept from before, the checksum is the bit-at-a-time reflected CRC-32 |
| Crc32.PackageCrc.Fill | tools/package-extension.js:130-139 | entry n is n shifted out of the register in eight steps |
| Crc32.IconCrc.Crc32 | tools/make-icons.js:27-39 | the same checksum, so the two tools agree on every buffer |
| Crc32.LookupFeedsByte | tools/make-icons.js:37-38 | one table lookup feeds the byte's eight bits, lowest first |
| Crc32.ByteIsSentLowestFirst | tools/package-extension.js:141 | what is fed for a byte is its own binary digits, lowest first |
| Crc32.ShiftsFeed | tools/package-extension.js:134-137 | shifting a word out of the register feeds its low bits and leaves its high ones |
| Crc32.DamageIsNoticed | tools/package-extension.js:129-143 | damage confined to four bytes in a row changes the checksum written for any buffer |
| Crc32.CheckValue | tools/package-extension.js:128-143 | the text 123456789 has the check value of CRC-32, 0xCBF43926 |
| Zip.Write | tools/package-extension.js:72-126 | a file is written exactly when every number fits its field, and then it is the bodies, the directory and the end record of the format |
| Zip.MakeLocal | tools/package-extension.js:81-96 | the local header has its thirty bytes in the format's order, or a number does not fit |
| Zip.MakeCentral | tools/package-extension.js:98-110 | the directory header has its forty-six bytes, zero where nothing is written |
| Zip.MakeEnd | tools/package-extension.js:117-123 | the end record has its twenty-two bytes |
| Zip.WriteUInt32LE | tools/package-extension.js:81-123 | a 32-bit field is written little-endian, or the value does not fit |
| ZipReading.LocalParses | tools/package-extension.js:81-96 | a reader finds the local header's checksum, sizes and name length where it was written |
| ZipReading.CentralParses | tools/package-extension.js:98-110 | a reader finds the same in the directory header, and the offset |
| ZipReading.BodyReads | tools/package-extension.js:112-114 | the offset lands on the local header of the same name, sizes and checksum, and the contents behind it inflate to the entry's |
| ZipReading.ArchivesReadBack | tools/package-extension.js:72-126 | a reader that starts at the end record reads back the entries in order, with nothing left over, exactly when no count, size or offset has the value the format reserves for ZIP64; otherwise it reads nothing |
| PngRows.Unfilter | tools/make-icons.js:96-127 | one row is restored byte by byte, and an unknown filter is noticed only if the row has a byte |
| PngRows.UnfilterRows | tools/make-icons.js:89-131 | the nested loops over the buffers give the restored rows joined, or the unknown filter |
| PngRows.RestoresRow | tools/make-icons.js:101-127 | a row filtered as in section 9.2 of the PNG specification is restored |
| PngRows.RestoredByteIs | tools/make-icons.js:99-128 | each byte of a restored row is its line's byte plus what its filter takes from the restored byte to the left, the one above and the one above that, modulo 256 |
| PngRows.PaethIsNearest | tools/make-icons.js:116-122 | the last filter takes the neighbour nearest to the estimate, of equally near ones the left before the upper before the upper left |
| PngRows.UnfilterInvertsFilter | tools/make-icons.js:86-134 | for any rows and any choice of the five filters for each, with zeros above the first, the loop recovers the original bytes |
| PngRows.FailsOnUnknownFilter | tools/make-icons.js:96-126 | the loop fails exactly when there are bytes to restore and some row's filter is missing or unknown |
| PngFile.MakeChunk | tools/make-icons.js:41-48 | a chunk is its length, type, data and checksum, or its length does not fit |
| PngFile.Scan | tools/make-icons.js:143-160 | the writing loop puts filter 0 and the pixels, without alpha when opaque, row after row |
| PngFile.Encode | tools/make-icons.js:143-173 | a file is written exactly when the numbers fit, and then it is the signature and the three chunks |
| PngFile.Decode | tools/make-icons.js:51-134 | the chunk walk and the unfiltering give the image of the file or the first refusal met |
| PngFile.WalkChunk | tools/make-icons.js:61-77 | the walk takes one chunk and goes on after it |
| PngFile.EncodedReadsBack | tools/make-icons.js:51-173 | decoding a non-opaque encoding is the same image; an opaque one is refused as not RGBA |
| PngFile.EncodedIsWellFormed | tools/make-icons.js:41-173 | a reader that checks each chunk's checksum finds the signature and then exactly three chunks, with the image's numbers and the deflated rows in them |
| PngFile.HeaderDecides | tools/make-icons.js:79-84 | a file of one header chunk and one data chunk is refused as not RGBA exactly when its header has a size and says anything but 8 bits, RGBA and not interlaced; an image it decodes to has the header's size |
| PngFile.NoHeaderIsRefused | tools/make-icons.js:55-84 | a file without a header chunk is refused whatever its data |
| VaultWalk.ListAll | desktop/crates/phone-auth-agent/src/vault.rs:292-324 | against any phone the walk opens, asks and hangs up one session a page, at most 4097 of them, none left open and no cursor asked for twice, ends as its last answer says, and returns at most 4128 items |
| VaultWalk.WalksAreBounded | desktop/crates/phone-auth-agent/src/vault.rs:292-324 | what such a walk sends holds as many hang-ups as openings, at most 4097, and no cursor asked for twice |
| VaultWalk.FaithfulPhoneIsRead | desktop/crates/phone-auth-agent/src/vault.rs:292-324 | against a phone that pages a list under distinct nonempty cursors the result is that list exactly when every page can be decoded, only the last page may be empty and what comes before it is within the ceiling |
| VaultWalk.ReturnedLengths | desktop/crates/phone-auth-agent/src/vault.rs:307-321 | some walk returns a list of a given length exactly when it is at most 4128: the ceiling of 4096 and one more page of 32 |
| Password.IndexBelow | desktop/crates/phone-auth-agent/src/password.rs:224-241 | the loop returns the first kept sample folded below the bound and uses up no kept sample more |
| Password.IndexIsUniform | desktop/crates/phone-auth-agent/src/password.rs:224-241 | every index has exactly as many kept 64-bit samples as any other |
| Password.RejectionIsRare | desktop/crates/phone-auth-agent/src/password.rs:224-241 | more than half of all samples are kept |
| Password.ClassesAlwaysFit | desktop/crates/phone-auth-agent/src/password.rs:114-133 | the check passes exactly when a class is on and the length is from 8 to 128, and refuses with no class on or with these two bounds; its third refusal is never reached |
| Password.AlphabetIsDistinct | desktop/crates/phone-auth-agent/src/password.rs:97-112 | no character stands twice in an alphabet |
| Password.OneVectorPerPassword | desktop/crates/phone-auth-agent/src/password.rs:147-163 | each password comes from exactly one index vector |
| Password.SomePasswordPasses | desktop/crates/phone-auth-agent/src/password.rs:136-163 | any policy that passes the check has a candidate the redraw accepts |
| Password.Generate | desktop/crates/phone-auth-agent/src/password.rs:147-163 | the result is the first block of kept samples that spells a password with every class, or the policy's own refusal |
| Password.GeneratedIsAcceptable | desktop/crates/phone-auth-agent/src/password.rs:136-163 | what is generated has the length, only the alphabet's characters and every class |
| Password.PasswordsAreUniform | desktop/crates/phone-auth-agent/src/password.rs:147-163 | any two index vectors of one length stand for equally many blocks of kept samples, and a block stands for the vector its samples fold to |
| PasswordUniform.RedrawnBack | desktop/crates/phone-auth-agent/src/password.rs:147-163 | moving one block of a tape to other indices and back gives the tape |
| PasswordUniform.ReblockedIsAccepted | desktop/crates/phone-auth-agent/src/password.rs:147-163 | with its accepted block moved to another covering password, a tape gives that one, from the same place |
| PasswordUniform.GeneratedIsUniform | desktop/crates/phone-auth-agent/src/password.rs:136-163 | over the tapes of any one length, rejected samples and redrawn candidates included, equally many make the generator return any two acceptable passwords |
| PasswordUniform.OnlyAcceptable | desktop/crates/phone-auth-agent/src/password.rs:136-163 | whatever it returns has the length asked for, only characters of the kinds that are on, and one of each: the letters, the digits, and the printable ASCII symbols but five |
| Password.GeneratePassphrase | desktop/crates/phone-auth-agent/src/password.rs:169-191 | the loop joins the words at the kept samples' indices with the separator between them |
| Password.PhraseFits | desktop/crates/phone-auth-agent/src/password.rs:198-209 | a passphrase never outgrows the reserved capacity, and fills it exactly when every word is a longest one |
| AgentConnection.Connection.Consume | desktop/ui/src/agent-connection.js:160-194 | a chunk is handled line by line, a line that throws ends it, and an oversized rest drops the connection |
| AgentConnection.Connection.Take | desktop/ui/src/agent-connection.js:169-186 | a line is pushed on, settles the waiting call with its id, or is passed over |
| AgentConnection.Connection.Discard | desktop/ui/src/agent-connection.js:205-222 | every waiting call is rejected, in order, and the buffer and socket are dropped |
| AgentConnection.Connection.Fail | desktop/ui/src/agent-connection.js:224-240 | the same, with the status told and a retry scheduled |
| AgentConnection.Connection.Start | desktop/ui/src/agent-connection.js:112-158 | a retry is cancelled and a socket opened, or the problem fails the attempt |
| AgentConnection.Connection.Call | desktop/ui/src/agent-connection.js:258-288 | a call is refused without a live connection and otherwise waits under the next id |
| AgentConnection.Connection.Connect | desktop/ui/src/agent-connection.js:145-153 | an accepted socket is told of and subscribed on |
| AgentConnection.Connection.TimeOut | desktop/ui/src/agent-connection.js:279-282 | a call still waiting is rejected when its timer fires |
| AgentConnection.Connection.Stop | desktop/ui/src/agent-connection.js:290-293 | stopping cancels the retry and rejects every waiting call |
| AgentRuns.StepConserves | desktop/ui/src/agent-connection.js:112-293 | whatever a step takes from the waiting calls it settles, and whatever it adds it has just issued |
| AgentRuns.EveryCallSettlesOnce | desktop/ui/src/agent-connection.js:112-293 | in every run, across reconnects, each id issued is waiting or settled, never both, and settled at most once; no other id is either |
| AgentRuns.SettledForCause | desktop/ui/src/agent-connection.js:160-293 | a call is answered only by a line with its own id, timed out only by its own timer, and discarded only with its connection; nothing waits across a loss or a stop |
| AgentCuts.CutInTwo | desktop/ui/src/agent-connection.js:160-194 | one chunk or two make no difference while the first leaves a rest within the limit and throws nowhere |
| AgentCuts.ChunkingIsInvisible | desktop/ui/src/agent-connection.js:160-194 | however the text is cut, the same lines are handled and the same rest kept, under that condition |
| AgentCuts.DrainGoesToNull | desktop/ui/src/agent-connection.js:165-186 | the loop throws exactly when some complete line reads as null, and leaves what follows the first such line |
| AgentCuts.ThrowingLineShowsTheCut | desktop/ui/src/agent-connection.js:165-194 | when some complete line before a cut reads as null, the cut is invisible exactly when the first such line is the last complete line of all the text and what follows it is within the limit |
| AgentCuts.OversizedRestShowsTheCut | desktop/ui/src/agent-connection.js:187-194 | when the rest at a cut is over the limit, the cut is invisible exactly when nothing more comes |
| AgentCuts.CutShowsIff | desktop/ui/src/agent-connection.js:160-194 | for any state and any two texts, exactly when two chunks do what one chunk of both does |
| AgentCuts.ManyCutsShowIff | desktop/ui/src/agent-connection.js:160-194 | any number of chunks do what one chunk of them all does exactly when each of the cuts, by itself, is invisible |
| AgentCuts.NullHidesTheNextLine | desktop/ui/src/agent-connection.js:165-178 | a line that reads as `null` hides the line behind it in the same chunk, but not in the next one |
| Lines.CutAppend | desktop/ui/src/agent-connection.js:163-166 | the lines of a text do not depend on where it was divided |

## Left out

- Cryptography and the handshake itself, secure channels, key storage and the verifier's policy: outcomes are abstract values.
- Sockets, threads, condition variables and peeking: their effects are steps with inputs. Waiting for a proposal (`await_proposal`) and the reaper's schedule are not modelled.
- IPC dispatch, configuration, paths, the command line, transport registry order and error texts: they would add only easy members.
- Files, permissions and temporary names around the audit log: the log is the bytes of its file, and an append or a trim is one step. I/O errors are not modelled.
- Wiping of secrets from memory, and the clipboard.
- Length limits of an enrolment's texts and of a device id, key kinds, pairing times, and permissions and their revisions but for their being dropped by a fresh pairing. A store loaded from a file is not modelled.
- UTF-8 decoding of text and of ZIP names: text is characters, names are bytes. A recovery code with a multi-byte character is refused in the model as in the code, though the two notice it at different checks.
- Resampling, compositing and every other floating-point image step; entropy figures.
- A listener of the tray's connection that calls back into it while a chunk is being consumed, ids beyond 2^53, and two sockets open at once.
- Memory limits of `Buffer.alloc`, and `usize` overflow in `passphrase_capacity`.
- SshSession.SignedIff: whether the phone really signed what the prompt showed is the backend's part; the backend's answer is an input.
- PasswordUniform.GeneratedIsUniform: counts tapes of one length; that the operating system's samples are independent and uniform is not expressible here.
- PngFile.EncodedReadsBack: an opaque file's colours are not read back, because the tool's own decoder refuses it.
