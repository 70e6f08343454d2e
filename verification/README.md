# EarthRise core: networking, replication and durability

A Dafny model of the platform-independent part of EarthRise's `NeuronCore`, and of the
client's beacon route solver, with proofs of what that code is written for: surviving loss,
reordering, duplication, crashes and slot reuse.

Code that works by changing things step by step is modelled by classes and methods with loops.
Each method is proved against a value-level function or predicate, and the properties over
whole runs are proved about those. Where several parties and a network are involved, a state
machine steps them one event at a time; what was once put on the wire stays available for
ever, so loss, duplication and reordering are all included.

| File | What it models |
|---|---|
| `Bits`, `Counting`, `Wrappers` | machine words with shifts and bitwise operators written out on naturals; small shared helpers |
| `SequenceMath`, `Reliability` | 16-bit sequence order; sender, receiver, acks and a lossy network |
| `ReplayWindow`, `SecureChannel` | the 1024-bit anti-replay bitmap; sealing and opening datagrams |
| `Handshake` | client and server handshake machines over an unreliable network |
| `ConnectionTable`, `ServerHost` | slots and handles; routing, reaping, one session per account |
| `BitStream`, `Serde`, `Command`, `PacketCodec` | bit packing, typed buffers, fleet commands, headers and message framing |
| `Outbox`, `EconomyOutbox` | exactly-once ledger; idempotency keys and connection tokens |
| `Ecs` | entity handles, sparse-set storages, the world |
| `Interest`, `UniverseInterest` | the cell grid and its per-tick refresh |
| `Baseline`, `Replication`, `ReplicationRuns` | versions, acked baseline, tombstones; a session over a lossy channel; runs that show its limits |
| `Starmap` | shortest beacon routes |
| `Combat` | layered damage |

`dafny verify dfyconfig.toml` checks everything.

## Main results

- **Replay window.** Over every sequence of calls a packet number is accepted exactly if it was
  never accepted and is less than 1024 behind everything accepted; the 16-word bitmap, shifted
  in place across word boundaries, is that set (`RunWindow`, `ReplayRunTheorem`).
- **Reliable delivery.** While deliveries stay within 1024 behind and 31743 ahead of the newest
  message, and in-flight numbers stay under 65536 from what an arriving ack names, every message
  is taken exactly once and only taken messages are retired (`ReliableDelivery`). A duplicate
  more than 1024 and fewer than 32768 behind is taken again at every delivery
  (`VerdictIsRightExactly`); after a jump past the other bound, a message one wrap later can be
  refused although it was never taken (`JumpTooFarRefusesLater`).
- **Secure channel.** Over a network that may also forge, what is opened is an unrepeated selection
  of the sealed payloads, unchanged, and a sealed datagram is opened exactly if its number is in
  the window (`SecureDelivery`), for any cipher whose decryption inverts its encryption and opens
  nothing else. As the window moves before decryption, every number presented with the token counts,
  and no other (`SpentWasPresented`); a datagram of another token changes nothing
  (`WrongTokenChangesNothing`).
- **Key agreement.** Whenever the client holds keys, the connection its token names holds the same
  epoch and keys, and their channels mirror each other (`KeyAgreement`); the client's ephemeral
  key is never regenerated (`EphemeralIsForEver`). On a network that forges, the client's keys
  still come from an ephemeral the host made (`SignedKeyAgreement`), while token and epoch are not
  signed (`ResponseFieldsAreUnsigned`); its token names a connection with its keys exactly if the
  response it accepted showed that connection's ephemeral and epoch, and the connection answered
  the client's own ephemeral (`TokenNamesKeysExactly`).
- **Handshake.** With succeeding cryptography, when nothing is lost, the exchange ends with mirrored
  channels at both ends (`HandshakeCompletes`); what was lost is sent again while an end is
  handshaking (`ClientResendsLast`, `LostResponseComesAgain`).
- **Host routing.** Connections, active slots and addresses correspond one to one, no address or
  slot is shared, every connected address once verified a cookie, and under real authentication an
  account has one session (`RoutingInvariant`).
- **Codecs.** Any list of fields of 1 to 64 bits with flush/align pairs reads back masked to its
  widths (`RoundTrip`); fleet commands decode to themselves and no strict byte prefix decodes
  (`FleetCommandRoundTrip`), and nothing decodes that does not start with an encoding
  (`DecodesExactly`); framing accepts exactly the concatenations of frames (`ReadMessages`).
- **Exactly-once ledger.** In every run with crashes, interrupted drains and replays, the ledger
  is the first event of each key in a prefix of the log, with running balances (`Execute`). A
  drain after a confirm that ran ahead is right if and only if all it skips are repeats
  (`DrainIsExact`); otherwise an event can stay out (`ConfirmAheadLosesEvent`) until the in-memory
  watermark is lost, and is then applied out of order (`LostUntilWatermarkDropped`).
- **Keys and tokens.** Two idempotency keys are equal exactly when family and `(netId << 21) ^ tick`
  are (`KeyCollision`), so they are unique below tick 2^21 and not at it (`TickBoundIsTight`);
  tokens do not repeat in 2^64 calls (`TokensDoNotRepeat`).
- **Entities.** Each storage is a map from entity index to value, mask bits match, and a destroyed
  handle lives again only after a multiple of 4096 deaths of its slot (`World.HandleLiveness`).
- **Interest.** The grid's lists always agree with the entity and player maps; what a player sees
  is the brute-force answer (`VisibleTo`), contains whatever its sensors detect and, outside its pins,
  nothing further than range and two cells from all of them (`UpdateInterest`).
- **Baseline.** An ack also folds in earlier snapshots that may have been lost. Whatever the channel
  lost, the client received what is folded in for an entity if and only if the acknowledged
  snapshot was built with the entity in its interest set (at that version or later, and not leaving
  out an entity already suspect), or an earlier acknowledged one carried it
  (`FoldedWasReceivedExactly`). Over every run the acked versions it may never have received are
  exactly those of the suspect entities; an entity that leaves and returns can be one
  (`LossFoldedInAfterLeaving`).
  To have received a version is not to hold it: the client may have been told to remove the entity
  since. It holds an acked version, whatever was lost, if and only if no snapshot sent after an
  acknowledged one that carried it removed it (`HeldExactly`); even with nothing lost this can fail
  for an entity that is not suspect (`RemovedThenFoldedIn`). With a fixed interest set and growing
  versions it holds all of them (`Replicate`).
- **Removals.** Tombstones are dropped only on re-entry or after a snapshot carrying them arrived
  (`SendSnapshot`, `AckArrives`), and are ended by any ack of their first carrier or a later snapshot
  (`AckEndsTombstone`). Whatever the client holds is acked, to be removed, or in a pending
  record, unless its record was pushed out by 64 later ones, or its tombstone was cancelled while it
  had no version to send (`Replicate`); a pushed-out record can leave an entity with the client for
  which nothing will queue a removal (`RecordPushedOut`).
- **Routes.** The route is empty exactly if there is none, and otherwise shortest and, among the
  shortest, first by link order (`SolveBeaconRoute`).
- **Damage.** The overflow loop leaves each layer what closed-form thresholds say
  (`ApplyTypedDamage`); a blow that does not kill is conserved up to half a hit point of the last
  layer it reaches (`DamageConserved`); the hull can be empty without a kill exactly when the blow
  ends at most half a hit point short (`HullEmptyWithoutKill`).

## Where the code and its comments differ

- `NeuronCore/Combat.h:58-60` says the outcome is the outermost layer that broke; the loop reports
  the innermost one (`NeuronCore/Combat.h:88`, `OutcomeIsInnermost`). The model follows the code.
- `NeuronCore/ConnectionTable.h:65-67` says that opening bumps a slot's generation; it is closing
  that does (`NeuronCore/ConnectionTable.h:115`).
- `NeuronCore/ServerUniverse.h:645-646` says that a dropped snapshot re-deltas from the acked
  baseline. An entity that leaves and returns is the exception: a later ack folds the dropped
  snapshot in, and the entity no longer counts as lacking (`LossFoldedInAfterLeaving`).
- `NeuronCore/Interest.h:362-363` says that the acked version is one the client holds; after a
  removal and a late ack it is not (`RemovedThenFoldedIn`).
- `NeuronCore/Interest.h:386-389` says that dropping the record of an old unacked snapshot is safe;
  it can be the last trace of an entity the client holds (`RecordPushedOut`).

## Model

| member | source | states |
|---|---|---|
| `ReplayWindows.ReplayWindow.CheckAndUpdate` | NeuronCore/ReplayWindow.h:29-57 | the verdict and the new window are those of the plain set of accepted numbers: new and less than 1024 behind every accepted number |
| `ReplayWindows.ReplayWindow.Reset` | NeuronCore/ReplayWindow.h:62-67 | forgets every accepted number |
| `ReplayWindows.ReplayWindow.TestBit` | NeuronCore/ReplayWindow.h:71-74 | reads the bit that stands for highest - offset |
| `ReplayWindows.ReplayWindow.SetBit` | NeuronCore/ReplayWindow.h:75-78 | adds one bit and keeps the 1023 others |
| `ReplayWindows.ReplayWindow.SlideForward` | NeuronCore/ReplayWindow.h:82-104 | moves every bit by the shift across word boundaries, dropping what leaves the window and clearing what enters |
| `ReplayWindows.ShiftedWordBit` | NeuronCore/ReplayWindow.h:95-103 | bit k after the word loop is bit k - shift before it |
| `ReplayWindows.SlideTracks` | NeuronCore/ReplayWindow.h:38-44 | a jump ahead keeps bit k set exactly for the accepted highest - k |
| `ReplayWindows.AcceptedHasVerdict` | NeuronCore/ReplayWindow.h:29-57 | over a run, a number counts as accepted exactly when some call answered yes to it |
| `ReplayWindows.ReplayRunTheorem` | NeuronCore/ReplayWindow.h:29-57 | over a run, no number is accepted twice, and every refusal is explained by an earlier acceptance of the same number or of one 1024 or more ahead |
| `ReplayWindows.RunWindow` | NeuronCore/ReplayWindow.h:21-109 | a window driven through any run of calls answers with the verdicts of the plain set |
| `SequenceMath.SeqGreaterIsTotal` | NeuronCore/SequenceMath.h:15-30 | different sequences are ordered exactly one way, the half-range distance included, and the order agrees with the signed difference except there |
| `SequenceMath.SeqOrderRefinesNumbers` | NeuronCore/SequenceMath.h:15-30 | within half the range, comparison and difference are those of the unbounded numbers |
| `SequenceMath.WrapInjective` | NeuronCore/SequenceMath.h:27-30 | numbers less than 65536 apart share a sequence only if equal |
| `Reliability.ReliableSender.Send` | NeuronCore/Reliability.h:44-51 | the message is in flight under the sequence returned, and the next sequence wraps at 16 bits |
| `Reliability.ReliableSender.OnAck` | NeuronCore/Reliability.h:57-66 | exactly the sequences that ack and bits name leave the in-flight map, and their samples are taken in that order |
| `Reliability.ReliableSender.AckOne` | NeuronCore/Reliability.h:98-106 | retires one sequence; only a message sent exactly once gives its round trip as a sample |
| `Reliability.ReliableSender.UpdateRtt` | NeuronCore/Reliability.h:108-121 | the estimate starts at the first sample and then moves an eighth of the way to each sample, the deviation a quarter of the way; negative samples are ignored |
| `Reliability.ReliableSender.CurrentRto` | NeuronCore/Reliability.h:87-95 | the allowed timeout nearest to the estimate plus four deviations, or the initial one before any sample |
| `Reliability.ReliableSender.CollectTimedOut` | NeuronCore/Reliability.h:69-82 | hands back each message past its timeout once, restarts its clock, and leaves every other message alone |
| `Reliability.CollectedOnce` | NeuronCore/Reliability.h:69-82 | what one collection hands back, a second one within the timeout does not |
| `Reliability.ResentGivesNoSample` | NeuronCore/Reliability.h:69-106 | a message that was sent again gives no round-trip sample, whenever its ack comes |
| `Reliability.FirstSample` | NeuronCore/Reliability.h:98-121 | a message sent once gives the time from its sending to its ack as the first estimate, and half of it as the deviation |
| `Reliability.SteadySamplesConverge` | NeuronCore/Reliability.h:108-121 | under n samples of one size the distance of the estimate from them loses an eighth n times, and once it is there the deviation loses a quarter at a time |
| `Reliability.ReliableReceiver.OnReceive` | NeuronCore/Reliability.h:141-161 | the verdict and new memory of the receiver for any arriving sequence |
| `Reliability.ReliableReceiver.PruneOld` | NeuronCore/Reliability.h:181-190 | forgets exactly the sequences more than 1024 behind the newest |
| `Reliability.ReliableReceiver.AckBits` | NeuronCore/Reliability.h:167-176 | the bit word built by the loop is the one the ack lemmas speak about |
| `Reliability.AckBitsNameReceived` | NeuronCore/Reliability.h:167-176 | bit i is set exactly if latest - 1 - i was received |
| `Reliability.DeliveryDecision` | NeuronCore/Reliability.h:141-161 | inside the window the 16-bit memory answers exactly whether the unbounded message number was taken before |
| `Reliability.DeliveryKeepsReceiver` | NeuronCore/Reliability.h:141-190 | after a delivery the memory is again the messages taken within 1024 of the newest |
| `Reliability.PruneExact` | NeuronCore/Reliability.h:181-190 | pruning by wrapped difference forgets exactly the messages that left the window |
| `Reliability.EmittedAckIsExact` | NeuronCore/Reliability.h:164-176 | an ack vouches for the newest message and, of the 32 before it, exactly those taken |
| `Reliability.RetiredWasVouched` | NeuronCore/Reliability.h:57-66 | an ack retires an in-flight message only if it was built after that message was taken |
| `Reliability.StepKeepsInv` | NeuronCore/Reliability.h:44-190 | sending, resending, delivering, acking and ack arrival all keep sender, receiver and acks consistent |
| `Reliability.RunKeepsInv` | NeuronCore/Reliability.h:44-190 | every reachable state is consistent |
| `Reliability.ReliableDelivery` | NeuronCore/Reliability.h:44-190 | in every run each message is taken at most once, a delivered one is taken exactly if it never was, only taken messages are retired, and in-flight entries carry their own payload |
| `Reliability.VerdictIsRightExactly` | NeuronCore/Reliability.h:141-190 | from fewer than 32768 behind the newest message to 31743 ahead, the verdict is right exactly inside the window or for a message never taken; further behind than 1024 it is taken every time |
| `Reliability.JumpKeepsRecordExactly` | NeuronCore/Reliability.h:181-190 | after a jump ahead a record survives exactly inside the new window or 32768 or more behind, where pruning takes it for a newer one |
| `Reliability.JumpTooFarRefusesLater` | NeuronCore/Reliability.h:141-190 | past a jump of 31743 the oldest record survives, and the message one wrap later is refused although never taken |
| `SecureChannels.SecureChannel.SetKeys` | NeuronCore/SecureChannel.h:43-49 | installs both keys and the epoch; counter and replay window go on |
| `SecureChannels.SecureChannel.Seal` | NeuronCore/SecureChannel.h:63-93 | numbers the datagram with the send counter, prefixes the authenticated header, and advances the counter only on success |
| `SecureChannels.SecureChannel.Open` | NeuronCore/SecureChannel.h:97-119 | the answer and the new window for any bytes; what it never takes is stated by the four refusals below and `SecureChannels.OpenedUnderToken` |
| `SecureChannels.WrongTokenChangesNothing` | NeuronCore/SecureChannel.h:105-106 | a datagram whose header names another token leaves sender, receiver and window as they were |
| `SecureChannels.RuntChangesNothing` | NeuronCore/SecureChannel.h:102-104 | so does one too short for a header |
| `SecureChannels.NothingWithoutKeys` | NeuronCore/SecureChannel.h:97-101 | so does anything while the channel has no keys |
| `SecureChannels.ReplayChangesNothing` | NeuronCore/SecureChannel.h:108-110 | a number taken before or too far behind is refused, and changes nothing |
| `SecureChannels.OpenedUnderToken` | NeuronCore/SecureChannel.h:97-119 | what opens, or fails to decrypt, came under the channel's token with a fresh number, and exactly that number is used up |
| `SecureChannels.DeliverOutcome` | NeuronCore/SecureChannel.h:97-119 | opening the i-th sealed datagram gives its payload unchanged exactly when number i is fresh |
| `SecureChannels.SealKeepsWire` | NeuronCore/SecureChannel.h:63-93 | datagram i on the wire is packet number i sealed from payload i |
| `SecureChannels.PresentKeepsDelivered` | NeuronCore/SecureChannel.h:97-119 | presenting any bytes keeps what is delivered an unrepeated selection of the sealed payloads |
| `SecureChannels.SpentGrows` | NeuronCore/SecureChannel.h:109-117 | what was not sealed is never delivered; it may use up its packet number, as the window moves before decryption |
| `SecureChannels.PresentedExactly` | NeuronCore/SecureChannel.h:97-119 | a sealed datagram is delivered exactly if its number was neither delivered nor used up and is less than 1024 behind every such number |
| `SecureChannels.StepKeepsInv` | NeuronCore/SecureChannel.h:63-119 | sealing, and presenting any bytes, keep the wire and the delivered list consistent |
| `SecureChannels.RunKeepsInv` | NeuronCore/SecureChannel.h:63-119 | every reachable state is consistent |
| `SecureChannels.SecureDelivery` | NeuronCore/SecureChannel.h:63-119 | over any network, forging included: payloads come out unchanged and at most once, packet numbers never repeat, and presenting a sealed datagram delivers it exactly if its number is in the window |
| `SecureChannels.SpentWasPresented` | NeuronCore/SecureChannel.h:105-112 | over every run, a number is used up without being opened only if some datagram presented it under the channel's token |
| `SecureChannels.RoutedByToken` | NeuronCore/Connection.h:314-322 | the token peeked from any datagram the channel seals is the channel's token |
| `Handshake.HandshakeClient.OnMessage` | NeuronCore/Handshake.h:199-209 | the state and answer for each handshake message, undecodable ones included; what each must lead to is stated by `Handshake.ClockSyncEndsHandshake`, `Handshake.FailureDisconnects` and `Handshake.HandshakeCompletes` |
| `Handshake.HandshakeClient.OnCookie` | NeuronCore/Handshake.h:230-257 | only the first cookie generates an ephemeral key; later ones are answered with the same public key |
| `Handshake.HandshakeClient.OnHandshakeResponse` | NeuronCore/Handshake.h:259-294 | keys are derived once, after the signature verified; a repeated response only asks for clock sync again |
| `Handshake.ClientConnection.constructor` | NeuronCore/Connection.h:63-70 | a session starts handshaking with one client hello pending |
| `Handshake.ClientConnection.OnDatagram` | NeuronCore/Connection.h:91-128 | the handshake part: reply, pending message, failure, and the one channel created when keys and clock sync are there |
| `Handshake.ClientResendRepeats` | NeuronCore/Connection.h:189-200 | in every reachable state a client resend is a message already on the network: it changes nothing |
| `Handshake.ServerConnection.BeginFromCookieResponse` | NeuronCore/Connection.h:381-395 | fresh ephemeral, keys for epoch 0 and the signed response that names this connection's token; failure disconnects |
| `Handshake.HostResendRepeats` | NeuronCore/Connection.h:397-401 | in every reachable state a repeated cookie response makes the host repeat a message already on the network, and changes no connection |
| `Handshake.ServerConnection.OnDatagram` | NeuronCore/Connection.h:404-426 | clock sync completes the handshake and creates the mirrored channel once; an undecodable one disconnects |
| `Handshake.ClientStepKeepsInv` | NeuronCore/Handshake.h:199-294 | a message reaching the client keeps the agreement invariant |
| `Handshake.LiveStepKeepsInv` | NeuronCore/ServerHost.h:403-417 | a datagram routed to the live connection keeps it, repeated and undecodable ones included |
| `Handshake.NewPeerStepKeepsInv` | NeuronCore/ServerHost.h:150-214 | the stateless cookie phase and a new connection keep it |
| `Handshake.RunKeepsInv` | NeuronCore/Handshake.h:83-327 | every reachable state of client, host and network satisfies it |
| `Handshake.StepKeepsEphemeral` | NeuronCore/Handshake.h:230-257 | no step replaces the client's ephemeral key, nor keys it already holds |
| `Handshake.EphemeralIsForEver` | NeuronCore/Handshake.h:230-257 | over any run the ephemeral key and derived keys stay what they were when made |
| `Handshake.KeyAgreement` | NeuronCore/Handshake.h:99-128 | in every run a client with keys agrees on token, epoch and key pair with the connection its token names, and the channels mirror each other |
| `Handshake.SignedKeyAgreement` | NeuronCore/Handshake.h:259-288 | over a network that may also forge, but not sign for the pinned key, the keys a client holds come from its own ephemeral and one the host made |
| `Handshake.ResponseFieldsAreUnsigned` | NeuronCore/Handshake.h:115-126 | beside a valid signature the client takes whatever token it reads, and whatever epoch derives keys: neither is signed |
| `Handshake.RunKeepsOrigin` | NeuronCore/Handshake.h:99-128 | over a forging network each end's keys come from its own ephemeral and the one it was shown |
| `Handshake.TokenNamesKeysExactly` | NeuronCore/Handshake.h:259-294 | over a forging network, the connection that the client's token names holds the client's keys exactly if the accepted response showed that connection's ephemeral and epoch, and it answered the client's ephemeral |
| `Handshake.HandshakeCompletes` | NeuronCore/Connection.h:91-128 | a run: with succeeding cryptography, when nothing is lost, hello, cookie, cookie response, response and clock sync leave both ends authenticating with channels that mirror each other |
| `Handshake.ClockSyncEndsHandshake` | NeuronCore/Connection.h:110-115 | a client with keys and no channel that gets the clock sync response has the channel of its token, keys and epoch, and goes on to authenticate |
| `Handshake.ClockSyncIsAnswered` | NeuronCore/Connection.h:404-426 | a connection with keys answers every clock sync request, and has the mirrored channel from the first one on |
| `Handshake.ChannelIsMadeOnce` | NeuronCore/Connection.h:110-115 | an end that has its channel keeps it, and no late or repeated handshake message takes it back to authenticating |
| `Handshake.FailureDisconnects` | NeuronCore/Handshake.h:259-288 | a version reject, an undecodable message, a bad signature or failing cryptography disconnects the client, which gains neither keys nor channel |
| `Handshake.HostFailureDisconnects` | NeuronCore/Connection.h:381-419 | a connection that cannot begin is disconnected, has no keys and says nothing; an undecodable clock sync request disconnects one that did |
| `Handshake.CookiePhaseIsStateless` | NeuronCore/Handshake.h:55-78 | from an unknown peer a hello gets a cookie or a version reject, a cookie response that does not verify gets nothing, and no connection comes of either |
| `Handshake.ClientResendsLast` | NeuronCore/Connection.h:189-200 | in every reachable state the client sends again exactly its last message while handshaking, and whatever it answers becomes its last message |
| `Handshake.LostResponseComesAgain` | NeuronCore/ServerHost.h:408-417 | a connection just begun answers a repeated cookie response with the handshake response it sent first |
| `Handshake.ClientConnection.ResendPending` | NeuronCore/Connection.h:189-200 | adds nothing to what was ever sent in clear, and stays silent outside the handshake |
| `Handshake.ServerConnection.ResendHandshake` | NeuronCore/Connection.h:397-401 | adds nothing to what was ever sent in clear, and stays silent outside the handshake |
| `ConnectionTables.ConnectionTable.Open` | NeuronCore/ConnectionTable.h:68-87 | a known token keeps its slot; a new one gets an inactive or new slot and a valid handle, and no other slot changes |
| `ConnectionTables.ConnectionTable.Find` | NeuronCore/ConnectionTable.h:91-96 | finds exactly the open tokens, each with a handle that validates |
| `ConnectionTables.ConnectionTable.Close` | NeuronCore/ConnectionTable.h:109-120 | frees the token's slot only, and counts one more close of it |
| `ConnectionTables.ConnectionTable.HandleLiveness` | NeuronCore/ConnectionTable.h:100-120 | an old handle validates exactly if the slot is active and a multiple of 2^32 closes have passed; never within fewer |
| `ConnectionTables.ReuseKeepsTable` | NeuronCore/ConnectionTable.h:73-86 | recycling a free slot keeps slots, free list and token map consistent |
| `ConnectionTables.CloseKeepsTable` | NeuronCore/ConnectionTable.h:109-120 | closing keeps them consistent |
| `ServerHosts.FreshToken` | NeuronCore/ServerHost.h:661-667 | the next token is no live connection's token |
| `ServerHosts.ServerHost.RemoveConnection` | NeuronCore/ServerHost.h:393-401 | drops one connection with its address and slot and despawns its base; its handle no longer validates |
| `ServerHosts.ServerHost.DropConnection` | NeuronCore/ServerHost.h:613-618 | drops one connection the same way but leaves its base standing |
| `ServerHosts.ServerHost.KickExistingSessionForAccount` | NeuronCore/ServerHost.h:605-620 | closes exactly the account's other authenticated connections, and no base |
| `ServerHosts.ServerHost.OnAuthMessage` | NeuronCore/ServerHost.h:469-526 | a successful login binds the account here and ends its other sessions; a refused one changes nothing |
| `ServerHosts.ServerHost.OnAuthMessages` | NeuronCore/ServerHost.h:418-441 | several logins in one datagram apply in order; other connections are untouched or lost their account to one of them |
| `ServerHosts.ServerHost.DispatchToConnection` | NeuronCore/ServerHost.h:403-446 | a repeated cookie response changes nothing; anything else advances the connection |
| `ServerHosts.ServerHost.Deliver` | NeuronCore/ServerHost.h:134-148 | activity is refreshed and a disconnected connection is reaped at once |
| `ServerHosts.ServerHost.OnDatagram` | NeuronCore/ServerHost.h:119-215 | encrypted datagrams go by token, clear ones by address; what no connection is there for and no verified cookie comes with changes nothing, and a verified cookie from an unknown address opens exactly one connection; of the others, exactly the sessions whose account a login took are gone |
| `ServerHosts.ServerHost.OpenConnection` | NeuronCore/ServerHost.h:178-214 | adds one connection, with its slot, address and, under the dev stub, its base, and leaves all others alone |
| `ServerHosts.ServerHost.PruneStale` | NeuronCore/ServerHost.h:297-314 | reaps exactly the disconnected and the silent, despawns their bases, and reports each with endpoint, net id and whether it timed out |
| `ServerHosts.ServerHost.RoutingInvariant` | NeuronCore/ServerHost.h:119-215 | in every reachable state: one address and one slot per connection, every handle valid, each connection reached by its token from anywhere and by its address in clear, its address once verified a cookie, and under real authentication one authenticated session per account |
| `ServerHosts.DropKeepsHost` | NeuronCore/ServerHost.h:393-401 | removal keeps the one-to-one correspondence |
| `ServerHosts.OpenKeepsHost` | NeuronCore/ServerHost.h:178-214 | opening keeps it |
| `ServerHosts.UpdateKeepsHost` | NeuronCore/ServerHost.h:403-446 | a change of an entry keeps it as long as no other authenticated connection holds the account |
| `ServerHosts.StaleExactly` | NeuronCore/ServerHost.h:301-306 | a peer is reaped exactly if it disconnected or, with a timeout set, was silent for longer than that; timeout 0 reaps no silent peer |
| `ServerHosts.HeardFromStays` | NeuronCore/ServerHost.h:134-148 | a peer heard from now is not reaped now unless it disconnected, and keeps its address and slot |
| `ServerHosts.LastLoginWins` | NeuronCore/ServerHost.h:469-526 | after a datagram's logins the entry has the account and net id of the last that succeeded, and is what it was if none did |
| `ServerHosts.KickedExactly` | NeuronCore/ServerHost.h:605-620 | of the other connections exactly the account's authenticated ones go |
| `ServerHosts.ReapedIsReported` | NeuronCore/ServerHost.h:307-309 | a reaped peer is reported with its address and base, as timed out unless it had disconnected |
| `ServerHosts.RepeatedCookieExactly` | NeuronCore/ServerHost.h:408-417 | until it is connected a connection takes a cookie response for a repeat and stays as it is; anything else advances it |
| `BitStream.BitWriter.Write` | NeuronCore/BitStream.h:25-43 | appends the low bits of the value, most significant first, to the bits written so far |
| `BitStream.BitWriter.Flush` | NeuronCore/BitStream.h:58 | pads to a byte boundary with zeros |
| `BitStream.FieldIsBigEndian` | NeuronCore/BitStream.h:25-58 | a field of whole bytes is those bytes of its value, most significant first |
| `BitStream.BitReader.Read` | NeuronCore/BitStream.h:88-108 | returns the number the next bits spell, or 0 with a sticky error exactly when they are not there |
| `BitStream.BitReader.ReadChunk` | NeuronCore/BitStream.h:92-106 | one loop turn: the chunk of the current byte extends the number by its bits |
| `BitStream.BitReader.AlignToByte` | NeuronCore/BitStream.h:124-129 | skips to the next byte boundary |
| `BitStream.ChunkWritten` | NeuronCore/BitStream.h:30-42 | one chunk appends its bits and disturbs none: excess high bits fall off a fresh byte |
| `BitStream.ChunkRead` | NeuronCore/BitStream.h:92-106 | shifting a chunk in spells the longer bit string |
| `BitStream.FromToBits` | NeuronCore/BitStream.h:25-108 | bits written and read back are the value masked to its width |
| `BitStream.OpInStream` | NeuronCore/BitStream.h:25-129 | where each field of a script lies in the stream and what it reads as |
| `BitStream.WriteAll` | NeuronCore/BitStream.h:25-58 | the writer produces the script's bit string |
| `BitStream.RoundTrip` | NeuronCore/BitStream.h:25-129 | any fields with flush/align pairs read back masked to their widths, without error |
| `Serde.WriteBuffer.constructor` | NeuronCore/Serde.h:23-27 | a buffer starts with the protocol version |
| `Serde.WriteBuffer.WriteBits` | NeuronCore/Serde.h:29-36 | adds one field to what will be read back |
| `Serde.WriteBuffer.WriteBytes` | NeuronCore/Serde.h:38-44 | aligns, then adds the bytes |
| `Serde.WriteBuffer.Finalise` | NeuronCore/Serde.h:46-50 | the bytes hold exactly the script, padded |
| `Serde.ReadBuffer.constructor` | NeuronCore/Serde.h:64-70 | reads the version first and flags a mismatch |
| `Serde.ReadBuffer.ReadBits` | NeuronCore/Serde.h:72-79 | reads the next field, or 0 once failed |
| `Serde.ReadBuffer.ReadBytes` | NeuronCore/Serde.h:81-87 | aligns, then reads the bytes |
| `Serde.ReadSegment` | NeuronCore/Serde.h:29-87 | a run of fields inside any script is read back by reads of the same widths |
| `Serde.ReadAllOfPrefix` | NeuronCore/Serde.h:72-87 | a read that succeeds on a prefix gives the same on the whole and stays inside the prefix |
| `Serde.SignedPattern` | NeuronCore/Serde.h:34 | a signed number is written as itself modulo 2^64, and read back as itself |
| `Command.EncodeFleetCommand` | NeuronCore/Command.h:53-72 | the bytes are those of `WireBytes`: each field most significant byte first, coordinates in two's complement, the beacon name last |
| `Command.EncodingIsWireBytes` | NeuronCore/Command.h:53-72 | the bit string of the fields, flushes included, is exactly that byte string |
| `Command.DecodeFleetCommand` | NeuronCore/Command.h:74-95 | accepts exactly what the cursor reading accepts: right versions and no field missing |
| `Command.DecodeEncoded` | NeuronCore/Command.h:53-95 | an encoding decodes to its command whatever follows it, and stops at its end; a set flag may be any byte but 0 |
| `Command.DecodedOfPrefix` | NeuronCore/Command.h:74-95 | what decodes from a prefix decodes the same from the whole |
| `Command.TruncatedRejected` | NeuronCore/Command.h:74-95 | an encoding cut at any bit is rejected |
| `Command.FleetCommandRoundTrip` | NeuronCore/Command.h:53-95 | every command with fewer than 65536 units and beacon bytes decodes to itself, and no strict byte prefix of it decodes |
| `Command.DecodesExactly` | NeuronCore/Command.h:74-95 | bytes decode to a command exactly if it fits its counts and they start with its encoding, in which any byte but 0 may stand for a set flag: wrong versions and missing fields are refused |
| `Command.DecodedWasWire` | NeuronCore/Command.h:74-95 | what was taken in as a command is its encoding, to the last byte read |
| `PacketCodec.Put` | NeuronCore/PacketCodec.h:21-33 | appends the little-endian bytes of the number |
| `PacketCodec.Get` | NeuronCore/PacketCodec.h:35-55 | reads the number the little-endian bytes spell |
| `PacketCodec.NumberLittleEndian` | NeuronCore/PacketCodec.h:21-55 | writing then reading masks to the width |
| `PacketCodec.LittleEndianNumber` | NeuronCore/PacketCodec.h:21-55 | reading then writing gives the bytes back |
| `PacketCodec.ByteOfNumber` | NeuronCore/PacketCodec.h:21-33 | byte i written is the i-th least significant one |
| `PacketCodec.WritePacketHeader` | NeuronCore/PacketCodec.h:60-65 | appends the 20 header bytes |
| `PacketCodec.ReadPacketHeader` | NeuronCore/PacketCodec.h:68-76 | reads the header exactly when 20 bytes are there |
| `PacketCodec.HeaderRoundTrip` | NeuronCore/PacketCodec.h:60-76 | any datagram that starts with a written header reads it back |
| `PacketCodec.HeaderLayout` | NeuronCore/PacketCodec.h:60-65 | where each byte of protocol id, token and packet number lies |
| `PacketCodec.PeekConnectionToken` | NeuronCore/ConnectionTable.h:42-50 | peeks the token of an encrypted datagram that is long enough |
| `PacketCodec.PeekSealed` | NeuronCore/ConnectionTable.h:42-50 | the peeked token is the one in the header |
| `PacketCodec.PeekedExactly` | NeuronCore/ConnectionTable.h:42-50 | a token is seen in every encrypted datagram of at least 13 bytes and in no other, and its bytes are those after the protocol id |
| `PacketCodec.WriteMessage` | NeuronCore/PacketCodec.h:82-89 | appends one frame |
| `PacketCodec.FrameLayout` | NeuronCore/PacketCodec.h:82-89 | a frame is channel, type, length low byte first, and body |
| `PacketCodec.ParsedIffFramed` | NeuronCore/PacketCodec.h:82-115 | parsing yields these messages exactly when the payload is their frames in order |
| `PacketCodec.ReadMessages` | NeuronCore/PacketCodec.h:99-115 | accepts exactly the concatenations of frames; re-encoding the messages gives the payload |
| `PacketCodec.FramingIsUnique` | NeuronCore/PacketCodec.h:82-115 | a payload has only one reading |
| `Outboxes.EconomyState.Apply` | NeuronCore/Outbox.h:63-75 | applies an event exactly if it is above the watermark, its key is new and no failure is injected; then its account alone moves by its amount, and the entry shows the new balance; otherwise nothing changes |
| `Outboxes.EconomyState.Enter` | NeuronCore/Outbox.h:69-73 | moves one account's balance and writes the entry that shows it |
| `Outboxes.EconomyState.Balance` | NeuronCore/Outbox.h:77-81 | each balance is the sum of the deltas applied to the account |
| `Outboxes.EconomyState.DropWatermarkOnly` | NeuronCore/Outbox.h:89 | loses the watermark and nothing durable |
| `Outboxes.Outbox.Append` | NeuronCore/Outbox.h:107-113 | the event gets the next number at the end of the log |
| `Outboxes.Outbox.PendingCount` | NeuronCore/Outbox.h:119-124 | counts the events past the watermark |
| `Outboxes.Outbox.Offer` | NeuronCore/Outbox.h:129-146 | a drain or replay, interrupted anywhere: applied are the first events per key of what was covered and what was offered |
| `Outboxes.Outbox.Drain` | NeuronCore/Outbox.h:129-135 | brings the ledger up to the whole log when no confirm ran ahead, and says what is applied when one did |
| `Outboxes.Outbox.ReplayAll` | NeuronCore/Outbox.h:139-145 | brings it up to the whole log and applies nothing when it already was |
| `Outboxes.Outbox.ConfirmDrained` | NeuronCore/Outbox.h:149-152 | the watermark only grows |
| `Outboxes.FirstPerKeyIsExact` | NeuronCore/Outbox.h:63-75 | the selection holds every key of the log once, and only events of the log |
| `Outboxes.LedgerEntries` | NeuronCore/Outbox.h:63-75 | entry i carries event i and its account's running balance |
| `Outboxes.AppliedOneMore` | NeuronCore/Outbox.h:63-75 | one more event adds one entry, one key and one account's delta |
| `Outboxes.OfferedEvent` | NeuronCore/Outbox.h:129-146 | an offered event extends the selection exactly if its key is new |
| `Outboxes.DrainIsExact` | NeuronCore/Outbox.h:129-152 | for any watermark, past the end of the log included: a drain is right if and only if every event skipped unapplied repeats an applied key |
| `Outboxes.Execute` | NeuronCore/Outbox.h:55-161 | exactly once, over every run of append, drain, interrupted drain, replay, confirm and watermark-losing crash |
| `Outboxes.ConfirmAheadLosesEvent` | NeuronCore/Outbox.h:129-152 | a concrete run where confirming ahead loses an event, even for a full replay |
| `Outboxes.LostUntilWatermarkDropped` | NeuronCore/Outbox.h:63-89 | the lost event is refused until the in-memory watermark is dropped, and then applied out of order |
| `EconomyOutbox.XorshiftInjective` | NeuronCore/EconomyOutbox.h:58-61 | a right xorshift is injective on 64 bits |
| `EconomyOutbox.Mul64Injective` | NeuronCore/EconomyOutbox.h:56-61 | multiplying by each of the odd constants modulo 2^64 is injective |
| `EconomyOutbox.KeyDeterminesSeed` | NeuronCore/EconomyOutbox.h:54-62 | the mixer loses nothing |
| `EconomyOutbox.SeedTop` | NeuronCore/EconomyOutbox.h:54-62 | the top 11 bits of a seed tell the four event families apart |
| `EconomyOutbox.KeyCollision` | NeuronCore/EconomyOutbox.h:54-62 | keys are equal exactly when family and (netId << 21) ^ tick are |
| `EconomyOutbox.KeysUniqueBelowTickBound` | NeuronCore/EconomyOutbox.h:54-62 | below tick 2^21 keys are equal only for the same event |
| `EconomyOutbox.TickBoundIsTight` | NeuronCore/EconomyOutbox.h:54-62 | at tick 2^21 every even net id collides with its neighbour |
| `EconomyOutbox.RecordsDedupeExactly` | NeuronCore/EconomyOutbox.h:67-103 | outbox records of known events share a key exactly if they are the same event of the same kind |
| `EconomyOutbox.MoneyMoved` | NeuronCore/EconomyOutbox.h:67-103 | a drop moves no money, a claim and a bounty pay the value out, and lost cargo takes exactly that back |
| `EconomyOutbox.EntriesAreToldApart` | NeuronCore/EconomyOutbox.h:67-103 | an entry is about the entity given; kind and reason tell the four events apart, and a drop and its claim share their reference type |
| `EconomyOutbox.TokenInjective` | NeuronCore/ServerHost.h:661-667 | different counters give different tokens |
| `EconomyOutbox.TokensDoNotRepeat` | NeuronCore/ServerHost.h:661-667 | tokens of calls fewer than 2^64 apart differ |
| `Ecs.HandleRoundTrip` | NeuronCore/Ecs.h:31-42 | a packed handle fits 32 bits, is generation * 2^20 + index, and gives both back |
| `Ecs.NullHandle` | NeuronCore/Ecs.h:33-43 | the null handle names slot 0, and no handle to another slot is null |
| `Ecs.SwapRemoved` | NeuronCore/Ecs.h:99-118 | swap-remove takes out one entity and leaves every other value as it was |
| `Ecs.ComponentStorage.EnsureSparse` | NeuronCore/Ecs.h:84-88 | makes room without changing the map |
| `Ecs.ComponentStorage.Insert` | NeuronCore/Ecs.h:90-97 | adds a default component for one entity |
| `Ecs.ComponentStorage.Remove` | NeuronCore/Ecs.h:99-118 | removes one entity from the map, and reports the entity that moved into the hole if another did |
| `Ecs.ComponentStorage.Get` | NeuronCore/Ecs.h:120-125 | looks the map up |
| `Ecs.ComponentStorage.Set` | NeuronCore/Ecs.h:127-131 | a write changes one entity's value |
| `Ecs.World.RegisterComponent` | NeuronCore/Ecs.h:172-179 | adds an empty storage |
| `Ecs.World.CreateEntity` | NeuronCore/Ecs.h:183-199 | the new handle is alive, its slot is the last freed or a new one and owns nothing, and no other slot changes |
| `Ecs.World.DestroyEntity` | NeuronCore/Ecs.h:201-216 | a live handle dies, its components go and no others; a dead handle changes nothing |
| `Ecs.World.RemoveAll` | NeuronCore/Ecs.h:204-210 | the mask loop empties exactly this slot in every storage |
| `Ecs.World.AddComponent` | NeuronCore/Ecs.h:227-239 | adds one component to one entity |
| `Ecs.World.RemoveComponent` | NeuronCore/Ecs.h:241-250 | removes one component from one entity |
| `Ecs.World.GetComponent` | NeuronCore/Ecs.h:252-259 | finds exactly the components of live entities |
| `Ecs.World.HasComponent` | NeuronCore/Ecs.h:261-267 | the mask test agrees with looking into the storage |
| `Ecs.World.EntityCount` | NeuronCore/Ecs.h:304-307 | counts the live slots |
| `Ecs.World.HandleLiveness` | NeuronCore/Ecs.h:201-224 | an old handle is alive exactly if its slot is and a multiple of 4096 deaths have passed; never within fewer |
| `Ecs.ReuseKeepsSlots` | NeuronCore/Ecs.h:186-198 | recycling keeps the free list exactly the dead slots |
| `Ecs.RetireKeepsSlots` | NeuronCore/Ecs.h:211-215 | retiring keeps it, and counts the death in the generation |
| `Interest.CollectNeighbourhood` | NeuronCore/Interest.h:39-47 | appends exactly the cube of cells around the centre |
| `Interest.LowerBound` | NeuronCore/Interest.h:237-246 | the position where a number is or belongs |
| `Interest.SortedInsert` | NeuronCore/Interest.h:237-241 | adds one number and stays sorted |
| `Interest.SortedErase` | NeuronCore/Interest.h:242-246 | takes one number out and stays sorted |
| `Interest.SortedUnique` | NeuronCore/Interest.h:237-246 | a set has only one sorted list, so the lists are determined by the maps |
| `Interest.InterestGrid.UpdateResidency` | NeuronCore/Interest.h:85-105 | re-homes one entity and reports the crossing exactly |
| `Interest.InterestGrid.Remove` | NeuronCore/Interest.h:107-113 | forgets one entity |
| `Interest.InterestGrid.Residents` | NeuronCore/Interest.h:123-127 | the sorted list of exactly the entities mapped to the cell |
| `Interest.InterestGrid.Subscribe` | NeuronCore/Interest.h:133-138 | adds one cell to one player and tells whether it was new |
| `Interest.InterestGrid.Unsubscribe` | NeuronCore/Interest.h:140-146 | takes one cell from one player and tells whether it was there |
| `Interest.InterestGrid.Subscribers` | NeuronCore/Interest.h:154-158 | the sorted list of exactly the players subscribed to the cell |
| `Interest.InterestGrid.PreSubscribe` | NeuronCore/Interest.h:163-172 | pins and subscribes exactly the neighbourhood, for this player only |
| `Interest.InterestGrid.SetSubscription` | NeuronCore/Interest.h:178-190 | the new set is exactly the given cells and the uncovered pins; covered pins go; the delta lists each entered and left cell once |
| `Interest.InterestGrid.ApplyTarget` | NeuronCore/Interest.h:271-291 | moves the set to the target with an exact delta |
| `Interest.InterestGrid.RemovePlayer` | NeuronCore/Interest.h:200-209 | forgets one player and its pins |
| `Interest.InterestGrid.VisibleTo` | NeuronCore/Interest.h:213-223 | sorted and without repeats, exactly the entities living in a subscribed cell |
| `Interest.InterestGrid.AddResident` | NeuronCore/Interest.h:248 | one cell gains a resident |
| `Interest.InterestGrid.RemoveResident` | NeuronCore/Interest.h:249-255 | one cell loses a resident and is pruned when empty |
| `Interest.InterestGrid.AddSubscriber` | NeuronCore/Interest.h:256 | one cell gains a subscriber |
| `Interest.InterestGrid.RemoveSubscriber` | NeuronCore/Interest.h:257-263 | one cell loses a subscriber and is pruned when empty |
| `Interest.InterestGrid.CellExists` | NeuronCore/Interest.h:264-268 | a cell is stored exactly if somebody lives in it or watches it |
| `UniverseInterest.AxisCells` | NeuronCore/Interest.h:51-57 | an axis gap of at most r crosses at most the radius in cells |
| `UniverseInterest.RadiusIsLeast` | NeuronCore/Interest.h:51-57 | the radius is the least number of whole cells that spans a positive range, and 0 otherwise |
| `UniverseInterest.CellHoldsPosition` | NeuronCore/UniversePos.h:62-65 | a position lies in its cell, at negative coordinates too |
| `UniverseInterest.CoveredIsWithinReach` | NeuronCore/Interest.h:39-57 | whatever lies in a covered cell is less than the range and two cells away from the sensor on every axis |
| `UniverseInterest.DetectedIsNear` | NeuronCore/Economy.h:105-109 | whatever a sensor detects lies in its neighbourhood of cells |
| `UniverseInterest.Rehome` | NeuronCore/ServerUniverse.h:838-840 | every listed entity is filed under the cell of its position, and no other entity moves |
| `UniverseInterest.CollectPerPlayer` | NeuronCore/ServerUniverse.h:842-848 | each player's list holds exactly the cells its sensors cover |
| `UniverseInterest.SubscribeAll` | NeuronCore/ServerUniverse.h:849-850 | every listed player is subscribed to exactly its cells and its pins, and no other player changes |
| `UniverseInterest.UpdateInterest` | NeuronCore/ServerUniverse.h:836-850 | after the refresh a player with a sensor is subscribed to exactly the cells its sensors cover and its pins, sees every entity that one of them detects, and outside its pins only what is within range and two cells of one of them; a player without a sensor keeps its cells and sees exactly what lives there |
| `Baseline.ReplicationStamps.Stamp` | NeuronCore/Interest.h:334-346 | the version grows by one exactly when the fields changed |
| `Baseline.ReplicationStamps.Remove` | NeuronCore/Interest.h:354 | forgets one entity |
| `Baseline.ClientBaseline.RecordSent` | NeuronCore/Interest.h:390-395 | keeps a non-empty record and, beyond 64, forgets only the oldest |
| `Baseline.ClientBaseline.Ack` | NeuronCore/Interest.h:400-416 | raises the baseline to the highest version in any pending snapshot up to the tick, and clears the tombstones dated up to it |
| `Baseline.ClientBaseline.FoldPending` | NeuronCore/Interest.h:402-409 | folds those snapshots and forgets them |
| `Baseline.ClientBaseline.FoldOne` | NeuronCore/Interest.h:403-407 | one snapshot raises, never lowers |
| `Baseline.ClientBaseline.ClearTombstones` | NeuronCore/Interest.h:410-415 | clears exactly the tombstones dated up to the tick |
| `Baseline.ClientBaseline.CollectAcked` | NeuronCore/Interest.h:425-430 | the acknowledged entities, sorted |
| `Baseline.ClientBaseline.Tombstone` | NeuronCore/Interest.h:442-446 | queues a removal once and drops the acked version |
| `Baseline.ClientBaseline.Untombstone` | NeuronCore/Interest.h:450 | cancels a removal |
| `Baseline.ClientBaseline.CollectTombstones` | NeuronCore/Interest.h:456-461 | the pending removals, sorted |
| `Baseline.ClientBaseline.RecordTombstonesSent` | NeuronCore/Interest.h:464-470 | a removal not yet carried gets this tick, and one carried before keeps the tick it has |
| `Baseline.FirstCarrierClears` | NeuronCore/Interest.h:464-470 | however many snapshots carry a queued removal, an ack of the first or of any later tick clears it |
| `Baseline.EarlierAckClearsNothing` | NeuronCore/Interest.h:410-415 | an ack before the first carrier leaves it pending |
| `Replication.ClientSession.ChangedFor` | NeuronCore/ServerUniverse.h:647-656 | exactly the interesting entities past the acked baseline, in order |
| `Replication.ClientSession.SentRecord` | NeuronCore/ServerUniverse.h:661-667 | the record of a snapshot lists the current versions |
| `Replication.ClientSession.TombstonesFor` | NeuronCore/ServerUniverse.h:679-702 | afterwards pending removals are disjoint from the interest set and every acked entity is inside it |
| `Replication.ClientSession.QueueDepartures` | NeuronCore/ServerUniverse.h:687-697 | queues exactly the acked entities that left |
| `Replication.Departures` | NeuronCore/ServerUniverse.h:689-697 | the merge of the two sorted lists finds exactly the difference |
| `Replication.ClientSession.CancelReturned` | NeuronCore/ServerUniverse.h:698 | cancels exactly the removals of entities that came back |
| `Replication.ClientSession.SendSnapshot` | NeuronCore/ServerUniverse.h:728-800 | a complete snapshot: what it carries and removes, the record kept, the erased entries, and the tombstones with their dates |
| `Replication.ClientSession.BuildAndRecord` | NeuronCore/ServerUniverse.h:728-800 | the server's side of it: the record of what the client lacks, all pending removals, and the dates of those first carried |
| `Replication.ClientSession.AckArrives` | NeuronCore/ServerUniverse.h:670 | a late or repeated ack: how baseline, records, tombstones and suspects change; a removal it clears was in the acknowledged snapshot |
| `Replication.ClientSession.ReceivedAndHeld` | NeuronCore/Interest.h:400-409 | in every reachable session: an acked version was received, whatever else was lost, exactly if its entity is not suspect, and is held exactly if nothing sent since removed it |
| `Replication.ClientSession.Memory` | NeuronCore/Interest.h:386-395 | in every reachable session, what the client holds and was not forgotten has an entry with the server |
| `Replication.FoldedWasReceivedExactly` | NeuronCore/Interest.h:400-409 | when only acknowledged snapshots arrived, the client received a version folded in if and only if the acknowledged snapshot was built with the entity in view, at that version or later, and not doubting what it left out, or an earlier acknowledged one carried it |
| `Replication.ReceivedWhateverArrived` | NeuronCore/Interest.h:400-409 | an acked version was received under every channel that delivered the acknowledged snapshots exactly if its entity is not suspect |
| `Replication.HeldExactly` | NeuronCore/Interest.h:362-368 | a version is held under every such channel if and only if some acknowledged snapshot carried it and no snapshot sent later removed the entity |
| `Replication.HeldIsLastWord` | NeuronCore/Snapshot.h:386-391 | by the client's rule that the later tick wins, it holds an entity exactly if the last snapshot it got that mentions it carried it |
| `Replication.AckKeepsSuspects` | NeuronCore/Interest.h:400-416 | an ack marks suspect exactly the entities whose acked version no acknowledged snapshot carried |
| `Replication.LeftOutIsBacked` | NeuronCore/ServerUniverse.h:647-656 | what the diff leaves out of the interest set, unless it is suspect, the client received and acknowledged at some time |
| `Replication.SendKeepsMemory` | NeuronCore/ServerUniverse.h:679-709 | a snapshot keeps an entry for every entity the client may hold, except those whose record it pushes out or whose tombstone it cancels without a version to send |
| `Replication.AckKeepsMemory` | NeuronCore/Interest.h:400-416 | an ack drops no entry of an entity the client may hold |
| `Replication.HeldIsRemembered` | NeuronCore/Snapshot.h:386-391 | what the client holds is acked, to be removed or in a pending record, unless it was forgotten |
| `Replication.NewestIsKept` | NeuronCore/Interest.h:390-395 | the bound of 64 never drops the newest record |
| `Replication.SendKeepsSuspects` | NeuronCore/ServerUniverse.h:689-697 | erasing the entries of departed entities ends their suspicion |
| `Replication.SteadyAck` | NeuronCore/Interest.h:400-409 | with one interest set and growing versions an ack leaves nothing suspect |
| `Replication.Replicate` | NeuronCore/ServerUniverse.h:640-709 | over every run: exactly which acked versions the client received and which it holds, whatever was lost; with a fixed interest set and growing versions it holds all; and every held entity not forgotten has an entry |
| `Replication.AckEndsTombstone` | NeuronCore/Interest.h:408-415 | over every run, with the pending removals after each event written down: a removal has the tick of the snapshot it was queued for as long as it is pending, and the ack of that snapshot or of a later one ends it |
| `Replication.AckedIsNotResent` | NeuronCore/ServerUniverse.h:643-656 | after the ack of a snapshot the next diff for the same interest set is empty |
| `Replication.UnackedIsResent` | NeuronCore/ServerUniverse.h:643-656 | without an ack the next snapshot for the same interest set carries all of it again |
| `ReplicationRuns.LossFoldedInAfterLeaving` | NeuronCore/Interest.h:400-409 | a run of the session: snapshot 1 with entity 7 is lost, 7 leaves, snapshot 2 is acknowledged; 7 is acked though never received, and snapshot 3, with 7 back in view, leaves it out |
| `ReplicationRuns.RemovedThenFoldedIn` | NeuronCore/Interest.h:362-368 | a run with nothing lost: 7 is removed by snapshot 3, a late ack of snapshot 2 acks it again, and snapshot 4, with 7 back in view, neither carries nor removes it; nothing is suspect |
| `ReplicationRuns.RecordPushedOut` | NeuronCore/Interest.h:386-395 | a run in which the client holds 7 and the server has no entry for it: 7 left before it was acked, and 64 later records pushed its own out |
| `Starmap.SolveBeaconRoute` | NeuronClient/Starmap.h:25-56 | non-empty exactly if both names are known and a chain of links connects them; then a shortest such chain, and among these the one taking the earlier link wherever another parts from it |
| `Starmap.Expand` | NeuronClient/Starmap.h:37-54 | expanding one name keeps the search sound, or finds the destination at its distance |
| `Starmap.Reconstruct` | NeuronClient/Starmap.h:46-51 | the predecessors give the path along which the destination was found |
| `Starmap.PathsAreNotShorter` | NeuronClient/Starmap.h:33-54 | no path is shorter than the search believes |
| `Starmap.VisitKeeps` | NeuronClient/Starmap.h:41-53 | visiting a neighbour keeps the queue ordered by distance |
| `Starmap.ExpandedKeeps` | NeuronClient/Starmap.h:35-40 | finishing a name keeps its neighbours within one hop |
| `Starmap.FrontPathIsFirst` | NeuronClient/Starmap.h:35-53 | among the shortest paths to a name met now, the one through the front of the queue takes the earliest links |
| `Starmap.MetLast` | NeuronClient/Starmap.h:35-53 | names are met in the order of their paths: shorter first, then by links |
| `Starmap.WalkIsTreePath` | NeuronClient/Starmap.h:46-51 | walking the predecessors back gives exactly the path along which the search came |
| `Starmap.ReachableBeacons` | NeuronClient/Starmap.h:60-76 | exactly the known names that links lead to from a known source |
| `Starmap.RouteStaysReached` | NeuronClient/Starmap.h:60-76 | a set closed under links contains the end of every path that starts in it |
| `Starmap.RouteAgreesWithReachable` | NeuronClient/Starmap.h:25-76 | a route exists exactly to the reachable names |
| `Combat.ApplyTypedDamage` | NeuronCore/Combat.h:61-92 | each layer ends at what the thresholds say, and the outcome is the innermost layer broken |
| `Combat.LayerStep` | NeuronCore/Combat.h:75-90 | one turn of the loop in terms of the thresholds |
| `Combat.RoundIsNearest` | NeuronCore/Combat.h:80 | hit points are rounded to the nearest integer, a tie away from zero |
| `Combat.ResistanceReduces` | NeuronCore/Combat.h:77-83 | a blow that does not break the outermost layer takes the share 1 - resistance of it, rounded |
| `Combat.OutcomeIsInnermost` | NeuronCore/Combat.h:74-91 | the outcome is the outermost broken layer exactly if no other breaks, and otherwise one further in |
| `Combat.TwoLayersBreak` | NeuronCore/Combat.h:74-91 | a concrete blow that breaks shield and armour and is reported as armour |
| `Combat.OutsideIn` | NeuronCore/Combat.h:61-92 | no inner layer changes while an outer one stands |
| `Combat.NoLayerRises` | NeuronCore/Combat.h:78-83 | no layer rises or turns negative while resistances are at most 1 |
| `Combat.LayerRisesExactly` | NeuronCore/Combat.h:78-83 | a standing layer rises exactly if the blow reaches it and its resistance turns the rest of the blow into half a hit point or more of repair |
| `Combat.KilledMeansAllDown` | NeuronCore/Combat.h:61-92 | after a kill no layer stands |
| `Combat.HullEmptyWithoutKill` | NeuronCore/Combat.h:80-83 | a standing hull is emptied without a kill exactly when the blow ends at most half a hit point short |
| `Combat.ConservedUpTo` | NeuronCore/Combat.h:61-92 | a blow takes all of the first layers or is spent in them up to rounding |
| `Combat.DamageConserved` | NeuronCore/Combat.h:61-92 | a blow that does not kill a standing hull equals the losses over the multipliers, up to half a hit point of the last layer reached |

## Left out

Hypotheses and abstractions of what is modelled:

- Replicate: assumes complete snapshots (everything changed, every pending tombstone), not ones cut by the byte budget or the visible cap, nor ones that drop a changed entity because its delta mask is 0 (`NeuronCore/ServerUniverse.h:766`).
- HeldExactly: the client's side is its rule that for each entity the record with the later tick wins (`NeuronCore/Snapshot.h:386-391`); the fields of a record and the client's own decoding are left out.
- ReliableDelivery: assumes the two distance bounds on deliveries and acks; `Reliability.VerdictIsRightExactly` and `Reliability.JumpTooFarRefusesLater` say what happens beyond the bounds on deliveries.
- SecureDelivery: covers one direction under one key and fewer than 2^64 datagrams; re-keying is not modelled.
- KeyAgreement: the network loses, repeats, reorders and damages messages but does not forge them; `Handshake.SignedKeyAgreement` is what remains when it does. Progress of the handshake is not claimed, since a late repeated cookie can put the cookie response back as the client's pending message after the server stopped resending.
- HandshakeClient.OnMessage: clock times, clock offset and the dilation factor are left out; that a clock sync response reached the client is kept.
- ClientConnection.OnDatagram: encrypted datagrams and the login that follows channel creation are left out; the states they lead to are reached by separate events.
- ServerConnection.OnDatagram: encrypted datagrams are left out in the same way.
- ServerHost.DispatchToConnection: a connection's inner handling of a datagram is an oracle that gives its next state and the logins inside; replies and gameplay commands are left out.
- ServerHost.OpenConnection: the handshake reply it queues is left out (`Handshake` has it).
- ServerHost.OnDatagram: replies and the issuing of cookies are left out (`Handshake` has them).
- ServerHost.OnAuthMessage: the account store is an oracle that answers each login, and the universe one that gives the net id of a base.
- Execute: a confirm is taken only up to what was drained; `Outboxes.DrainIsExact` treats the other case.
- EconomyState.Apply: amounts and balances are unbounded integers, so 64-bit overflow is not modelled.
- ReplicationStamps.Stamp: versions and ticks are unbounded; wrap-around at 2^32 is not modelled.
- UpdateInterest: positions are unbounded integers, ranges and distances real numbers, and of `UniversePos.h` only the sector lookup is modelled, as floor division by 16384 on each axis.
- InterestGrid.VisibleTo: builds the sorted list by repeated insertion where the code sorts once and drops repeats.
- InterestGrid.UpdateResidency: unordered containers are maps and sets walked in any order.
- ApplyTypedDamage: real numbers stand for floats and unbounded integers for 32-bit hit points; the three layers are an array, and only the resistances of one damage type are passed.
- ReliableSender.UpdateRtt: real numbers stand for doubles.
- World.AddComponent: all component types share one value type, and the reference the code hands out is a separate write.
- WriteBuffer.WriteRecord: stands for typed writes one after the other, and `Serde.ReadBuffer.ReadRecord` for the reads; a float is its 32-bit pattern.
- SolveBeaconRoute: the beacon table is a map from name to links, so a repeated name is not modelled; `UniverseData.h` is not part of this model.

Not modelled at all:

- Real cryptography, sockets, threads, databases, devices and user interface.
- Snapshot scheduling, priorities, delta bases and the wire form of snapshots.
- Always-known contacts that callers overlay on the interest set.
- `World.ForEach`, connection lanes, session tokens, disconnect reasons, keepalives and telemetry: they add only easy members.
- Falloff, tracking, regeneration, repair and electronic warfare: single expressions.
- Onboarding, picking, camera, control groups, configuration loaders and the JSON reader.
