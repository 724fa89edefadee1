# Voice handler of the web client: codec pools, packet framing, negotiation cache

This project models the core of the web client's voice connection,
`web/js/voice/VoiceHandler.ts`.

- **Codec pools** (`codec.CodecPool`): one pool per codec type. A pool leases
  codec instances to clients (`ownCodec`) and takes them back (`releaseCodec`).
  At start-up it probes its codec with a sentinel client (`initialize`) and
  disables itself when the probe fails.
- **Outbound voice**: encoded frames are queued (`handleEncodedVoicePacket`).
  A 20 ms tick takes the oldest frame (`send_next_voice_packet`) and frames it
  into a data-channel packet (`send_voice_packet`). The packet has a head flag,
  a wrapping 16-bit packet id and the codec byte.
- **Inbound voice**: `on_data_channel_message` splits the header from the
  payload and routes the payload. It goes to the speaking client's decoder, or
  an empty payload releases that client's codec entry.
- **Negotiation state**: the remote candidate cache of `handleControlPacket`,
  its reset by `drop_rtp_session`, the restart by `start_rtc_session`, and the
  forwarding of local candidates by `on_local_ice_candidate`.
- **Client registry**: `register_client`, `find_client` and `unregister_client`.

The model's files follow the source:

- `codec.dfy` has the pool as a class. Its methods are proved against the pure
  functions `OwnCodecSpec` and `Released`.
- `codec_lemmas.dfy` holds what a lease and a release promise.
- `framing.dfy` holds the packet layout, the send counters and the FIFO drain
  of the queue.
- `negotiation.dfy` holds the candidate cache and the control messages.
- `registry.dfy` holds the client list.
- `voice_connection.dfy` has the session as a class. Its methods are proved
  against the functions of the other modules.

`VoiceConnection.codecSupported` is the predicate `Codec.CodecSupportedIn`.

Several things the source does not decide itself become method inputs:

- the clock (`now`);
- the outcome of a codec's initialisation (`initOk`);
- whether the audio player is ready;
- whether the browser accepted a remote description;
- the mute and connection state of the client.

Browser objects are reduced to what the handler observes of them:

- the peer connection and the data channel become whether they exist;
- the packets written to the data channel become a list;
- the candidates given to `addIceCandidate` become a list;
- the messages sent to the server become a list.

An entry's codec instance is identified by the entry's index, since the pool
never moves an entry.

The code behaves as follows in four places where one might expect otherwise,
and the model does the same:

- A pool never refuses a lease for capacity. `maxInstances` (2) is declared
  and never read, and a third client gets a third entry.
- Tearing a session down does not reset the packet counters.
- Registering the same client id twice keeps both controllers.
  `find_client` returns the first of them.
- Local candidates are never cached. Only remote ones are.

## Model

| member | source | states |
|---|---|---|
| Codec.CodecPool.constructor | web/js/voice/VoiceHandler.ts:120-126 | a new pool is empty, declares 2 instances, and is supported exactly when its type is defined and is Opus Voice or Opus Music (`codec_supported`, lines 27-29) |
| Codec.CodecPool.OwnCodec | web/js/voice/VoiceHandler.ts:63-113 | the entries after the lease and the outcome are those of `OwnCodecSpec`, including the recursive re-lease after an instance is initialised; the unique-owner invariant is kept |
| Codec.CodecPool.ReleaseCodec | web/js/voice/VoiceHandler.ts:115-118 | every entry owned by the client gets owner 0, and nothing else changes |
| Codec.CodecSupported | web/js/voice/VoiceHandler.ts:27-29 | exactly Opus Voice and Opus Music are supported; the pool constructor's contract states it through this predicate |
| Codec.CodecPool.Supported | web/js/voice/VoiceHandler.ts:61 | the pool's support flag; `CodecSupportedExactlyWhenLeasable` ties it to leases not being refused |
| Codec.CodecSupportedIn | web/js/voice/VoiceHandler.ts:152-154 | a pool exists at the codec index and is supported; `CodecSupportedExactlyWhenLeasable` is its contract |
| CodecLemmas.CodecSupportedExactlyWhenLeasable | web/js/voice/VoiceHandler.ts:152-154 | `codecSupported(t)` holds if and only if pool `t` exists and a lease from it is not refused as unsupported (lines 65-68) |
| Codec.CodecPool.Initialize | web/js/voice/VoiceHandler.ts:41-59 | the probe leases to client 0xFFEF; if it is granted, the sentinel's entry is released; if it is rejected, the pool is disabled and the sentinel's entry stays as it was |
| Codec.FirstOwnedFrom | web/js/voice/VoiceHandler.ts:70-72 | returns the first index at or after `from` whose owner is the client, or nothing if no such index exists |
| Codec.LastFree | web/js/voice/VoiceHandler.ts:70-89 | the `free_slot` of the scan: the last entry with owner 0, or 0 when there is none; no later entry is free |
| Codec.Released | web/js/voice/VoiceHandler.ts:115-118 | same length; the client's entries are freed, and every other entry is unchanged |
| Codec.LeasePreservesUniqueOwners | web/js/voice/VoiceHandler.ts:70-111 | a lease never gives one client two entries |
| Codec.ReleasePreservesUniqueOwners | web/js/voice/VoiceHandler.ts:115-118 | a release never gives one client two entries |
| CodecLemmas.UnsupportedExactlyWhenDisabled | web/js/voice/VoiceHandler.ts:65-68 | the lease is rejected as unsupported if and only if the pool is disabled, and then the entries are untouched |
| CodecLemmas.LeaseReusesOwnedEntry | web/js/voice/VoiceHandler.ts:71-83 | a client that owns an entry gets that entry's instance, or the error of its failed initialisation; no owner and no callback changes |
| CodecLemmas.LeasedEntryIsReady | web/js/voice/VoiceHandler.ts:71-111 | a granted lease points to an initialised entry that is the client's first entry |
| CodecLemmas.LeaseTwiceSameInstance | web/js/voice/VoiceHandler.ts:71-83 | leasing again without a release returns the same instance and adds no entry |
| CodecLemmas.ProbeModeNeverClaims | web/js/voice/VoiceHandler.ts:91-94 | with `create` false, a client that owns no entry gets no instance, and no owner ever changes |
| CodecLemmas.LeaseClaimsLastFreeEntry | web/js/voice/VoiceHandler.ts:96-111 | the last free entry above index 0 is claimed in place; an initialised instance there is reset and returned at once, an uninitialised one is initialised first |
| CodecLemmas.LeaseAppendsEntry | web/js/voice/VoiceHandler.ts:96-102 | with no free entry above index 0, exactly one entry owned by the client is appended, and the old entries are kept |
| CodecLemmas.FreeEntryAtIndexZeroNotReused | web/js/voice/VoiceHandler.ts:70-102 | in any pool whose entry 0 is free, a lease by a non-zero client never returns entry 0 and leaves it unchanged, because `free_slot` 0 also means "no free entry": a later entry is claimed or the pool grows |
| CodecLemmas.FullPoolGrows | web/js/voice/VoiceHandler.ts:96-111 | when every entry belongs to another client, a lease appends one entry owned by the new client, keeps the old entries, and returns the new instance |
| CodecLemmas.ThreeLeasesExceedDeclaredCapacity | web/js/voice/VoiceHandler.ts:37 | three clients leasing from an empty pool get three entries, more than the declared `maxInstances` of 2 |
| CodecLemmas.ReleaseFreesExactlyOwned | web/js/voice/VoiceHandler.ts:115-118 | after a release the client owns nothing; an entry is free exactly when it was the client's or was already free; instances are untouched |
| CodecLemmas.ReleaseThenLeaseReusesWarmEntry | web/js/voice/VoiceHandler.ts:96-118 | on a pool of initialised instances, release followed by lease reuses an existing instance: a free entry at or above the released one is reset, and nothing is appended |
| CodecLemmas.ProbeReleasesSentinel | web/js/voice/VoiceHandler.ts:41-47 | a granted probe leaves no entry owned by the sentinel once it is released |
| CodecLemmas.ProbeFailureKeepsSentinelEntry | web/js/voice/VoiceHandler.ts:48-58 | a probe whose initialisation fails on an empty pool leaves an uninitialised entry owned by the sentinel |
| Framing.NextPacketId | web/js/voice/VoiceHandler.ts:344-346 | the packet id stays in 0..65535 and is the old id plus one, modulo 65536 |
| Framing.BuildPacket | web/js/voice/VoiceHandler.ts:348-354 | a packet is five header bytes followed by the unchanged payload |
| Framing.ParseHeader | web/js/voice/VoiceHandler.ts:520-523 | the client id is bytes 2-3 as a 16-bit value; the codec is byte 4, present exactly when the packet has at least five bytes; the payload is everything from byte 5 on |
| Framing.BuiltPacketLayout | web/js/voice/VoiceHandler.ts:348-354 | the head flag, fragment flag 0, the big-endian id and the codec modulo 256 are where the receiver reads them |
| Framing.ParseThenBuild | web/js/voice/VoiceHandler.ts:520-541 | every packet of at least five bytes whose first flag byte is 0 or 1 and whose second is 0 is rebuilt exactly from the fields the receiver parses |
| Framing.Drain | web/js/voice/VoiceHandler.ts:335-340 | n ticks with the channel open send exactly n packets, and the counters stay valid |
| Framing.DrainAdvancesCounters | web/js/voice/VoiceHandler.ts:342-349 | n packets advance the id by n modulo 65536 and the burst counter by n |
| Framing.DrainSendsInQueueOrder | web/js/voice/VoiceHandler.ts:330-354 | the queue is first in, first out: the k-th tick sends the k-th frame, with id `start + k + 1` modulo 65536, and with the head flag set while the burst counter is below 5 |
| Framing.PacketIdWrapsAfter65536 | web/js/voice/VoiceHandler.ts:344-346 | after any multiple of 65536 packets the id is back to its starting value |
| Framing.HeadFlagOnFirstFivePackets | web/js/voice/VoiceHandler.ts:349 | after the burst counter is reset, exactly the first five packets carry the head flag |
| Negotiation.CandidatesKeepArrivalOrder | web/js/voice/VoiceHandler.ts:436-462 | no remote candidate is lost, duplicated or reordered: applied followed by cached is exactly what arrived |
| Negotiation.CachedUntilAnswer | web/js/voice/VoiceHandler.ts:452-461 | until an answer is applied, candidates are only cached, in arrival order |
| Negotiation.AppliedOnceAnswered | web/js/voice/VoiceHandler.ts:438-461 | once an answer is applied, the cache is empty and off, and every candidate has been applied in arrival order |
| Negotiation.AppliedAfterAccept | web/js/voice/VoiceHandler.ts:442-456 | with caching off, later candidates are applied at once and the cache stays empty |
| Negotiation.OnControlKeepsInvariant | web/js/voice/VoiceHandler.ts:417-476 | every control message keeps two facts: caching is off only while a peer connection exists, and an empty cache while off; so a remote candidate is never dropped by the throwing branch |
| Negotiation.ReconnectRestartsWithEmptyCache | web/js/voice/VoiceHandler.ts:463-474 | a failure that allows reconnecting restarts the session with a connection, a channel, and an empty active cache |
| Registry.IndexOf | web/js/voice/VoiceHandler.ts:637-643 | returns -1 exactly when the controller is absent, otherwise its first position |
| Registry.RemoveFirst | web/js/voice/VoiceHandler.ts:637-643 | an absent controller leaves the list as it is; a present one shortens it by one |
| Registry.RemoveFirstTakesOneOccurrence | web/js/voice/VoiceHandler.ts:637-643 | exactly one occurrence of the controller is removed |
| Registry.RemoveFirstOfDistinct | web/js/voice/VoiceHandler.ts:637-643 | in a list without repeats, the removed controller is gone and no repeats appear |
| Registry.RemoveFirstKeepsOthers | web/js/voice/VoiceHandler.ts:637-643 | every other controller stays registered |
| Voice.SentPacketIsRouted | web/js/voice/VoiceHandler.ts:516-555 | a packet built by `send_voice_packet`, whose id field names a known client, reaches that client with the sent codec and payload; an empty payload releases instead of decoding |
| Voice.OnlyFullPacketsReachPools | web/js/voice/VoiceHandler.ts:516-555 | a release needs exactly the five header bytes, and a decode needs payload bytes; both use bytes 2-3 as a known client and byte 4 as an existing pool; shorter packets reach no pool |
| Voice.VoiceConnection.constructor | web/js/voice/VoiceHandler.ts:155-169 | a new session has no connection, caching on, counters at 0, empty queues, no clients, and encoder codec 5 |
| Voice.VoiceConnection.SendVoicePacket | web/js/voice/VoiceHandler.ts:342-363 | with a data channel: one `SendStep`, so the counters advance and one framed packet is written; without one: nothing changes |
| Voice.VoiceConnection.HandleEncodedVoicePacket | web/js/voice/VoiceHandler.ts:330-333 | the frame is appended to the back of the send queue |
| Voice.VoiceConnection.SendNextVoicePacket | web/js/voice/VoiceHandler.ts:335-340 | an empty queue is a no-op; otherwise the front frame is removed and sent as one step of `Drain`, and it is consumed even without a channel |
| Voice.VoiceConnection.DropRtpSession | web/js/voice/VoiceHandler.ts:417-432 | channel and connection are gone; caching is back on with an empty cache; applied candidates are kept |
| Voice.VoiceConnection.StartRtcSession | web/js/voice/VoiceHandler.ts:366-415 | waits for the audio player; gives up without encoding support; otherwise drops the old session and opens a connection and channel with caching on |
| Voice.VoiceConnection.HandleControlPacket | web/js/voice/VoiceHandler.ts:436-476 | the state moves as `OnControl` says: an applied answer hands over the cache in order (a loop) and stops caching; a remote candidate is cached or applied |
| Voice.VoiceConnection.OnLocalIceCandidate | web/js/voice/VoiceHandler.ts:478-497 | a gathered local candidate is forwarded at once as `ice`, the end of gathering as `ice_finish`, a missing event sends nothing; connection state and the remote candidate cache are unchanged, so local candidates are never cached |
| Voice.VoiceConnection.RegisterClient | web/js/voice/VoiceHandler.ts:645-649 | a fresh controller for the id is appended |
| Voice.VoiceConnection.FindClient | web/js/voice/VoiceHandler.ts:630-635 | returns nothing exactly when no controller has the id, otherwise the first controller with that id |
| Voice.VoiceConnection.UnregisterClient | web/js/voice/VoiceHandler.ts:637-643 | the controller is removed by `RemoveFirst` and is no longer registered |
| Voice.VoiceConnection.OnDataChannelMessage | web/js/voice/VoiceHandler.ts:516-555 | the route is `RouteOf` the packet; a release frees the client in the codec's pool; a decode leases the client's decoder as `OwnCodecSpec` says; every other pool is untouched |
| Voice.VoiceConnection.HandleLocalVoice | web/js/voice/VoiceHandler.ts:557-578 | when connected and not muted, a head frame resets the burst counter; the encoder is leased exactly when the local client is registered and the encoder codec has a pool; other pools are untouched |
| Voice.VoiceConnection.SetEncoderCodec | web/js/voice/VoiceHandler.ts:663-665 | the encoder codec is set to the given value, with no check that a pool exists for it (`HandleLocalVoice` then leases nothing) |
| Voice.VoiceConnection.HandleLocalVoiceEnded | web/js/voice/VoiceHandler.ts:580-593 | when connected and not muted, with a channel and a non-negative encoder codec, one empty packet is sent; otherwise nothing changes |

## Left out

- The WebRTC plumbing is left out: creating offers, `setLocalDescription`, media streams, and the data channel's `onopen` handler. It is browser behaviour. Only whether a connection and a channel exist is modelled.
- The codec instances are left out: decoding, encoding, worker messages, and what `initialise()` and `reset()` do inside. Initialisation is reduced to a success flag, and a reset to a counter.
- `Codec.CodecPool.OwnCodec` models the re-entrant `.then` chain as one atomic call. Interleavings of several pending promises are not modelled.
- The audio graph is left out: recorder acquisition, the native/JavaScript encoder choice, gain nodes, playback buffers, `client.stopAudio()`, settings, logging, error modals, and `destroy()`.
- Time is a plain integer input. Nothing is proved about `last_access`.
- `Voice.VoiceConnection.UnregisterClient` does not model the `instanceof` check, which throws for a foreign client type. Every client in the model is a `VoiceClientController`.
- `Codec.CodecSupportedIn` takes a natural-number codec id. A negative id, where the source reads `undefined` and throws, is not modelled.
- `Registry.RemoveFirst` and `Voice.VoiceConnection.SendNextVoicePacket` follow the usual semantics of the prototype helpers `Array.remove` (splice out the first occurrence) and `pop_front` (shift). The file defining them is not part of this model.
- `Voice.VoiceConnection.OnDataChannelMessage` takes the packet as bytes. Converting the browser's message data to a byte array, including a `Blob` payload, is not modelled.
- `Voice.VoiceConnection.StartRtcSession` is entered with the audio player's readiness as an input. The deferred restart through `aplayer.on_ready` is not modelled.
- `Voice.VoiceConnection.HandleLocalVoice` does not model the throw when the encoder codec names no pool. The model then leases nothing.
- `update_voice_status`, voice status reporting, and the send-task timer are not modelled.
