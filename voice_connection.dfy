/**
 * `VoiceConnection`: one voice session.  It frames outbound voice into
 * packets paced by a send tick, routes inbound packets to the codec pools,
 * keeps the remote candidate cache of the negotiation and the list of known
 * voice clients.
 *
 * The browser objects are reduced to what the handler observes of them: the
 * peer connection and the data channel to whether they exist, the data
 * channel's output to the list of packets written to it, the signalling
 * connection to the list of messages sent, `addIceCandidate` to the list of
 * candidates handed to it.
 */
module Voice {
  import opened Wrappers
  import opened Codec
  import opened Framing
  import opened Negotiation
  import opened Registry

  /** `_encoder_codec` of a new session: the Opus Music pool. */
  const DefaultEncoderCodec: int := 5

  /** What `on_data_channel_message` does with one inbound packet. */
  datatype Route =
    | Muted                                                  // output muted: ignored
    | UnknownClient(clientId: int)                           // no voice client with that id: dropped
    | UnknownCodec(clientId: int)                            // no pool for the codec byte: dropped
    | StopAndRelease(clientId: int, codec: nat)              // empty payload: stop playback, release
    | Decode(clientId: int, codec: nat, payload: seq<byte>)  // lease a decoder and decode

  /**
   * The decision `on_data_channel_message` takes, from the packet, the mute
   * state, the ids of the registered clients and the number of pools.
   */
  function RouteOf(bin: seq<byte>, outputMuted: bool, known: seq<int>, poolCount: nat): Route
  {
    if outputMuted then Muted
    else
      var h := ParseHeader(bin);
      if h.clientId !in known then UnknownClient(h.clientId)
      else if h.codec.None? || h.codec.value as int >= poolCount then UnknownCodec(h.clientId)
      else if |h.payload| == 0 then StopAndRelease(h.clientId, h.codec.value as nat)
      else Decode(h.clientId, h.codec.value as nat, h.payload)
  }

  /**
   * A packet framed by `send_voice_packet` whose id field holds a known
   * client id reaches that client's decoder with the sent codec and payload;
   * an empty payload stops and releases instead of decoding.
   */
  lemma SentPacketIsRouted(head: bool, id: int, codec: nat, payload: seq<byte>, known: seq<int>, poolCount: nat)
    requires 0 <= id <= MaxPacketId && id in known && codec < 256 && codec < poolCount
    ensures RouteOf(BuildPacket(head, id, codec, payload), false, known, poolCount)
         == if payload == [] then StopAndRelease(id, codec) else Decode(id, codec, payload)
  {
    BuiltPacketLayout(head, id, codec, payload);
  }

  /**
   * Only packets with a full header reach a pool: a release needs exactly
   * the five header bytes, a decode needs payload bytes, and both use bytes
   * 2-3 as the client and byte 4 as the codec.
   */
  lemma OnlyFullPacketsReachPools(bin: seq<byte>, outputMuted: bool, known: seq<int>, poolCount: nat)
    ensures var r := RouteOf(bin, outputMuted, known, poolCount);
            && (r.StopAndRelease? ==> |bin| == HeaderSize && r.codec == bin[4] as nat && r.codec < poolCount
                                      && r.clientId == bin[2] as int * 256 + bin[3] as int && r.clientId in known)
            && (r.Decode? ==> |bin| > HeaderSize && r.payload == bin[HeaderSize..] && r.codec == bin[4] as nat
                              && r.codec < poolCount && r.clientId == bin[2] as int * 256 + bin[3] as int
                              && r.clientId in known)
            && (|bin| < HeaderSize ==> !r.StopAndRelease? && !r.Decode?)
  {
  }

  class VoiceConnection {
    var pools: seq<CodecPool>
    var peerConnection: bool
    var dataChannel: bool
    var audioPlayerWaiting: bool
    var voicePacketId: int
    var chunkVPacketId: nat
    var sendQueue: seq<Frame>
    var sent: seq<seq<byte>>
    var iceUseCache: bool
    var iceCache: seq<Candidate>
    var appliedIce: seq<Candidate>
    var signals: seq<Signal>
    var clients: seq<VoiceClientController>
    var encoderCodec: int

    ghost predicate Valid()
      reads this, set p | p in pools
    {
      && ValidCounters(SendCounters())
      && LinkInvariant(LinkView())
      && Distinct(pools)
      && (forall p :: p in pools ==> p.Valid())
      && Distinct(clients)
    }

    /** `voice_packet_id` and `chunkVPacketId`. */
    function SendCounters(): Counters
      reads this
    {
      Counters(voicePacketId, chunkVPacketId)
    }

    /** Connection objects and candidate cache. */
    function LinkView(): Link
      reads this
    {
      Link(audioPlayerWaiting, peerConnection, dataChannel, IceState(iceUseCache, iceCache, appliedIce))
    }

    /** A new session over the process-wide codec pools: no connection yet, caching on, counters at 0. */
    constructor (pools: seq<CodecPool>)
      requires Distinct(pools) && forall p :: p in pools ==> p.Valid()
      ensures Valid() && this.pools == pools
      ensures LinkView() == Link(false, false, false, IceState(true, [], []))
      ensures SendCounters() == Counters(0, 0) && sendQueue == [] && sent == []
      ensures signals == [] && clients == [] && encoderCodec == DefaultEncoderCodec
    {
      this.pools := pools;
      peerConnection, dataChannel, audioPlayerWaiting := false, false, false;
      voicePacketId, chunkVPacketId := 0, 0;
      sendQueue, sent := [], [];
      iceUseCache, iceCache, appliedIce := true, [], [];
      signals, clients := [], [];
      encoderCodec := DefaultEncoderCodec;
    }

    /**
     * `send_voice_packet`: with a data channel, advance the counters and
     * write one framed packet; without one, nothing happens.
     */
    method SendVoicePacket(payload: seq<byte>, codec: int)
      requires Valid()
      modifies this`voicePacketId, this`chunkVPacketId, this`sent
      ensures Valid()
      ensures old(dataChannel) ==>
                var (counters, packet) := SendStep(old(SendCounters()), Frame(payload, codec));
                SendCounters() == counters && sent == old(sent) + [packet]
      ensures !old(dataChannel) ==> SendCounters() == old(SendCounters()) && sent == old(sent)
    {
      if dataChannel {
        voicePacketId := voicePacketId + 1;
        if voicePacketId > MaxPacketId {
          voicePacketId := 0;
        }
        var head := chunkVPacketId < HeadWindow;
        chunkVPacketId := chunkVPacketId + 1;
        sent := sent + [BuildPacket(head, voicePacketId, codec, payload)];
      }
    }

    /** `handleEncodedVoicePacket`: queue an encoded frame for the send tick. */
    method HandleEncodedVoicePacket(data: seq<byte>, codec: int)
      requires Valid()
      modifies this`sendQueue
      ensures Valid()
      ensures sendQueue == old(sendQueue) + [Frame(data, codec)]
    {
      sendQueue := sendQueue + [Frame(data, codec)];
    }

    /**
     * `send_next_voice_packet`, run by the 20 ms send tick: take the oldest
     * queued frame and send it.  The frame is consumed even when there is no
     * data channel to send it on.
     */
    method SendNextVoicePacket()
      requires Valid()
      modifies this`sendQueue, this`voicePacketId, this`chunkVPacketId, this`sent
      ensures Valid()
      ensures old(sendQueue) == [] ==> sendQueue == [] && SendCounters() == old(SendCounters()) && sent == old(sent)
      ensures old(sendQueue) != [] ==> sendQueue == old(sendQueue)[1..]
      ensures old(sendQueue) != [] && old(dataChannel) ==>
                var (counters, packets) := Drain(old(SendCounters()), old(sendQueue), 1);
                SendCounters() == counters && sent == old(sent) + packets
      ensures old(sendQueue) != [] && !old(dataChannel) ==> SendCounters() == old(SendCounters()) && sent == old(sent)
    {
      if sendQueue == [] {
        return;
      }
      var frame := sendQueue[0];
      sendQueue := sendQueue[1..];
      SendVoicePacket(frame.data, frame.codec);
    }

    /** `drop_rtp_session`: close channel and connection and reset the candidate cache. */
    method DropRtpSession()
      requires Valid()
      modifies this`peerConnection, this`dataChannel, this`iceUseCache, this`iceCache
      ensures Valid()
      ensures LinkView() == Drop(old(LinkView()))
    {
      dataChannel := false;
      peerConnection := false;
      iceUseCache := true;
      iceCache := [];
    }

    /**
     * `start_rtc_session`, from the point of view of the session state: the
     * audio player's readiness and the encoding support are inputs.
     */
    method StartRtcSession(audioReady: bool, encodingSupported: bool)
      requires Valid()
      modifies this`audioPlayerWaiting, this`peerConnection, this`dataChannel, this`iceUseCache, this`iceCache
      ensures Valid()
      ensures LinkView() == Start(old(LinkView()), audioReady, encodingSupported)
    {
      if !audioReady {
        audioPlayerWaiting := true;
        return;
      }
      if !encodingSupported {
        return;
      }
      DropRtpSession();
      iceUseCache := true;
      peerConnection := true;
      dataChannel := true;
    }

    /**
     * `handleControlPacket`: an applied answer flushes the candidate cache in
     * order and switches caching off; a remote candidate is cached or
     * applied; a failure that allows reconnecting restarts the session.
     */
    method HandleControlPacket(p: ControlPacket, audioReady: bool, encodingSupported: bool)
      requires Valid()
      modifies this`audioPlayerWaiting, this`peerConnection, this`dataChannel, this`iceUseCache, this`iceCache,
               this`appliedIce
      ensures Valid()
      ensures LinkView() == OnControl(old(LinkView()), p, audioReady, encodingSupported)
    {
      match p
      case Answer(described) =>
        if peerConnection && described {
          iceUseCache := false;
          var k := 0;
          while k < |iceCache|
            invariant 0 <= k <= |iceCache|
            invariant iceCache == old(iceCache) && !iceUseCache && peerConnection == old(peerConnection)
            invariant audioPlayerWaiting == old(audioPlayerWaiting) && dataChannel == old(dataChannel)
            invariant appliedIce == old(appliedIce) + iceCache[..k]
          {
            appliedIce := appliedIce + [iceCache[k]];
            k := k + 1;
          }
          assert iceCache[..k] == iceCache;
          iceCache := [];
        }
      case RemoteIce(c) =>
        if !iceUseCache {
          if peerConnection {
            appliedIce := appliedIce + [c];
          }
        } else {
          iceCache := iceCache + [c];
        }
      case Status(failed, allowReconnect) =>
        if failed && allowReconnect {
          StartRtcSession(audioReady, encodingSupported);
        }
      case Other =>
    }

    /** `on_local_ice_candidate`: forward a local candidate (or the end of gathering) at once. */
    method OnLocalIceCandidate(ev: LocalIceEvent)
      requires Valid()
      modifies this`signals
      ensures Valid()
      ensures signals == old(signals) + LocalIceSignals(ev)
      ensures LinkView() == old(LinkView())
    {
      match ev
      case NoEvent =>
      case Gathered(c) =>
        signals := signals + [IceSignal(c)];
      case GatheringFinished =>
        signals := signals + [IceFinishSignal];
    }

    /** `register_client`: a new controller is appended, duplicates of its id included. */
    method RegisterClient(clientId: int) returns (client: VoiceClientController)
      requires Valid()
      modifies this`clients
      ensures Valid() && fresh(client)
      ensures client.clientId == clientId && clients == old(clients) + [client]
    {
      client := new VoiceClientController(clientId);
      clients := clients + [client];
    }

    /** `find_client`: the first registered controller with this id, if any. */
    method FindClient(clientId: int) returns (r: Option<VoiceClientController>)
      ensures r.None? <==> clientId !in Ids(clients)
      ensures r.Some? ==> exists i :: 0 <= i < |clients| && clients[i] == r.value && r.value.clientId == clientId
                                       && clientId !in Ids(clients[..i])
    {
      var i := 0;
      while i < |clients|
        invariant 0 <= i <= |clients|
        invariant clientId !in Ids(clients[..i])
      {
        if clients[i].clientId == clientId {
          return Some(clients[i]);
        }
        assert Ids(clients[..i + 1]) == Ids(clients[..i]) + [clients[i].clientId];
        i := i + 1;
      }
      assert clients[..i] == clients;
      return None;
    }

    /** `unregister_client`: remove the controller; an unknown one is ignored. */
    method UnregisterClient(client: VoiceClientController)
      requires Valid()
      modifies this`clients
      ensures Valid()
      ensures clients == RemoveFirst(old(clients), client)
      ensures client !in clients
    {
      var rest := RemoveFirst(clients, client);
      RemoveFirstOfDistinct(clients, client);
      assert Distinct(rest) && client !in rest;
      clients := rest;
    }

    /** `set_encoder_codec`. */
    method SetEncoderCodec(codec: int)
      requires Valid()
      modifies this`encoderCodec
      ensures Valid() && encoderCodec == codec
    {
      encoderCodec := codec;
    }

    /**
     * `on_data_channel_message`: route the packet; an empty payload releases
     * the client's entry in the codec's pool, any other payload leases a
     * decoder from it (the decoding itself and the playback are outside).
     */
    method OnDataChannelMessage(bin: seq<byte>, outputMuted: bool, now: int, initOk: bool)
      returns (route: Route, lease: Option<Lease>)
      requires Valid()
      modifies set p | p in pools
      ensures Valid()
      ensures route == RouteOf(bin, outputMuted, Ids(clients), |pools|)
      ensures route.StopAndRelease? ==>
                lease.None? && pools[route.codec].entries == Released(old(pools[route.codec].entries), route.clientId)
      ensures route.Decode? ==>
                lease.Some? && Step(pools[route.codec].entries, lease.value)
                            == OwnCodecSpec(old(pools[route.codec].entries), old(pools[route.codec].isSupported),
                                            route.clientId, ToSendQueue(route.codec), true, now, initOk)
      ensures !route.StopAndRelease? && !route.Decode? ==> lease.None?
      ensures forall k :: 0 <= k < |pools| && !((route.StopAndRelease? || route.Decode?) && k == route.codec) ==>
                pools[k].entries == old(pools[k].entries)
      ensures forall p :: p in pools ==> p.isSupported == old(p.isSupported)
    {
      if outputMuted {
        return Muted, None;
      }
      var h := ParseHeader(bin);
      var client := FindClient(h.clientId);
      if client.None? {
        return UnknownClient(h.clientId), None;
      }
      if h.codec.None? || h.codec.value as int >= |pools| {
        return UnknownCodec(h.clientId), None;
      }
      var codec := h.codec.value as nat;
      var pool := pools[codec];
      if |h.payload| == 0 {
        pool.ReleaseCodec(h.clientId);
        route, lease := StopAndRelease(h.clientId, codec), None;
      } else {
        var l := pool.OwnCodec(h.clientId, ToSendQueue(codec), true, now, initOk);
        route, lease := Decode(h.clientId, codec, h.payload), Some(l);
      }
    }

    /**
     * `handle_local_voice`: when connected and not muted, a head frame
     * restarts the burst counter, and the local client's encoder is leased
     * from the pool of the encoder codec (the encoding itself is outside).
     * An encoder codec without a pool makes the source throw: no lease.
     */
    method HandleLocalVoice(head: bool, connected: bool, inputMuted: bool, localId: int, now: int, initOk: bool)
      returns (lease: Option<Lease>)
      requires Valid()
      modifies this`chunkVPacketId, set p | p in pools
      ensures Valid()
      ensures chunkVPacketId == if connected && !inputMuted && head then 0 else old(chunkVPacketId)
      ensures lease.Some? <==> connected && !inputMuted && localId in Ids(clients) && 0 <= encoderCodec < |pools|
      ensures lease.Some? ==>
                Step(pools[encoderCodec].entries, lease.value)
                == OwnCodecSpec(old(pools[encoderCodec].entries), old(pools[encoderCodec].isSupported),
                                localId, ToSendQueue(encoderCodec), true, now, initOk)
      ensures forall k :: 0 <= k < |pools| && !(lease.Some? && k == encoderCodec) ==>
                pools[k].entries == old(pools[k].entries)
      ensures forall p :: p in pools ==> p.isSupported == old(p.isSupported)
    {
      if !connected || inputMuted {
        return None;
      }
      if head {
        chunkVPacketId := 0;
      }
      var client := FindClient(localId);
      if client.None? {
        return None;
      }
      if !(0 <= encoderCodec < |pools|) {
        return None;
      }
      var l := pools[encoderCodec].OwnCodec(localId, ToSendQueue(encoderCodec), true, now, initOk);
      lease := Some(l);
    }

    /**
     * `handle_local_voice_ended`: when connected and not muted, send the
     * empty "stopped talking" packet for the encoder codec.
     */
    method HandleLocalVoiceEnded(connected: bool, inputMuted: bool)
      requires Valid()
      modifies this`voicePacketId, this`chunkVPacketId, this`sent
      ensures Valid()
      ensures connected && !inputMuted && old(dataChannel) && encoderCodec >= 0 ==>
                var (counters, packet) := SendStep(old(SendCounters()), Frame([], encoderCodec));
                SendCounters() == counters && sent == old(sent) + [packet]
      ensures !(connected && !inputMuted && old(dataChannel) && encoderCodec >= 0) ==>
                SendCounters() == old(SendCounters()) && sent == old(sent)
    {
      if !connected || inputMuted {
        return;
      }
      if dataChannel && encoderCodec >= 0 {
        SendVoicePacket([], encoderCodec);
      }
    }
  }
}
