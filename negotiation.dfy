/**
 * The part of the voice session's negotiation that the handler itself
 * decides: whether a peer connection and data channel exist, the remote
 * candidate cache (`_ice_use_cache`, `_ice_cache`) and how control messages
 * from the server move them.  The browser's connection objects are reduced to
 * their existence; whether they accept a description is an input.
 */
module Negotiation {

  /** A negotiation candidate as carried in the `msg` field of a control message. */
  type Candidate = string

  /**
   * The remote candidate cache, together with the candidates handed to
   * `addIceCandidate` so far, in the order they were handed over.
   */
  datatype IceState = IceState(useCache: bool, cache: seq<Candidate>, applied: seq<Candidate>)

  /** An `ice` request: cache the candidate while caching, else apply it at once. */
  function RemoteCandidate(s: IceState, c: Candidate): IceState
  {
    if s.useCache then s.(cache := s.cache + [c]) else s.(applied := s.applied + [c])
  }

  /** The answer was applied: stop caching and apply the cached candidates in order. */
  function AnswerAccepted(s: IceState): IceState
  {
    IceState(false, [], s.applied + s.cache)
  }

  /** Tearing the session down: cache again, forget what was cached. */
  function CacheReset(s: IceState): IceState
  {
    s.(useCache := true, cache := [])
  }

  /** While caching is off the cache is empty. */
  predicate CacheConsistent(s: IceState)
  {
    !s.useCache ==> s.cache == []
  }

  /** The remote events that reach the cache of one running session. */
  datatype IceEvent = Arrived(candidate: Candidate) | Accepted

  function IceStep(s: IceState, e: IceEvent): IceState
  {
    match e
    case Arrived(c) => RemoteCandidate(s, c)
    case Accepted => AnswerAccepted(s)
  }

  /** The cache after a run of events, in arrival order. */
  function Replay(s: IceState, evs: seq<IceEvent>): IceState
    decreases |evs|
  {
    if evs == [] then s else Replay(IceStep(s, evs[0]), evs[1..])
  }

  /** The candidates of a run of events, in arrival order. */
  function CandidatesOf(evs: seq<IceEvent>): (cs: seq<Candidate>)
    ensures |cs| <= |evs|
  {
    if evs == [] then []
    else if evs[0].Arrived? then [evs[0].candidate] + CandidatesOf(evs[1..])
    else CandidatesOf(evs[1..])
  }

  /**
   * No remote candidate is lost, duplicated or reordered: what has been
   * applied followed by what is still cached is exactly what arrived.
   */
  lemma {:induction false} CandidatesKeepArrivalOrder(s: IceState, evs: seq<IceEvent>)
    requires CacheConsistent(s)
    ensures CacheConsistent(Replay(s, evs))
    ensures Replay(s, evs).applied + Replay(s, evs).cache == s.applied + s.cache + CandidatesOf(evs)
    decreases |evs|
  {
    if evs != [] {
      var s1 := IceStep(s, evs[0]);
      CandidatesKeepArrivalOrder(s1, evs[1..]);
      match evs[0]
      case Arrived(c) =>
        assert s1.applied + s1.cache == s.applied + s.cache + [c];
      case Accepted =>
        assert s1.applied + s1.cache == s.applied + s.cache;
    }
  }

  /** Until an answer is accepted, candidates are only cached, in arrival order. */
  lemma {:induction false} CachedUntilAnswer(s: IceState, evs: seq<IceEvent>)
    requires s.useCache && Accepted !in evs
    ensures Replay(s, evs) == IceState(true, s.cache + CandidatesOf(evs), s.applied)
    decreases |evs|
  {
    if evs != [] {
      assert evs[0] in evs;
      assert Accepted !in evs[1..] by {
        assert forall e :: e in evs[1..] ==> e in evs;
      }
      CachedUntilAnswer(IceStep(s, evs[0]), evs[1..]);
    }
  }

  /**
   * Once an answer has been accepted the cache is empty and off for good:
   * every candidate that arrived has been applied, in arrival order.
   */
  lemma {:induction false} AppliedOnceAnswered(s: IceState, evs: seq<IceEvent>)
    requires CacheConsistent(s) && Accepted in evs
    ensures !Replay(s, evs).useCache && Replay(s, evs).cache == []
    ensures Replay(s, evs).applied == s.applied + s.cache + CandidatesOf(evs)
    decreases |evs|
  {
    CandidatesKeepArrivalOrder(s, evs);
    if evs[0] == Accepted {
      AppliedAfterAccept(IceStep(s, evs[0]), evs[1..]);
    } else {
      assert Accepted in evs[1..];
      AppliedOnceAnswered(IceStep(s, evs[0]), evs[1..]);
    }
  }

  /** With caching off, every later event leaves the cache empty and off. */
  lemma {:induction false} AppliedAfterAccept(s: IceState, evs: seq<IceEvent>)
    requires !s.useCache && s.cache == []
    ensures !Replay(s, evs).useCache && Replay(s, evs).cache == []
    decreases |evs|
  {
    if evs != [] {
      AppliedAfterAccept(IceStep(s, evs[0]), evs[1..]);
    }
  }

  /** A control message from the server, reduced to what the handler inspects. */
  datatype ControlPacket =
    | Answer(described: bool)                     // `answer`; whether the remote description was applied
    | RemoteIce(candidate: Candidate)             // `ice`
    | Status(failed: bool, allowReconnect: bool)  // `status`
    | Other                                       // any other request

  /**
   * The session's connection state: whether `start_rtc_session` is waiting
   * for the audio player, whether a peer connection and a data channel exist,
   * and the remote candidate cache.
   */
  datatype Link = Link(audioWaiting: bool, peer: bool, channel: bool, ice: IceState)

  /** Caching is switched off only while a peer connection exists, and then nothing is cached. */
  predicate LinkInvariant(l: Link)
  {
    (!l.ice.useCache ==> l.peer) && CacheConsistent(l.ice)
  }

  /** `drop_rtp_session`: close channel and connection, reset the cache. */
  function Drop(l: Link): Link
  {
    l.(peer := false, channel := false, ice := CacheReset(l.ice))
  }

  /**
   * `start_rtc_session`: wait for the audio player if it is not ready, give
   * up if the encoding is not supported, otherwise drop the old session and
   * open a new connection and channel with caching on.
   */
  function Start(l: Link, audioReady: bool, encodingSupported: bool): Link
  {
    if !audioReady then l.(audioWaiting := true)
    else if !encodingSupported then l
    else Drop(l).(peer := true, channel := true)
  }

  /**
   * `handleControlPacket`.  Touching the absent peer connection throws, which
   * leaves the state as it was.
   */
  function OnControl(l: Link, p: ControlPacket, audioReady: bool, encodingSupported: bool): Link
  {
    match p
    case Answer(described) =>
      if l.peer && described then l.(ice := AnswerAccepted(l.ice)) else l
    case RemoteIce(c) =>
      if l.ice.useCache || l.peer then l.(ice := RemoteCandidate(l.ice, c)) else l
    case Status(failed, allowReconnect) =>
      if failed && allowReconnect then Start(l, audioReady, encodingSupported) else l
    case Other => l
  }

  /** Every control message keeps the invariant, so the throwing `ice` branch is never taken. */
  lemma OnControlKeepsInvariant(l: Link, p: ControlPacket, audioReady: bool, encodingSupported: bool)
    requires LinkInvariant(l)
    ensures LinkInvariant(OnControl(l, p, audioReady, encodingSupported))
    ensures p.RemoteIce? ==> OnControl(l, p, audioReady, encodingSupported).ice == RemoteCandidate(l.ice, p.candidate)
  {
  }

  /**
   * A reconnect-permitting failure with the audio player ready and the
   * encoding supported restarts the session with an empty, active cache.
   */
  lemma ReconnectRestartsWithEmptyCache(l: Link)
    ensures var l' := OnControl(l, Status(true, true), true, true);
            l'.peer && l'.channel && l'.ice.useCache && l'.ice.cache == [] && l'.ice.applied == l.ice.applied
  {
  }

  /** What the handler sends to the server when the browser reports a local candidate. */
  datatype LocalIceEvent = NoEvent | Gathered(candidate: Candidate) | GatheringFinished

  datatype Signal = IceSignal(candidate: Candidate) | IceFinishSignal

  /** `on_local_ice_candidate`: local candidates are forwarded at once, never cached. */
  function LocalIceSignals(ev: LocalIceEvent): (out: seq<Signal>)
    ensures ev.Gathered? ==> out == [IceSignal(ev.candidate)]
    ensures ev.GatheringFinished? ==> out == [IceFinishSignal]
    ensures ev.NoEvent? ==> out == []
  {
    match ev
    case NoEvent => []
    case Gathered(c) => [IceSignal(c)]
    case GatheringFinished => [IceFinishSignal]
  }
}
