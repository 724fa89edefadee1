/**
 * The codec pool of the web voice handler (namespace `codec` of
 * web/js/voice/VoiceHandler.ts): one pool per codec type, holding a growing
 * list of cache entries, each a worker-backed codec instance leased to one
 * client id at a time (owner 0 meaning "free").
 *
 * The codec instance itself is opaque; it is modelled only by whether it has
 * been initialised and by how often it has been reset.  An entry is never
 * removed and its instance is never replaced, so the index of an entry is the
 * identity of its instance.
 */
module Codec {
  import opened Wrappers

  /** The codec types for which the loader creates a pool. */
  datatype CodecType =
    | SpeexNarrowband
    | SpeexWideband
    | SpeexUltraWideband
    | CeltMono
    | OpusVoice
    | OpusMusic

  /** `codec_supported`: only the two Opus variants have a working codec. */
  predicate CodecSupported(t: CodecType)
  {
    t == OpusMusic || t == OpusVoice
  }

  /** Where the data produced by an instance goes (its `on_encoded_data`). */
  datatype Sink =
    | Discard                   // `_ => {}`, the probe's callback
    | ToSendQueue(codec: int)   // `e => this.handleEncodedVoicePacket(e, codec)`

  /** One `CacheEntry`: owner id (0 = free), last access stamp and the instance. */
  datatype Entry = Entry(owner: int, lastAccess: int, sink: Sink, initialized: bool, resets: nat)

  /** Owner id of a free entry. */
  const FreeOwner: int := 0

  /** Client id under which `initialize` probes the codec. */
  const ProbeClientId: int := 0xFFEF

  /** Capacity the pool declares; no operation ever consults it. */
  const DeclaredMaxInstances: int := 2

  /** A freshly created entry with a new, not yet initialised worker instance. */
  const NewEntry: Entry := Entry(FreeOwner, 0, Discard, false, 0)

  datatype LeaseError = Unsupported | InitFailed

  /** What the promise returned by `ownCodec` settles to. */
  datatype Lease =
    | Leased(slot: nat)          // resolved with the instance of entry `slot`
    | NoInstance                 // resolved with `undefined`
    | Rejected(error: LeaseError)

  /** Entries after a lease, together with its outcome. */
  datatype Step = Step(entries: seq<Entry>, outcome: Lease)

  /** At most one entry is owned by any non-zero owner id. */
  ghost predicate UniqueOwners(es: seq<Entry>)
  {
    forall i, j :: 0 <= i < j < |es| && es[i].owner != FreeOwner ==> es[i].owner != es[j].owner
  }

  /** First index at or after `from` whose entry is owned by `c`. */
  function FirstOwnedFrom(es: seq<Entry>, c: int, from: nat): (r: Option<nat>)
    requires from <= |es|
    decreases |es| - from
    ensures r.Some? ==> from <= r.value < |es| && es[r.value].owner == c
    ensures r.Some? ==> forall j :: from <= j < r.value ==> es[j].owner != c
    ensures r.None? ==> forall j :: from <= j < |es| ==> es[j].owner != c
  {
    if from == |es| then None
    else if es[from].owner == c then Some(from)
    else FirstOwnedFrom(es, c, from + 1)
  }

  /** The entry the lease loop stops at: the first one owned by `c`. */
  function FirstOwned(es: seq<Entry>, c: int): Option<nat>
  {
    FirstOwnedFrom(es, c, 0)
  }

  /**
   * The value of `free_slot` after the lease loop ran over `es` without
   * meeting an entry of the client: the last free index, with 0 doubling as
   * "none found".
   */
  function LastFree(es: seq<Entry>): (r: nat)
    ensures r == 0 || (r < |es| && es[r].owner == FreeOwner)
    ensures forall j :: r < j < |es| ==> es[j].owner != FreeOwner
  {
    if |es| == 0 then 0
    else if es[|es| - 1].owner == FreeOwner then |es| - 1
    else LastFree(es[..|es| - 1])
  }

  /**
   * The lease of an entry the client already owns: refresh its stamp and, if
   * the instance was never initialised, initialise it (succeeding when
   * `initOk`), after which the re-entrant lease finds it ready.
   */
  function ResumeOwned(es: seq<Entry>, i: nat, now: int, initOk: bool): Step
    requires i < |es|
  {
    var touched := es[i := es[i].(lastAccess := now)];
    if es[i].initialized then Step(touched, Leased(i))
    else if initOk then Step(touched[i := touched[i].(initialized := true)], Leased(i))
    else Step(touched, Rejected(InitFailed))
  }

  /**
   * `ownCodec(clientId, callback, create)` on a pool with the given entries
   * and support flag.  `now` is the time stamp and `initOk` the outcome of the
   * one `initialise()` of an instance this call may start.
   */
  function OwnCodecSpec(es: seq<Entry>, supported: bool, c: int, sink: Sink, create: bool,
                        now: int, initOk: bool): Step
  {
    if !supported then Step(es, Rejected(Unsupported))
    else match FirstOwned(es, c)
      case Some(i) => ResumeOwned(es, i, now, initOk)
      case None =>
        if !create then Step(es, NoInstance)
        else
          var free := LastFree(es);
          var slot := if free == 0 then |es| else free;
          var grown := if free == 0 then es + [NewEntry] else es;
          var claimed := grown[slot := grown[slot].(owner := c, lastAccess := now, sink := sink)];
          if claimed[slot].initialized then
            Step(claimed[slot := claimed[slot].(resets := claimed[slot].resets + 1)], Leased(slot))
          else ResumeOwned(claimed, slot, now, initOk)
  }

  /** An owned entry with no owned entry before it is the one the lease loop stops at. */
  lemma FirstOwnedAt(es: seq<Entry>, c: int, i: nat)
    requires i < |es| && es[i].owner == c
    requires forall j :: 0 <= j < i ==> es[j].owner != c
    ensures FirstOwned(es, c) == Some(i)
  {
  }

  /** 1 when the lease of `c` would start by initialising its own entry. */
  function PendingInit(es: seq<Entry>, c: int): nat
  {
    match FirstOwned(es, c)
    case Some(i) => if es[i].initialized then 0 else 1
    case None => 0
  }

  /** `releaseCodec(c)`: every entry owned by `c` becomes free; nothing else changes. */
  function Released(es: seq<Entry>, c: int): (r: seq<Entry>)
    ensures |r| == |es|
    ensures forall i :: 0 <= i < |es| && es[i].owner == c ==> r[i] == es[i].(owner := FreeOwner)
    ensures forall i :: 0 <= i < |es| && es[i].owner != c ==> r[i] == es[i]
  {
    seq(|es|, i requires 0 <= i < |es| => if es[i].owner == c then es[i].(owner := FreeOwner) else es[i])
  }

  /** A lease keeps distinct non-zero owners distinct. */
  lemma {:induction false} LeasePreservesUniqueOwners(es: seq<Entry>, supported: bool, c: int, sink: Sink,
                                                    create: bool, now: int, initOk: bool)
    requires UniqueOwners(es)
    ensures UniqueOwners(OwnCodecSpec(es, supported, c, sink, create, now, initOk).entries)
  {
    var st := OwnCodecSpec(es, supported, c, sink, create, now, initOk);
    if supported && FirstOwned(es, c).None? && create {
      var free := LastFree(es);
      var slot := if free == 0 then |es| else free;
      assert st.entries[slot].owner == c;
      assert forall k :: 0 <= k < |st.entries| && k != slot ==> k < |es| && st.entries[k].owner == es[k].owner;
      forall i, j | 0 <= i < j < |st.entries| && st.entries[i].owner != FreeOwner
        ensures st.entries[i].owner != st.entries[j].owner
      {
        if i == slot {
          assert st.entries[j].owner == es[j].owner != c;
        } else if j == slot {
          assert st.entries[i].owner == es[i].owner != c;
        }
      }
    } else {
      assert |st.entries| == |es|;
      assert forall k :: 0 <= k < |es| ==> st.entries[k].owner == es[k].owner;
    }
  }

  /** Releasing keeps distinct non-zero owners distinct. */
  lemma ReleasePreservesUniqueOwners(es: seq<Entry>, c: int)
    requires UniqueOwners(es)
    ensures UniqueOwners(Released(es, c))
  {
  }

  /** One `CodecPool`: the pool of instances of one codec type. */
  class CodecPool {
    const codecIndex: int
    const name: string
    const codecType: Option<CodecType>
    var entries: seq<Entry>
    var maxInstances: int
    var isSupported: bool

    ghost predicate Valid()
      reads this
    {
      UniqueOwners(entries)
    }

    /** `supported()`. */
    predicate Supported()
      reads this
    {
      isSupported
    }

    /** A pool starts empty and is supported exactly for a defined Opus type. */
    constructor (index: int, name: string, codecType: Option<CodecType>)
      ensures Valid()
      ensures this.codecIndex == index && this.name == name && this.codecType == codecType
      ensures entries == [] && maxInstances == DeclaredMaxInstances
      ensures isSupported <==> codecType.Some? && CodecSupported(codecType.value)
    {
      this.codecIndex := index;
      this.name := name;
      this.codecType := codecType;
      entries := [];
      maxInstances := DeclaredMaxInstances;
      isSupported := codecType.Some? && CodecSupported(codecType.value);
    }

    /**
     * `ownCodec`: lease an instance to `clientId`.  The recursion mirrors the
     * source's re-entrant call after an instance has been initialised.
     */
    method OwnCodec(clientId: int, sink: Sink, create: bool, now: int, initOk: bool) returns (r: Lease)
      requires Valid()
      modifies this
      decreases (if create then 2 else 0) + PendingInit(entries, clientId)
      ensures Valid() && isSupported == old(isSupported) && maxInstances == old(maxInstances)
      ensures Step(entries, r) == OwnCodecSpec(old(entries), old(isSupported), clientId, sink, create, now, initOk)
    {
      ghost var es := entries;
      LeasePreservesUniqueOwners(es, isSupported, clientId, sink, create, now, initOk);
      if !isSupported {
        return Rejected(Unsupported);
      }
      var freeSlot := 0;
      var index := 0;
      while index < |entries|
        invariant entries == es
        invariant 0 <= index <= |entries|
        invariant forall j :: 0 <= j < index ==> entries[j].owner != clientId
        invariant freeSlot == LastFree(entries[..index])
      {
        if entries[index].owner == clientId {
          FirstOwnedAt(es, clientId, index);
          entries := entries[index := entries[index].(lastAccess := now)];
          if entries[index].initialized {
            return Leased(index);
          }
          if !initOk {
            return Rejected(InitFailed);
          }
          entries := entries[index := entries[index].(initialized := true)];
          FirstOwnedAt(entries, clientId, index);
          r := OwnCodec(clientId, sink, false, now, initOk);
          assert entries == ResumeOwned(es, index, now, initOk).entries;
          return;
        } else if entries[index].owner == FreeOwner {
          freeSlot := index;
        }
        assert entries[..index + 1][..index] == entries[..index];
        index := index + 1;
      }
      assert entries[..index] == es;
      if !create {
        return NoInstance;
      }
      if freeSlot == 0 {
        freeSlot := |entries|;
        entries := entries + [NewEntry];
      }
      entries := entries[freeSlot := entries[freeSlot].(owner := clientId, lastAccess := now, sink := sink)];
      if entries[freeSlot].initialized {
        entries := entries[freeSlot := entries[freeSlot].(resets := entries[freeSlot].resets + 1)];
        return Leased(freeSlot);
      }
      FirstOwnedAt(entries, clientId, freeSlot);
      r := OwnCodec(clientId, sink, false, now, initOk);
    }

    /** `releaseCodec`: free every entry owned by `clientId`. */
    method ReleaseCodec(clientId: int)
      requires Valid()
      modifies this
      ensures Valid() && isSupported == old(isSupported) && maxInstances == old(maxInstances)
      ensures entries == Released(old(entries), clientId)
    {
      ReleasePreservesUniqueOwners(entries, clientId);
      var index := 0;
      while index < |entries|
        invariant 0 <= index <= |entries| == |old(entries)|
        invariant isSupported == old(isSupported) && maxInstances == old(maxInstances)
        invariant forall j :: 0 <= j < index ==> entries[j] == Released(old(entries), clientId)[j]
        invariant forall j :: index <= j < |entries| ==> entries[j] == old(entries)[j]
      {
        if entries[index].owner == clientId {
          entries := entries[index := entries[index].(owner := FreeOwner)];
        }
        index := index + 1;
      }
    }

    /**
     * `initialize`: probe the codec by leasing an instance to the sentinel
     * client and releasing it again; a rejected probe disables the pool for
     * good.
     */
    method Initialize(cached: int, now: int, initOk: bool)
      requires Valid()
      modifies this
      ensures Valid() && maxInstances == old(maxInstances)
      ensures var probe := OwnCodecSpec(old(entries), old(isSupported), ProbeClientId, Discard, true, now, initOk);
              if probe.outcome.Leased?
              then entries == Released(probe.entries, ProbeClientId) && isSupported == old(isSupported)
              else entries == probe.entries && !isSupported
    {
      var lease := OwnCodec(ProbeClientId, Discard, true, now, initOk);
      if lease.Rejected? {
        isSupported := false;
      } else {
        ReleaseCodec(ProbeClientId);
      }
    }
  }

  /** `VoiceConnection.codecSupported`: a pool exists at index `t` and is supported. */
  predicate CodecSupportedIn(pools: seq<CodecPool>, t: nat)
    reads set p | p in pools
  {
    t < |pools| && pools[t].isSupported
  }
}
