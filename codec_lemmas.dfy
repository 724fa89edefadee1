/**
 * What a lease and a release promise, stated over the pure model of the pool
 * (`Codec.OwnCodecSpec`, `Codec.Released`), which `CodecPool.OwnCodec` and
 * `CodecPool.ReleaseCodec` are proved to follow.
 */
module CodecLemmas {
  import opened Wrappers
  import opened Codec

  /** A pool is rejected as unsupported exactly when its flag is off, and then nothing is touched. */
  lemma {:induction false} UnsupportedExactlyWhenDisabled(es: seq<Entry>, supported: bool, c: int, sink: Sink,
                                                        create: bool, now: int, initOk: bool)
    ensures var st := OwnCodecSpec(es, supported, c, sink, create, now, initOk);
            (st.outcome == Rejected(Unsupported) <==> !supported)
            && (!supported ==> st.entries == es)
  {
    if supported {
      match FirstOwned(es, c)
      case Some(i) =>
      case None =>
        if create {
          var free := LastFree(es);
          var slot := if free == 0 then |es| else free;
          var grown := if free == 0 then es + [NewEntry] else es;
          var claimed := grown[slot := grown[slot].(owner := c, lastAccess := now, sink := sink)];
          assert slot < |claimed|;
        }
    }
  }

  /**
   * A client that already owns an entry gets that entry's instance back (or
   * the initialisation error of a never initialised one): no entry is
   * created, no owner changes and the data callback is not rebound.
   */
  lemma {:induction false} LeaseReusesOwnedEntry(es: seq<Entry>, c: int, sink: Sink, create: bool,
                                               now: int, initOk: bool, i: nat)
    requires FirstOwned(es, c) == Some(i)
    ensures var st := OwnCodecSpec(es, true, c, sink, create, now, initOk);
            && |st.entries| == |es|
            && (st.outcome == Leased(i) || (st.outcome == Rejected(InitFailed) && !es[i].initialized && !initOk))
            && (forall k :: 0 <= k < |es| ==> st.entries[k].owner == es[k].owner && st.entries[k].sink == es[k].sink)
            && (forall k :: 0 <= k < |es| && k != i ==> st.entries[k] == es[k])
  {
  }

  /** A successful lease leaves the leased entry owned by the client, initialised and first among its entries. */
  lemma {:induction false} LeasedEntryIsReady(es: seq<Entry>, c: int, sink: Sink, create: bool,
                                            now: int, initOk: bool)
    requires OwnCodecSpec(es, true, c, sink, create, now, initOk).outcome.Leased?
    ensures var st := OwnCodecSpec(es, true, c, sink, create, now, initOk);
            var s := st.outcome.slot;
            s < |st.entries| && st.entries[s].initialized && FirstOwned(st.entries, c) == Some(s)
  {
    var st := OwnCodecSpec(es, true, c, sink, create, now, initOk);
    var s := st.outcome.slot;
    match FirstOwned(es, c)
    case Some(i) =>
      assert s == i;
      FirstOwnedAt(st.entries, c, s);
    case None =>
      assert forall k :: 0 <= k < |st.entries| && k != s ==> k < |es| && st.entries[k].owner == es[k].owner;
      FirstOwnedAt(st.entries, c, s);
  }

  /** Leasing twice without a release in between yields the same instance and no new entry. */
  lemma {:induction false} LeaseTwiceSameInstance(es: seq<Entry>, c: int, sink1: Sink, create1: bool, now1: int,
                                                init1: bool, sink2: Sink, create2: bool, now2: int, init2: bool)
    requires OwnCodecSpec(es, true, c, sink1, create1, now1, init1).outcome.Leased?
    ensures var first := OwnCodecSpec(es, true, c, sink1, create1, now1, init1);
            var second := OwnCodecSpec(first.entries, true, c, sink2, create2, now2, init2);
            second.outcome == first.outcome && |second.entries| == |first.entries|
  {
    LeasedEntryIsReady(es, c, sink1, create1, now1, init1);
  }

  /**
   * With `create == false` and no entry of the client, the lease resolves to
   * no instance and leaves the entries alone; a lease without `create` never
   * adds an entry nor changes an owner.
   */
  lemma {:induction false} ProbeModeNeverClaims(es: seq<Entry>, c: int, sink: Sink, now: int, initOk: bool)
    ensures var st := OwnCodecSpec(es, true, c, sink, false, now, initOk);
            && |st.entries| == |es|
            && (forall k :: 0 <= k < |es| ==> st.entries[k].owner == es[k].owner)
            && (st.outcome == NoInstance <==> FirstOwned(es, c).None?)
            && (FirstOwned(es, c).None? ==> st.entries == es)
  {
  }

  /**
   * No entry of the client and a free entry at some index above 0: the last
   * such entry is claimed in place.  Its instance is kept; if it was already
   * initialised it is reset (not recreated) and returned at once.
   */
  lemma {:induction false} LeaseClaimsLastFreeEntry(es: seq<Entry>, c: int, sink: Sink, now: int, initOk: bool)
    requires FirstOwned(es, c).None? && LastFree(es) > 0
    ensures var st := OwnCodecSpec(es, true, c, sink, true, now, initOk);
            var s := LastFree(es);
            && |st.entries| == |es|
            && es[s].owner == FreeOwner
            && (forall j :: s < j < |es| ==> es[j].owner != FreeOwner)
            && st.entries[s].owner == c && st.entries[s].sink == sink
            && (forall k :: 0 <= k < |es| && k != s ==> st.entries[k] == es[k])
            && (es[s].initialized ==> st.outcome == Leased(s) && st.entries[s].initialized
                                      && st.entries[s].resets == es[s].resets + 1)
            && (!es[s].initialized ==> st.outcome == (if initOk then Leased(s) else Rejected(InitFailed)))
  {
  }

  /**
   * No entry of the client and no free entry above index 0: exactly one
   * entry is appended, owned by the client, whatever the declared capacity.
   */
  lemma {:induction false} LeaseAppendsEntry(es: seq<Entry>, c: int, sink: Sink, now: int, initOk: bool)
    requires FirstOwned(es, c).None? && LastFree(es) == 0
    ensures var st := OwnCodecSpec(es, true, c, sink, true, now, initOk);
            && |st.entries| == |es| + 1
            && st.entries[..|es|] == es
            && st.entries[|es|].owner == c && st.entries[|es|].sink == sink
            && st.outcome == (if initOk then Leased(|es|) else Rejected(InitFailed))
  {
    var st := OwnCodecSpec(es, true, c, sink, true, now, initOk);
    assert st.entries[..|es|] == es;
  }

  /**
   * A free entry at index 0 is never handed out again, whatever the pool
   * holds: 0 also means "no free entry found", so the lease claims a later
   * entry or grows the pool, and entry 0 stays as it was.
   */
  lemma {:induction false} FreeEntryAtIndexZeroNotReused(es: seq<Entry>, supported: bool, c: int, sink: Sink,
                                                       create: bool, now: int, initOk: bool)
    requires |es| > 0 && es[0].owner == FreeOwner && c != FreeOwner
    ensures var st := OwnCodecSpec(es, supported, c, sink, create, now, initOk);
            && |st.entries| >= |es| && st.entries[0] == es[0]
            && st.outcome != Leased(0)
  {
    if supported {
      match FirstOwned(es, c)
      case Some(i) =>
        assert i != 0;
      case None =>
        if create {
          if LastFree(es) == 0 {
            LeaseAppendsEntry(es, c, sink, now, initOk);
            var st := OwnCodecSpec(es, supported, c, sink, create, now, initOk);
            assert st.entries[0] == st.entries[..|es|][0];
          } else {
            LeaseClaimsLastFreeEntry(es, c, sink, now, initOk);
          }
        }
    }
  }

  /**
   * A pool whose entries are all owned by other clients grows by one entry,
   * owned by the new client, and hands out that entry's instance.
   */
  lemma FullPoolGrows(es: seq<Entry>, c: int, sink: Sink, now: int)
    requires c != FreeOwner
    requires forall k :: 0 <= k < |es| ==> es[k].owner != FreeOwner && es[k].owner != c
    ensures var st := OwnCodecSpec(es, true, c, sink, true, now, true);
            && st.outcome == Leased(|es|)
            && |st.entries| == |es| + 1 && st.entries[..|es|] == es && st.entries[|es|].owner == c
  {
    assert FirstOwned(es, c).None?;
    assert LastFree(es) == 0;
    LeaseAppendsEntry(es, c, sink, now, true);
  }

  /**
   * Three clients leasing from an empty pool get three entries: the declared
   * capacity of two instances is never enforced.
   */
  lemma ThreeLeasesExceedDeclaredCapacity(a: int, b: int, c: int, now: int)
    requires a != FreeOwner && b != FreeOwner && c != FreeOwner && a != b && b != c && a != c
    ensures var s1 := OwnCodecSpec([], true, a, Discard, true, now, true);
            var s2 := OwnCodecSpec(s1.entries, true, b, Discard, true, now, true);
            var s3 := OwnCodecSpec(s2.entries, true, c, Discard, true, now, true);
            s3.outcome == Leased(2) && |s3.entries| == 3 > DeclaredMaxInstances
  {
    FullPoolGrows([], a, Discard, now);
    var e1 := OwnCodecSpec([], true, a, Discard, true, now, true).entries;
    assert |e1| == 1 && e1[0].owner == a;
    FullPoolGrows(e1, b, Discard, now);
    var e2 := OwnCodecSpec(e1, true, b, Discard, true, now, true).entries;
    assert |e2| == 2 && e2[1].owner == b;
    assert e2[0].owner == a by {
      assert e2[0] == e2[..1][0];
    }
    FullPoolGrows(e2, c, Discard, now);
  }

  /** After `releaseCodec(c)` with `c` non-zero, no entry belongs to `c` and exactly the entries of `c` were freed. */
  lemma {:induction false} ReleaseFreesExactlyOwned(es: seq<Entry>, c: int)
    requires c != FreeOwner
    ensures var r := Released(es, c);
            && FirstOwned(r, c).None?
            && (forall k :: 0 <= k < |es| ==> (r[k].owner == FreeOwner <==> es[k].owner in {c, FreeOwner}))
            && (forall k :: 0 <= k < |es| ==> r[k].initialized == es[k].initialized && r[k].resets == es[k].resets)
  {
    var r := Released(es, c);
    assert forall k :: 0 <= k < |r| ==> r[k].owner != c;
  }

  /**
   * Release followed by a lease of the same client on a warm pool: when the
   * released entry sits above index 0, the new lease is served from an
   * existing, already initialised entry (no new entry, no initialisation).
   */
  lemma {:induction false} ReleaseThenLeaseReusesWarmEntry(es: seq<Entry>, c: int, i: nat, sink: Sink,
                                                         now: int, initOk: bool)
    requires UniqueOwners(es) && c != FreeOwner
    requires 0 < i < |es| && es[i].owner == c
    requires forall k :: 0 <= k < |es| ==> es[k].initialized
    ensures var freed := Released(es, c);
            var st := OwnCodecSpec(freed, true, c, sink, true, now, initOk);
            && |st.entries| == |es|
            && st.outcome == Leased(LastFree(freed))
            && i <= LastFree(freed)
            && st.entries[LastFree(freed)].resets == es[LastFree(freed)].resets + 1
  {
    var freed := Released(es, c);
    ReleaseFreesExactlyOwned(es, c);
    assert freed[i].owner == FreeOwner;
    assert LastFree(freed) >= i;
    LeaseClaimsLastFreeEntry(freed, c, sink, now, initOk);
  }

  /** A successful probe leaves no entry with the sentinel owner. */
  lemma {:induction false} ProbeReleasesSentinel(es: seq<Entry>, supported: bool, now: int, initOk: bool)
    ensures var probe := OwnCodecSpec(es, supported, ProbeClientId, Discard, true, now, initOk);
            probe.outcome.Leased? ==> FirstOwned(Released(probe.entries, ProbeClientId), ProbeClientId).None?
  {
    var probe := OwnCodecSpec(es, supported, ProbeClientId, Discard, true, now, initOk);
    ReleaseFreesExactlyOwned(probe.entries, ProbeClientId);
  }

  /**
   * A probe whose initialisation fails on a pool with no entries leaves a
   * never initialised entry still owned by the sentinel.
   */
  lemma ProbeFailureKeepsSentinelEntry(now: int)
    ensures var probe := OwnCodecSpec([], true, ProbeClientId, Discard, true, now, false);
            probe.outcome == Rejected(InitFailed)
            && probe.entries == [Entry(ProbeClientId, now, Discard, false, 0)]
  {
  }

  /**
   * `VoiceConnection.codecSupported(t)` holds exactly when pool `t` exists
   * and a lease from it, by any client, is not refused as unsupported.
   */
  lemma {:induction false} CodecSupportedExactlyWhenLeasable(pools: seq<CodecPool>, t: nat, c: int, sink: Sink,
                                                           create: bool, now: int, initOk: bool)
    ensures CodecSupportedIn(pools, t)
        <==> t < |pools|
             && OwnCodecSpec(pools[t].entries, pools[t].Supported(), c, sink, create, now, initOk).outcome
                != Rejected(Unsupported)
  {
    if t < |pools| {
      UnsupportedExactlyWhenDisabled(pools[t].entries, pools[t].Supported(), c, sink, create, now, initOk);
    }
  }
}
