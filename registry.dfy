/**
 * The voice clients a session knows (`_audio_clients`): one controller per
 * registered client, looked up by client id when voice arrives.
 */
module Registry {

  /** `VoiceClientController`; only the client id it was created for matters here. */
  class VoiceClientController {
    const clientId: int

    constructor (clientId: int)
      ensures this.clientId == clientId
    {
      this.clientId := clientId;
    }
  }

  /** The ids of the registered clients, in registration order. */
  function Ids(cs: seq<VoiceClientController>): (ids: seq<int>)
    ensures |ids| == |cs|
    ensures forall i :: 0 <= i < |cs| ==> ids[i] == cs[i].clientId
  {
    seq(|cs|, i requires 0 <= i < |cs| => cs[i].clientId)
  }

  /** No controller appears twice. */
  predicate Distinct<T(==)>(s: seq<T>)
  {
    forall i, j :: 0 <= i < j < |s| ==> s[i] != s[j]
  }

  /** `Array.indexOf`: the position of the first occurrence of `x`, or -1. */
  function IndexOf<T(==)>(s: seq<T>, x: T): (i: int)
    ensures i == -1 <==> x !in s
    ensures i != -1 ==> 0 <= i < |s| && s[i] == x && x !in s[..i]
  {
    if s == [] then -1
    else if s[0] == x then 0
    else
      var j := IndexOf(s[1..], x);
      assert x in s ==> x in s[1..];
      if j == -1 then -1
      else
        assert s[..j + 1] == [s[0]] + s[1..][..j];
        j + 1
  }

  /**
   * `Array.remove`: splice out the first occurrence of `x`, if any; the rest
   * keeps its order.
   */
  function RemoveFirst<T(==)>(s: seq<T>, x: T): (r: seq<T>)
    ensures x !in s ==> r == s
    ensures x in s ==> |r| == |s| - 1
  {
    var i := IndexOf(s, x);
    if i > -1 then s[..i] + s[i + 1..] else s
  }

  /** Exactly one occurrence of `x` goes, whatever else the list holds. */
  lemma RemoveFirstTakesOneOccurrence<T>(s: seq<T>, x: T)
    ensures multiset(RemoveFirst(s, x)) == multiset(s) - multiset{x}
  {
    var i := IndexOf(s, x);
    if i > -1 {
      var before, after := s[..i], s[i + 1..];
      assert s == before + [x] + after;
      assert multiset(s) == multiset(before) + multiset{x} + multiset(after);
      assert RemoveFirst(s, x) == before + after;
      assert multiset(before + after) == multiset(before) + multiset(after);
    } else {
      assert multiset(s)[x] == 0;
    }
  }

  /** Cutting position `i` out of a sequence shifts the later elements down by one. */
  lemma CutAt<T>(s: seq<T>, i: nat, k: nat)
    requires i < |s| && k < |s| - 1
    ensures (s[..i] + s[i + 1..])[k] == s[if k < i then k else k + 1]
  {
  }

  /** Removing a controller from a list without repeats takes that controller out and leaves no repeats. */
  lemma {:induction false} RemoveFirstOfDistinct<T>(s: seq<T>, x: T)
    requires Distinct(s)
    ensures Distinct(RemoveFirst(s, x)) && x !in RemoveFirst(s, x)
  {
    var r := RemoveFirst(s, x);
    if x in s {
      var i := IndexOf(s, x);
      assert r == s[..i] + s[i + 1..];
      forall a, b | 0 <= a < b < |r|
        ensures r[a] != r[b]
      {
        CutAt(s, i, a);
        CutAt(s, i, b);
      }
      forall k | 0 <= k < |r|
        ensures r[k] != x
      {
        CutAt(s, i, k);
      }
    }
  }

  /** Every other controller stays registered. */
  lemma {:induction false} RemoveFirstKeepsOthers<T>(s: seq<T>, x: T, y: T)
    requires y != x
    ensures y in RemoveFirst(s, x) <==> y in s
  {
    var r := RemoveFirst(s, x);
    if x in s {
      var i := IndexOf(s, x);
      assert s == s[..i] + [x] + s[i + 1..];
      assert r == s[..i] + s[i + 1..];
    }
  }
}
