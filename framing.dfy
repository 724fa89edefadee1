/**
 * The binary voice packet of the data channel:
 *
 *   [head flag][fragmented flag][id, 16 bits big-endian][codec][payload ...]
 *
 * On the way out bytes 2-3 carry the sender's wrapping packet id; on the way
 * in the relay has replaced them by the id of the speaking client.  Both
 * interpretations are modelled, each on its own side.
 */
module Framing {
  import opened Wrappers

  newtype byte = x: int | 0 <= x < 256

  /** Size of the fixed header in front of the codec payload. */
  const HeaderSize: nat := 5

  /** Largest packet id; the next one after it is 0. */
  const MaxPacketId: int := 0xFFFF

  /** Number of packets after a voice burst starts that carry the head flag. */
  const HeadWindow: nat := 5

  /** One encoded frame waiting in the send queue (`{data, codec}`). */
  datatype Frame = Frame(data: seq<byte>, codec: int)

  /** The session's two send counters: `voice_packet_id` and `chunkVPacketId`. */
  datatype Counters = Counters(packetId: int, chunk: nat)

  predicate ValidCounters(c: Counters)
  {
    0 <= c.packetId <= MaxPacketId
  }

  /** The id that `send_voice_packet` stores before using it: increment, back to 0 past 65535. */
  function NextPacketId(id: int): (r: int)
    requires 0 <= id <= MaxPacketId
    ensures 0 <= r <= MaxPacketId
    ensures r == (id + 1) % (MaxPacketId + 1)
  {
    if id + 1 > MaxPacketId then 0 else id + 1
  }

  /**
   * The bytes of one outbound packet; the codec is stored as a `Uint8Array`
   * element, that is, modulo 256.
   */
  function BuildPacket(head: bool, packetId: int, codec: int, payload: seq<byte>): (p: seq<byte>)
    requires 0 <= packetId <= MaxPacketId
    ensures |p| == |payload| + HeaderSize
    ensures p[HeaderSize..] == payload
  {
    [ if head then 1 else 0,
      0,
      ((packetId / 256) % 256) as byte,
      (packetId % 256) as byte,
      (codec % 256) as byte
    ] + payload
  }

  /** The fields `on_data_channel_message` reads from an inbound packet. */
  datatype Header = Header(clientId: int, codec: Option<byte>, payload: seq<byte>)

  /** A byte of the packet as a bitwise operand: a missing byte reads as `undefined`, which counts as 0. */
  function OperandAt(bin: seq<byte>, i: nat): int
  {
    if i < |bin| then bin[i] as int else 0
  }

  /**
   * Header/payload split of an inbound packet: client id from bytes 2-3
   * (`bin[2] << 8 | bin[3]`), codec from byte 4 (missing if the packet is
   * shorter), payload from byte 5 on.
   */
  function ParseHeader(bin: seq<byte>): (h: Header)
    ensures 0 <= h.clientId <= MaxPacketId
    ensures h.codec.Some? <==> |bin| >= HeaderSize
    ensures |bin| >= HeaderSize ==> h.codec == Some(bin[4]) && h.payload == bin[HeaderSize..]
                                    && h.clientId == bin[2] as int * 256 + bin[3] as int
  {
    Header(OperandAt(bin, 2) * 256 + OperandAt(bin, 3),
           if |bin| >= HeaderSize then Some(bin[4]) else None,
           if |bin| >= HeaderSize then bin[HeaderSize..] else [])
  }

  /** Layout of a built packet, and what the receiving side reads back from it. */
  lemma BuiltPacketLayout(head: bool, packetId: int, codec: int, payload: seq<byte>)
    requires 0 <= packetId <= MaxPacketId
    ensures var p := BuildPacket(head, packetId, codec, payload);
            && p[0] == (if head then 1 else 0)
            && p[1] == 0
            && p[2] as int == packetId / 256 && p[3] as int == packetId % 256
            && p[4] as int == codec % 256
            && ParseHeader(p) == Header(packetId, Some((codec % 256) as byte), payload)
  {
  }

  /** Any packet of at least five bytes is rebuilt from its parsed fields and head flag. */
  lemma {:induction false} ParseThenBuild(bin: seq<byte>)
    requires |bin| >= HeaderSize && bin[0] <= 1 && bin[1] == 0
    ensures var h := ParseHeader(bin);
            BuildPacket(bin[0] == 1, h.clientId, h.codec.value as int, h.payload) == bin
  {
    var h := ParseHeader(bin);
    var p := BuildPacket(bin[0] == 1, h.clientId, h.codec.value as int, h.payload);
    assert p[2] == bin[2] && p[3] == bin[3];
    assert p[..HeaderSize] == bin[..HeaderSize];
    assert bin == bin[..HeaderSize] + bin[HeaderSize..];
  }

  /**
   * `send_voice_packet` with an open data channel: advance the id, take the
   * head flag from the burst counter before incrementing it, build the packet.
   */
  function SendStep(c: Counters, f: Frame): (r: (Counters, seq<byte>))
    requires ValidCounters(c)
    ensures ValidCounters(r.0)
  {
    var id := NextPacketId(c.packetId);
    (Counters(id, c.chunk + 1), BuildPacket(c.chunk < HeadWindow, id, f.codec, f.data))
  }

  /** `n` ticks of the send task over the queue `q` with the channel open: counters after, packets sent. */
  function Drain(c: Counters, q: seq<Frame>, n: nat): (r: (Counters, seq<seq<byte>>))
    requires ValidCounters(c) && n <= |q|
    decreases n
    ensures ValidCounters(r.0) && |r.1| == n
  {
    if n == 0 then (c, [])
    else
      var step := SendStep(c, q[0]);
      var rest := Drain(step.0, q[1..], n - 1);
      (rest.0, [step.1] + rest.1)
  }

  /** One tick of `Drain`: the first frame is sent, the rest is drained from the counters it leaves. */
  lemma DrainStep(c: Counters, q: seq<Frame>, n: nat)
    requires ValidCounters(c) && 0 < n <= |q|
    ensures var step := SendStep(c, q[0]);
            var rest := Drain(step.0, q[1..], n - 1);
            Drain(c, q, n) == (rest.0, [step.1] + rest.1)
  {
  }

  /** The packet id after `n` sends starting from `id`. */
  function IdAfter(id: int, n: nat): (r: int)
    requires 0 <= id <= MaxPacketId
    ensures 0 <= r <= MaxPacketId
    decreases n
  {
    if n == 0 then id else IdAfter(NextPacketId(id), n - 1)
  }

  /** `n` sends advance the id by `n` modulo 65536. */
  lemma {:induction false} IdAfterIsModular(id: int, n: nat)
    requires 0 <= id <= MaxPacketId
    ensures IdAfter(id, n) == (id + n) % (MaxPacketId + 1)
    decreases n
  {
    if n > 0 {
      IdAfterIsModular(NextPacketId(id), n - 1);
      IdAfterSteps(id, n - 1);
    }
  }

  /** Draining `n` frames advances the id by `n` modulo 65536 and the burst counter by `n`. */
  lemma DrainAdvancesCounters(c: Counters, q: seq<Frame>, n: nat)
    requires ValidCounters(c) && n <= |q|
    ensures Drain(c, q, n).0 == Counters((c.packetId + n) % (MaxPacketId + 1), c.chunk + n)
  {
    DrainCounters(c, q, n);
    IdAfterIsModular(c.packetId, n);
  }

  /** The counters after draining, step by step. */
  lemma {:induction false} DrainCounters(c: Counters, q: seq<Frame>, n: nat)
    requires ValidCounters(c) && n <= |q|
    ensures Drain(c, q, n).0 == Counters(IdAfter(c.packetId, n), c.chunk + n)
    decreases n
  {
    if n > 0 {
      var c1 := SendStep(c, q[0]).0;
      DrainStep(c, q, n);
      DrainCounters(c1, q[1..], n - 1);
    }
  }

  /**
   * The send queue is first in, first out: the k-th tick sends the k-th
   * queued frame, under id `packetId + k + 1` modulo 65536, with the head flag
   * set exactly while fewer than five packets of the burst have gone out.
   */
  lemma DrainSendsInQueueOrder(c: Counters, q: seq<Frame>, n: nat, k: nat)
    requires ValidCounters(c) && k < n <= |q|
    ensures Drain(c, q, n).1[k]
         == BuildPacket(c.chunk + k < HeadWindow, (c.packetId + k + 1) % (MaxPacketId + 1), q[k].codec, q[k].data)
  {
    DrainPacketAt(c, q, n, k);
    IdAfterIsModular(c.packetId, k + 1);
  }

  /** The k-th packet of a drain, step by step. */
  lemma {:induction false} DrainPacketAt(c: Counters, q: seq<Frame>, n: nat, k: nat)
    requires ValidCounters(c) && k < n <= |q|
    ensures Drain(c, q, n).1[k] == BuildPacket(c.chunk + k < HeadWindow, IdAfter(c.packetId, k + 1), q[k].codec, q[k].data)
    decreases n
  {
    var c1 := SendStep(c, q[0]).0;
    DrainStep(c, q, n);
    if k > 0 {
      DrainPacketAt(c1, q[1..], n - 1, k - 1);
      assert q[1..][k - 1] == q[k];
    }
  }

  /** Counting from the id after one step is counting one further from the start. */
  lemma IdAfterSteps(id: int, m: nat)
    requires 0 <= id <= MaxPacketId
    ensures (NextPacketId(id) + m) % (MaxPacketId + 1) == (id + 1 + m) % (MaxPacketId + 1)
    ensures (NextPacketId(id) + m) % (MaxPacketId + 1) == (id + (m + 1)) % (MaxPacketId + 1)
  {
  }

  /** After any multiple of 65536 packets the id is back where it started; it never leaves 0..65535. */
  lemma PacketIdWrapsAfter65536(c: Counters, q: seq<Frame>, n: nat)
    requires ValidCounters(c) && n <= |q| && n % (MaxPacketId + 1) == 0
    ensures Drain(c, q, n).0.packetId == c.packetId
  {
    DrainAdvancesCounters(c, q, n);
    WholeCycles(c.packetId, n);
  }

  /** Adding a whole number of cycles of 65536 ids leads back to the same id. */
  lemma {:induction false} WholeCycles(id: int, n: nat)
    requires 0 <= id <= MaxPacketId && n % (MaxPacketId + 1) == 0
    ensures (id + n) % (MaxPacketId + 1) == id
    decreases n
  {
    if n > 0 {
      WholeCycles(id, n - (MaxPacketId + 1));
    }
  }

  /**
   * After a head frame reset the burst counter to 0, exactly the first five
   * packets carry the head flag.
   */
  lemma HeadFlagOnFirstFivePackets(packetId: int, q: seq<Frame>, n: nat, k: nat)
    requires 0 <= packetId <= MaxPacketId && k < n <= |q|
    ensures var p := Drain(Counters(packetId, 0), q, n).1[k];
            |p| > 0 && p[0] == (if k < HeadWindow then 1 else 0)
  {
    DrainSendsInQueueOrder(Counters(packetId, 0), q, n, k);
    BuiltPacketLayout(k < HeadWindow, (packetId + k + 1) % (MaxPacketId + 1), q[k].codec, q[k].data);
  }
}
