/**
  The data stage of a control-IN transfer: how the device cuts it into packets,
  and a host that reads it by the rule of section 5.5.3 of the USB 2.0
  specification.
 */
module Ep0Transfer {
  import opened Words
  import opened PacketMemory

  /** How endpoint 0 answers the host's next IN token. */
  datatype Answer = Nak | Stall | Data(packet: seq<byte>)

  /** The transfer in flight: the queued packet, what is still to go and the budget it was cut to. */
  datatype InTransfer = InTransfer(answer: Answer, rest: seq<byte>, owesZlp: bool, reqLen: u16)

  /** Nothing in flight. */
  function Quiet(answer: Answer, reqLen: u16): InTransfer {
    InTransfer(answer, [], false, reqLen)
  }

  function NextChunk(t: InTransfer): InTransfer {
    var n := Min(|t.rest|, EP0_MAX_SIZE);
    t.(answer := Data(t.rest[..n]), rest := t.rest[n..])
  }

  /** The part of `data` that a request for `reqLen` bytes is answered with. */
  function Clip(data: seq<byte>, reqLen: u16): seq<byte> {
    data[..Min(|data|, reqLen)]
  }

  function Send(data: seq<byte>, reqLen: u16): InTransfer {
    var d := Clip(data, reqLen);
    NextChunk(InTransfer(Nak, d, 0 < |d| < reqLen && |d| % EP0_MAX_SIZE == 0, reqLen))
  }

  /** The completion handler: queue the next packet, or the owed empty one, or nothing. */
  function OnCompletion(t: InTransfer): InTransfer {
    if t.rest != [] then NextChunk(t)
    else if t.owesZlp then t.(answer := Data([]), owesZlp := false)
    else t
  }

  /** The host took the queued packet: the controller turns to NAK and the handler runs. */
  function Taken(t: InTransfer): InTransfer {
    OnCompletion(t.(answer := Nak))
  }

  /** Packets that follow the queued one. */
  function Outstanding(t: InTransfer): nat {
    |t.rest| + if t.owesZlp then 1 else 0
  }

  /** The host ends a data stage on a short packet or when it has all it asked for. */
  predicate HostStops(last: nat, total: nat, reqLen: u16) {
    last < 64 || total >= reqLen
  }

  /** What the host has when it stops, or when the device has nothing more to give. */
  datatype Reception = Reception(data: seq<byte>, packets: nat, stopped: bool, end: InTransfer)

  function HostReads(t: InTransfer, got: seq<byte>, packets: nat): (r: Reception)
    requires t.answer.Data?
    decreases Outstanding(t)
  {
    var got' := got + t.answer.packet;
    var stops := HostStops(|t.answer.packet|, |got'|, t.reqLen);
    if stops || Outstanding(t) == 0 then Reception(got', packets + 1, stops, t)
    else HostReads(Taken(t), got', packets + 1)
  }

  /** The host reads the data stage that `data` was handed to. */
  function HostReceives(data: seq<byte>, reqLen: u16): Reception {
    HostReads(Send(data, reqLen), [], 0)
  }

  /** Packets a data stage of `n` bytes takes when `reqLen` were asked for. */
  function PacketCount(n: nat, reqLen: u16): nat {
    if n < reqLen then n / 64 + 1 else if n == 0 then 1 else (n + 63) / 64
  }

  /** `t` is on its way to deliver `d`, of which the host has `got`. */
  ghost predicate Delivering(t: InTransfer, d: seq<byte>, got: seq<byte>) {
    && t.answer.Data? && |t.answer.packet| <= EP0_MAX_SIZE
    && got + t.answer.packet + t.rest == d && |d| <= t.reqLen
    && |got| % EP0_MAX_SIZE == 0
    && (Outstanding(t) != 0 ==> |t.answer.packet| == EP0_MAX_SIZE)
    && (t.owesZlp ==> |d| < t.reqLen && |d| % EP0_MAX_SIZE == 0)
    && (!t.owesZlp && |d| < t.reqLen && |d| % EP0_MAX_SIZE == 0 ==> |t.answer.packet| == 0 && t.rest == [])
    && (|d| == t.reqLen && 0 < |d| ==> |t.answer.packet| > 0)
  }

  lemma {:induction false} HostReadsAll(t: InTransfer, d: seq<byte>, got: seq<byte>, packets: nat)
    requires Delivering(t, d, got)
    ensures HostReads(t, got, packets).stopped
    ensures HostReads(t, got, packets).data == d
    ensures Outstanding(HostReads(t, got, packets).end) == 0
    ensures HostReads(t, got, packets).packets == packets + PacketCount(|d|, t.reqLen) - |got| / EP0_MAX_SIZE
    decreases Outstanding(t)
  {
    var got' := got + t.answer.packet;
    if Outstanding(t) != 0 {
      assert got' + t.rest == d;
      assert t.rest != [] ==> got' + t.rest[..Min(|t.rest|, EP0_MAX_SIZE)] + t.rest[Min(|t.rest|, EP0_MAX_SIZE)..] == d;
      HostReadsAll(Taken(t), d, got', packets + 1);
    }
  }

  /**
    For every reply and every wLength the host gets the clipped reply, and its stop
    rule fires exactly on the last packet the device queues.
   */
  lemma PacketisationCorrect(data: seq<byte>, reqLen: u16)
    ensures var r := HostReceives(data, reqLen);
      && r.data == Clip(data, reqLen)
      && r.stopped && Outstanding(r.end) == 0
      && r.packets == PacketCount(|Clip(data, reqLen)|, reqLen)
  {
    HostReadsAll(Send(data, reqLen), Clip(data, reqLen), [], 0);
  }

  lemma {:induction false} HostReadsAtMost(t: InTransfer, got: seq<byte>, packets: nat)
    requires t.answer.Data?
    ensures |HostReads(t, got, packets).data| <= |got| + |t.answer.packet| + |t.rest|
    decreases Outstanding(t)
  {
    if Outstanding(t) != 0 {
      HostReadsAtMost(Taken(t), got + t.answer.packet, packets + 1);
    }
  }

  /**
    When a stale completion sits in the same register snapshot as the SETUP, its
    handler runs right behind the reply and overwrites the queued packet with the
    next one. The reply survives exactly when it is a single packet.
   */
  lemma StaleCompletion(data: seq<byte>, reqLen: u16)
    ensures HostReads(OnCompletion(Send(data, reqLen)), [], 0).data == Clip(data, reqLen)
       <==> Outstanding(Send(data, reqLen)) == 0
    ensures Outstanding(Send(data, reqLen)) == 0
       <==> |Clip(data, reqLen)| < EP0_MAX_SIZE || |Clip(data, reqLen)| == EP0_MAX_SIZE == reqLen
  {
    PacketisationCorrect(data, reqLen);
    HostReadsAtMost(OnCompletion(Send(data, reqLen)), [], 0);
  }
}
