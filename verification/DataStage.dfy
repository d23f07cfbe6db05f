/**
  A host reading a reply packet by packet, as events of the device: the acknowledged
  packets, and when a SET_ADDRESS takes effect on them.
 */
module DataStage {
  import opened Words
  import opened Ep0Transfer
  import opened DfuProtocol

  lemma {:induction false} DeviceRunAppend(d: Device, a: seq<Event>, b: seq<Event>, descriptors: Descriptors)
    requires d.dfu.Wf()
    ensures DeviceRun(d, a + b, descriptors) == DeviceRun(DeviceRun(d, a, descriptors), b, descriptors)
    decreases |b|
  {
    if b == [] {
      assert a + b == a;
    } else {
      assert (a + b)[..|a + b| - 1] == a + b[..|b| - 1];
      DeviceRunAppend(d, a, b[..|b| - 1], descriptors);
    }
  }

  lemma DeviceRunSnoc(d: Device, events: seq<Event>, e: Event, descriptors: Descriptors)
    requires d.dfu.Wf()
    ensures DeviceRun(d, events + [e], descriptors) == DeviceStep(DeviceRun(d, events, descriptors), e, descriptors)
  {
    assert (events + [e])[..|events|] == events;
  }

  function Completions(n: nat): (events: seq<Event>)
    ensures |events| == n
  {
    if n == 0 then [] else Completions(n - 1) + [InDone]
  }

  /** The transfer in flight after `n` packets were taken. */
  function TakenTimes(t: InTransfer, n: nat): InTransfer {
    if n == 0 then t else Taken(TakenTimes(t, n - 1))
  }

  lemma CompletionTakesPacket(d: Device, descriptors: Descriptors)
    requires d.dfu.Wf()
    ensures DeviceStep(d, InDone, descriptors).dfu == d.dfu
    ensures DeviceStep(d, InDone, descriptors).ep0 == Taken(d.ep0)
  {
  }

  /** Completions move only the transfer in flight, one packet each. */
  lemma {:induction false} CompletionsTakePackets(d: Device, n: nat, descriptors: Descriptors)
    requires d.dfu.Wf()
    ensures DeviceRun(d, Completions(n), descriptors).dfu == d.dfu
    ensures DeviceRun(d, Completions(n), descriptors).ep0 == TakenTimes(d.ep0, n)
    decreases n
  {
    if n > 0 {
      var before := DeviceRun(d, Completions(n - 1), descriptors);
      CompletionsTakePackets(d, n - 1, descriptors);
      DeviceRunSnoc(d, Completions(n - 1), InDone, descriptors);
      CompletionTakesPacket(before, descriptors);
    }
  }

  lemma {:induction false} TakenFirst(t: InTransfer, n: nat)
    ensures TakenTimes(Taken(t), n) == TakenTimes(t, n + 1)
    decreases n
  {
    if n > 0 {
      TakenFirst(t, n - 1);
    }
  }

  /** The host's reading ends where as many completions leave the transfer. */
  lemma {:induction false} ReadingIsCompletions(t: InTransfer, got: seq<byte>, packets: nat)
    requires t.answer.Data?
    ensures packets < HostReads(t, got, packets).packets
    ensures HostReads(t, got, packets).end == TakenTimes(t, HostReads(t, got, packets).packets - packets - 1)
    decreases Outstanding(t)
  {
    var got' := got + t.answer.packet;
    if !HostStops(|t.answer.packet|, |got'|, t.reqLen) && Outstanding(t) != 0 {
      ReadingIsCompletions(Taken(t), got', packets + 1);
      TakenFirst(t, HostReads(t, got, packets).packets - packets - 2);
    }
  }

  // ----- the bus address ------------------------------------------------------------

  predicate IsSetAddress(s: Setup) {
    s.Standard() && s.bRequest == USB_REQ_SET_ADDRESS
  }

  /** One event at a time, the bus address moves only on a bus reset and when a whole reply was taken. */
  lemma BusAddressMoves(d: Device, e: Event, descriptors: Descriptors)
    requires d.dfu.Wf()
    ensures DeviceStep(d, e, descriptors).busAddress ==
      if e.BusReset? then 0
      else if e.InDone? && Outstanding(d.ep0) == 0 && d.pendingAddress != 0 then d.pendingAddress
      else d.busAddress
  {
  }

  /** The device with the waiting address, if there is one, in effect. */
  function AddressApplied(d: Device): (r: Device) {
    if d.pendingAddress == 0 then d else d.(busAddress := d.pendingAddress, pendingAddress := 0)
  }

  /** `r` has the bus address of `d`, with the waiting one in effect if `applied`. */
  predicate AddressAs(r: Device, d: Device, applied: bool) {
    var done := if applied then AddressApplied(d) else d;
    r.busAddress == done.busAddress && r.pendingAddress == done.pendingAddress
  }

  /** One of the first `n` packets of the reply was its last. */
  predicate LastTaken(t: InTransfer, n: nat) {
    0 < n && Outstanding(TakenTimes(t, n - 1)) == 0
  }

  lemma StaysTaken(t: InTransfer, n: nat)
    requires LastTaken(t, n)
    ensures LastTaken(t, n + 1)
  {
    assert TakenTimes(t, n) == Taken(TakenTimes(t, n - 1));
  }

  /** A completion behind the last packet applies the waiting address; an earlier one leaves it. */
  lemma CompletionAddress(d: Device, before: Device, applied: bool, descriptors: Descriptors)
    requires before.dfu.Wf() && AddressAs(before, d, applied) && (applied ==> Outstanding(before.ep0) == 0)
    ensures AddressAs(DeviceStep(before, InDone, descriptors), d, Outstanding(before.ep0) == 0)
  {
  }

  /** Completions apply the waiting address once the last packet of the reply is taken, not earlier. */
  lemma {:induction false} CompletionsApplyAddress(d: Device, n: nat, descriptors: Descriptors)
    requires d.dfu.Wf()
    ensures AddressAs(DeviceRun(d, Completions(n), descriptors), d, LastTaken(d.ep0, n))
    decreases n
  {
    if n > 0 {
      var m := n - 1;
      CompletionsApplyAddress(d, m, descriptors);
      CompletionsTakePackets(d, m, descriptors);
      DeviceRunSnoc(d, Completions(m), InDone, descriptors);
      if LastTaken(d.ep0, m) {
        StaysTaken(d.ep0, m);
      }
      CompletionAddress(d, DeviceRun(d, Completions(m), descriptors), LastTaken(d.ep0, m), descriptors);
    }
  }

  /** The device once the host has read the reply it is answering with. */
  function AfterReply(d: Device, descriptors: Descriptors): (r: Device)
    requires d.dfu.Wf() && d.ep0.answer.Data?
    ensures r.dfu.Wf()
  {
    DeviceRun(d, Completions(HostReads(d.ep0, [], 0).packets), descriptors)
  }

  /** A reply the host can read to its end. */
  ghost predicate Readable(t: InTransfer) {
    t.answer.Data? && HostReads(t, [], 0).stopped && Outstanding(HostReads(t, [], 0).end) == 0
  }

  /** With the last packet of a reply the host takes, the waiting address takes effect. */
  lemma ReplyTaken(d: Device, descriptors: Descriptors)
    requires d.dfu.Wf() && Readable(d.ep0)
    ensures var r := AfterReply(d, descriptors);
      r.busAddress == AddressApplied(d).busAddress && r.pendingAddress == 0
  {
    var n := HostReads(d.ep0, [], 0).packets;
    ReadingIsCompletions(d.ep0, [], 0);
    assert LastTaken(d.ep0, n);
    CompletionsApplyAddress(d, n, descriptors);
  }

  /** Every reply to a SETUP is one the host can read to its end. */
  lemma ReplyReadToTheEnd(d: Device, s: Setup, descriptors: Descriptors)
    requires d.dfu.Wf() && OnSetup(d, s, descriptors).ep0.answer.Data?
    ensures Readable(OnSetup(d, s, descriptors).ep0)
  {
    var response :=
      if s.Standard() then StandardResponse(s, descriptors)
      else if s.Class() then ClassResponse(d.dfu, s)
      else Stalled;
    if response.Reply? {
      PacketisationCorrect(response.data, s.wLength);
    }
  }

  /** The device behind a bus reset and one request. */
  function ResetThen(d: Device, s: Setup, descriptors: Descriptors): (r: Device)
    requires d.dfu.Wf()
    ensures r.dfu.Wf() && r == DeviceRun(d, [BusReset, SetupEvent(s)], descriptors)
  {
    DeviceRunPair(d, BusReset, SetupEvent(s), descriptors);
    OnSetup(OnReset(d), s, descriptors)
  }

  lemma DeviceRunPair(d: Device, e: Event, f: Event, descriptors: Descriptors)
    requires d.dfu.Wf()
    ensures DeviceRun(d, [e, f], descriptors) == DeviceStep(DeviceStep(d, e, descriptors), f, descriptors)
  {
    DeviceRunSnoc(d, [], e, descriptors);
    assert [] + [e] == [e];
    DeviceRunSnoc(d, [e], f, descriptors);
    assert [e] + [f] == [e, f];
  }

  /**
    A bus reset does not forget a SET_ADDRESS whose status stage never came. Whatever
    other request the host makes first behind the reset, once its reply is taken the
    device is at address 0 exactly when no address was waiting.
   */
  lemma StaleBusAddress(d: Device, s: Setup, descriptors: Descriptors)
    requires d.dfu.Wf() && !IsSetAddress(s) && ResetThen(d, s, descriptors).ep0.answer.Data?
    ensures var r := AfterReply(ResetThen(d, s, descriptors), descriptors);
      r.busAddress == d.pendingAddress && (r.busAddress == 0 <==> d.pendingAddress == 0)
  {
    ReplyReadToTheEnd(OnReset(d), s, descriptors);
    ReplyTaken(ResetThen(d, s, descriptors), descriptors);
  }

  /** Such a SET_ADDRESS: the request, then the reset before its status stage. */
  lemma AddressOutlivesReset(d: Device, s: Setup, descriptors: Descriptors)
    requires d.dfu.Wf() && IsSetAddress(s)
    ensures var r := DeviceRun(d, [SetupEvent(s), BusReset], descriptors);
      r.busAddress == 0 && r.pendingAddress == s.wValue % 0x80
  {
    DeviceRunPair(d, SetupEvent(s), BusReset, descriptors);
  }
}
