/**
  What one poll of the register snapshot makes of the device, and runs of polls:
  nothing, one event, or a completion and a reception that came between two polls.
 */
module Polling {
  import opened Words
  import opened Ep0Transfer
  import opened DfuProtocol
  import opened DataStage
  import opened UsbPeripheral

  /** The device after one poll: reception is served before transmission. */
  ghost function Polled(d: Device, s: Snapshot, descriptors: Descriptors): Device
    requires d.dfu.Wf()
  {
    if s.reset then OnReset(d)
    else
      var r :=
        if !s.flags.ctrRx then d
        else if s.flags.setup then OnSetup(d, s.setup, descriptors)
        else OnOut(d, s.packet);
      if s.flags.ctrTx then OnInDone(r) else r
  }

  /**
    A SETUP and a completion in one snapshot: the completion is handled behind the
    request it does not belong to. The host can still read the whole reply, at the
    address it expects the device at, exactly when the reply is a single packet and
    the request leaves no other address waiting.
   */
  lemma CoalescedSetup(d: Device, s: Snapshot, descriptors: Descriptors)
    requires d.dfu.Wf() && !s.reset && s.flags.ctrRx && s.flags.setup && s.flags.ctrTx
    ensures var asked, r := OnSetup(d, s.setup, descriptors), Polled(d, s, descriptors);
      && (r.ep0 == asked.ep0 && r.busAddress == d.busAddress
          <==> Outstanding(asked.ep0) == 0 && asked.pendingAddress in {0, d.busAddress})
      && (r.ep0 == asked.ep0 <==> Outstanding(asked.ep0) == 0)
      && (r.busAddress == if Outstanding(asked.ep0) == 0 then AddressApplied(asked).busAddress else d.busAddress)
  {
  }

  /**
    So a SET_ADDRESS behind a completion moves the device before its status stage:
    the status packet is still queued, at the new address.
   */
  lemma CoalescedSetAddress(d: Device, s: Snapshot, descriptors: Descriptors)
    requires d.dfu.Wf() && !s.reset && s.flags.ctrRx && s.flags.setup && s.flags.ctrTx && IsSetAddress(s.setup)
    ensures var r, address := Polled(d, s, descriptors), s.setup.wValue % 0x80;
      && r.ep0 == Quiet(Data([]), s.setup.wLength) && r.pendingAddress == 0
      && r.busAddress == if address == 0 then d.busAddress else address
  {
  }

  /** An OUT packet and a completion in one snapshot: the packet first, and what it queues stays queued. */
  lemma CoalescedPacket(d: Device, s: Snapshot, descriptors: Descriptors)
    requires d.dfu.Wf() && !s.reset && s.flags.ctrRx && !s.flags.setup && s.flags.ctrTx
    ensures var taken, r := DeviceStep(d, Out(s.packet), descriptors), Polled(d, s, descriptors);
      && r.dfu == taken.dfu
      && (Outstanding(taken.ep0) == 0 ==> r.ep0 == taken.ep0 && r.busAddress == AddressApplied(taken).busAddress)
      && (Outstanding(taken.ep0) != 0 ==> r.ep0 == OnCompletion(taken.ep0) && r.busAddress == d.busAddress)
  {
  }

  /** A poll that finds a bus reset serves that and nothing else, whatever the endpoint register shows. */
  lemma ResetServedAlone(d: Device, s: Snapshot, descriptors: Descriptors)
    requires d.dfu.Wf() && s.reset
    ensures Polled(d, s, descriptors) == DeviceStep(d, BusReset, descriptors)
  {
  }

  // ----- ticks ----------------------------------------------------------------

  /**
    What the bus brings before an iteration polls it: nothing, an event, or the
    acknowledgement of the queued packet and then a SETUP or OUT packet.
   */
  datatype Tick = Silent | Bus(event: Event) | Coalesced(reception: Event) {
    predicate Deliverable() {
      match this
      case Silent => true
      case Bus(e) => DfuProtocol.Deliverable(e)
      case Coalesced(e) => (e.SetupEvent? || e.Out?) && DfuProtocol.Deliverable(e)
    }

    /** The events in the order they came. */
    function Events(): seq<Event> {
      match this
      case Silent => []
      case Bus(e) => [e]
      case Coalesced(e) => [InDone, e]
    }
  }

  ghost predicate AllDeliverable(ticks: seq<Tick>) {
    forall t :: t in ticks ==> t.Deliverable()
  }

  function EventsOf(ticks: seq<Tick>): (events: seq<Event>) {
    if ticks == [] then [] else EventsOf(ticks[..|ticks| - 1]) + ticks[|ticks| - 1].Events()
  }

  /** The device with the queued packet acknowledged and not yet served. */
  function Acknowledged(d: Device): Device {
    d.(ep0 := d.ep0.(answer := Nak))
  }

  /** The device after one tick and the poll behind it. */
  function TickStep(d: Device, t: Tick, descriptors: Descriptors): (r: Device)
    requires d.dfu.Wf()
    ensures r.dfu == Run(d.dfu, t.Events())
  {
    match t
    case Silent => d
    case Bus(e) => RunOne(d.dfu, e); DeviceStep(d, e, descriptors)
    case Coalesced(e) =>
      RunPair(d.dfu, InDone, e);
      OnInDone(DeviceStep(Acknowledged(d), e, descriptors))
  }

  lemma RunPair(c: Dfu, e: Event, f: Event)
    requires c.Wf()
    ensures Run(c, [e, f]) == Step(Step(c, e), f)
  {
    RunOne(c, e);
    RunSnoc(c, [e], f);
    assert [e] + [f] == [e, f];
  }

  /** The device after a run of ticks. */
  function TickRun(d: Device, ticks: seq<Tick>, descriptors: Descriptors): (r: Device)
    requires d.dfu.Wf()
    ensures r.dfu == Run(d.dfu, EventsOf(ticks))
    decreases |ticks|
  {
    if ticks == [] then d
    else
      var before, t := ticks[..|ticks| - 1], ticks[|ticks| - 1];
      RunAppend(d.dfu, EventsOf(before), t.Events());
      TickStep(TickRun(d, before, descriptors), t, descriptors)
  }

  /** What the snapshot shows when the tick came to a device with nothing pending. */
  predicate Shows(s: Snapshot, t: Tick) {
    match t
    case Silent => !s.reset && !s.flags.ctrRx && !s.flags.ctrTx
    case Bus(e) =>
      && s.reset == e.BusReset?
      && s.flags.ctrRx == (e.SetupEvent? || e.Out?) && s.flags.ctrTx == e.InDone?
      && (e.SetupEvent? ==> s.flags.setup && s.setup == e.setup)
      && (e.Out? ==> !s.flags.setup && s.packet == e.packet)
    case Coalesced(e) =>
      && !s.reset && s.flags.ctrRx && s.flags.ctrTx
      && (e.SetupEvent? ==> s.flags.setup && s.setup == e.setup)
      && (e.Out? ==> !s.flags.setup && s.packet == e.packet)
  }

  /** What the controller itself makes of a tick, before the poll. */
  function Posted(d: Device, t: Tick): Device {
    if t.Silent? || (t.Bus? && t.event.Out?) then d else Acknowledged(d)
  }

  /** Polling right after a tick is one step of the run. */
  lemma PolledIsStep(d: Device, t: Tick, s: Snapshot, descriptors: Descriptors)
    requires d.dfu.Wf() && t.Deliverable() && Shows(s, t)
    ensures Polled(Posted(d, t), s, descriptors) == TickStep(d, t, descriptors)
  {
  }
}
