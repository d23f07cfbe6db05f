/**
  Hosts that keep to the protocol: a DNLOAD asks for at most wTransferSize, and an
  accepted one is followed by exactly its data unless an ABORT or bus reset cuts
  it short.
 */
module Conforming {
  import opened Words
  import opened NorFlash
  import opened DfuProtocol
  import opened Safety
  import opened Session
  import opened Download

  /** What the host owes behind an event that found the device in `c` and the host owing `owed`. */
  function OwedAfter(c: Dfu, owed: nat, e: Event): nat {
    match e
    case SetupEvent(s) => if Accepts(c, e) then s.wLength else 0
    case Out(packet) => if |packet| <= owed then owed - |packet| else 0
    case InDone => owed
    case BusReset => 0
  }

  /** Bytes the host still owes the accepted DNLOAD. */
  function Owed(c: Dfu, events: seq<Event>): nat
    requires c.Wf()
    decreases |events|
  {
    if events == [] then 0
    else
      var before := events[..|events| - 1];
      OwedAfter(Run(c, before), Owed(c, before), events[|events| - 1])
  }

  predicate Keeps(owed: nat, e: Event) {
    match e
    case SetupEvent(s) =>
      && (owed == 0 || IsRequest(e, DFU_ABORT))
      && (IsRequest(e, DFU_DNLOAD) ==> s.wLength <= DFU_XFER_SIZE)
    case Out(packet) => |packet| <= owed
    case InDone => true
    case BusReset => true
  }

  predicate ConformingRun(c: Dfu, events: seq<Event>)
    requires c.Wf()
    decreases |events|
  {
    events == []
    || (ConformingRun(c, events[..|events| - 1])
        && Keeps(Owed(c, events[..|events| - 1]), events[|events| - 1]))
  }

  /** The device holds what the host delivered: a command decoded, or data in the buffer. */
  predicate Holds(c: Dfu, owed: nat, received: seq<byte>) {
    if !InTransferState(c) then
      owed == 0 && c.pending == 0
    else if owed > 0 then
      c.state == DnloadSync && c.pending == 0 && c.data == received && |received| + owed == c.xferLen
    else
      && |received| == c.xferLen
      && if c.blockNum == 0 then c.data == [] && DecodedFrom(c, received) else c.data == received && c.pending == 0
  }

  /** The pending command is the one in the block `b`. */
  predicate DecodedFrom(c: Dfu, b: seq<byte>) {
    && b != [] && c.pending == b[0] && c.hasArg == (5 <= |b|)
    && (5 <= |b| ==> c.arg == Le32(b[1..5]))
  }

  lemma OutKeepsHolding(c: Dfu, owed: nat, received: seq<byte>, packet: seq<byte>)
    requires ControlInvariant(c) && Holds(c, owed, received) && |packet| <= owed
    ensures Holds(OutData(c, packet), owed - |packet|, received + packet)
  {
    if packet == [] {
      assert received + packet == received;
    }
  }

  lemma SetupKeepsHolding(c: Dfu, owed: nat, received: seq<byte>, e: Event)
    requires ControlInvariant(c) && Holds(c, owed, received) && e.SetupEvent? && Keeps(owed, e)
    ensures Holds(Step(c, e), if Accepts(c, e) then e.setup.wLength else 0, if Accepts(c, e) then [] else received)
  {
    if Executes(c, e) {
      ExecuteEnds(c);
    }
  }

  /** In a conforming run the device always holds exactly what the host delivered. */
  lemma {:induction false} HoldsWhatWasDelivered(c: Dfu, events: seq<Event>)
    requires ControlInvariant(c) && !InTransferState(c) && c.pending == 0 && ConformingRun(c, events)
    ensures ControlInvariant(Run(c, events))
    ensures Holds(Run(c, events), Owed(c, events), Received(c, events))
    decreases |events|
  {
    if events != [] {
      var before, e := events[..|events| - 1], events[|events| - 1];
      HoldsWhatWasDelivered(c, before);
      var d := Run(c, before);
      StepKeepsControl(d, e);
      match e
      case SetupEvent(_) => SetupKeepsHolding(d, Owed(c, before), Received(c, before), e);
      case Out(packet) => OutKeepsHolding(d, Owed(c, before), Received(c, before), packet);
      case InDone =>
      case BusReset =>
    }
  }

  /** A command is pending only while its DNLOAD is being carried out. */
  lemma PendingOnlyInTransfer(c: Dfu, events: seq<Event>)
    requires ControlInvariant(c) && !InTransferState(c) && c.pending == 0 && ConformingRun(c, events)
    ensures Run(c, events).pending != 0 ==> InTransferState(Run(c, events))
  {
    HoldsWhatWasDelivered(c, events);
  }

  /**
    Every operation a conforming run executes is the one the host sent: a data block
    is written whole at the pointer plus its offset, a command is carried out with
    the operand the host encoded.
   */
  lemma ExecutesWhatWasSent(c: Dfu, events: seq<Event>, e: Event)
    requires ControlInvariant(c) && !InTransferState(c) && c.pending == 0
    requires ConformingRun(c, events) && Executes(Run(c, events), e)
    requires Keeps(Owed(c, events), e)
    ensures var b, r, d := Run(c, events), Received(c, events), Step(Run(c, events), e);
      && |r| == b.xferLen && 1 <= |r| <= DFU_XFER_SIZE && b.blockNum != 1
      && (2 <= b.blockNum ==>
            var w := Write(b.flash, BlockAddress(b.pointer, b.blockNum), r);
            d.flash == w.flash && d.pointer == b.pointer && (d.state == DnloadIdle <==> w.ok))
      && (b.blockNum == 0 && r[0] == CMD_SET_ADDRESS && 5 <= |r| ==>
            d.flash == b.flash && d.pointer == Le32(r[1..5]) && d.state == DnloadIdle)
      && (b.blockNum == 0 && r[0] == CMD_ERASE_PAGE && 5 <= |r| ==>
            var w := Erase(b.flash, Le32(r[1..5]));
            d.flash == w.flash && d.pointer == b.pointer && (d.state == DnloadIdle <==> w.ok))
      && (b.blockNum == 0 && (5 > |r| || (r[0] != CMD_SET_ADDRESS && r[0] != CMD_ERASE_PAGE)) ==>
            d.flash == b.flash && d.pointer == b.pointer && (d.state == DnloadIdle <==> r[0] == 0))
  {
    HoldsWhatWasDelivered(c, events);
  }

  // ----- download sessions conform ------------------------------------------------

  /** The run conforms and leaves the host owing `owed` bytes. */
  predicate Conforms(c: Dfu, events: seq<Event>, owed: nat)
    requires c.Wf()
  {
    ConformingRun(c, events) && Owed(c, events) == owed
  }

  lemma ConformsSnoc(c: Dfu, events: seq<Event>, owed: nat, e: Event)
    requires c.Wf() && Conforms(c, events, owed) && Keeps(owed, e)
    ensures Conforms(c, events + [e], OwedAfter(Run(c, events), owed, e))
  {
    assert (events + [e])[..|events|] == events;
  }

  lemma {:induction false} OutsConform(c: Dfu, events: seq<Event>, owed: nat, packets: seq<seq<byte>>)
    requires c.Wf() && Conforms(c, events, owed) && |Flatten(packets)| <= owed
    ensures Conforms(c, events + Outs(packets), owed - |Flatten(packets)|)
    decreases |packets|
  {
    if packets == [] {
      assert events + Outs(packets) == events;
    } else {
      var m := |packets| - 1;
      OutsConform(c, events, owed, packets[..m]);
      ConformsSnoc(c, events + Outs(packets[..m]), owed - |Flatten(packets[..m])|, Out(packets[m]));
      assert events + Outs(packets[..m]) + [Out(packets[m])] == events + Outs(packets);
    }
  }

  /** A transfer to an idle device conforms and leaves nothing owed. */
  lemma TransferConforms(c: Dfu, t: Transfer)
    requires c.Wf() && Idle(c) && t.Wf()
    ensures Conforms(c, t.Events(), 0)
  {
    var setup := ClassSetup(DFU_DNLOAD, t.block, |t.Payload()|);
    var dataStage := [setup] + Outs(t.packets);
    assert Run(c, []) == c && Accepts(c, setup);
    ConformsSnoc(c, [], 0, setup);
    assert [] + [setup] == [setup];
    OutsConform(c, [setup], |t.Payload()|, t.packets);
    ConformsSnoc(c, dataStage, 0, GETSTATUS_EVENT);
    ConformsSnoc(c, dataStage + [GETSTATUS_EVENT], 0, GETSTATUS_EVENT);
    assert dataStage + [GETSTATUS_EVENT] + [GETSTATUS_EVENT] == t.Events();
  }

  /** Runs that conform follow each other when nothing is owed in between. */
  lemma {:induction false} ConformsAppend(c: Dfu, a: seq<Event>, d: Dfu, b: seq<Event>)
    requires Leads(c, a, d) && Conforms(c, a, 0) && d.Wf() && ConformingRun(d, b)
    ensures Conforms(c, a + b, Owed(d, b))
    decreases |b|
  {
    LeadsTo(c, a, d);
    if b == [] {
      assert a + b == a;
    } else {
      var m := |b| - 1;
      ConformsAppend(c, a, d, b[..m]);
      RunAppend(c, a, b[..m]);
      ConformsSnoc(c, a + b[..m], Owed(d, b[..m]), b[m]);
      assert a + b[..m] + [b[m]] == a + b;
    }
  }

  /** One more transfer behind a part of the session that continued. */
  lemma NextConforms(c: Dfu, a: seq<Event>, d: Dfu, t: Transfer)
    requires Leads(c, a, d) && Conforms(c, a, 0) && Ready(d) && t.Wf()
    ensures Conforms(c, a + t.Events(), 0)
  {
    TransferConforms(d, t);
    ConformsAppend(c, a, d, t.Events());
  }

  lemma {:induction false} ErasesConform(c: Dfu, ts: seq<Transfer>, base: u32, pages: nat)
    requires Ready(c) && AllWf(ts) && ErasesPages(ts, base) && |ts| <= pages && c.flash.Granted(|ts|)
    requires base % FLASH_PAGE_SIZE == 0 && APP_FLASH_START <= base
    requires base + pages * FLASH_PAGE_SIZE - 1 <= APP_FLASH_END
    ensures Conforms(c, EventsOf(ts), 0)
    decreases |ts|
  {
    if ts != [] {
      var m := |ts| - 1;
      GrantedSplit(c.flash, m, 1);
      ErasesConform(c, ts[..m], base, pages);
      var d := ErasePhase(c, ts[..m], base, pages);
      NextConforms(c, EventsOf(ts[..m]), d, ts[m]);
    }
  }

  lemma FewerBlocksGranted(f: Flash, image: seq<byte>, m: nat)
    requires f.Granted(HalfWords(Sent(image, m + 1)))
    ensures f.Granted(HalfWords(Sent(image, m)))
  {
    GrantedSplit(f, HalfWords(Sent(image, m)), HalfWords(Sent(image, m + 1)) - HalfWords(Sent(image, m)));
  }

  lemma {:induction false} BlocksConform(c: Dfu, ts: seq<Transfer>, base: u32, image: seq<byte>)
    requires Ready(c) && c.pointer == base && Fits(base, image) && AllWf(ts) && SendsBlocks(ts, image)
    requires PagesErased(c.flash.mem, base, image) && c.flash.Granted(HalfWords(Sent(image, |ts|)))
    ensures Conforms(c, EventsOf(ts), 0)
    decreases |ts|
  {
    if ts != [] {
      var m := |ts| - 1;
      FewerBlocksGranted(c.flash, image, m);
      BlocksConform(c, ts[..m], base, image);
      var d := WritePhase(c, ts[..m], base, image);
      NextConforms(c, EventsOf(ts[..m]), d, ts[m]);
    }
  }

  /** The last two phases, from where the erase phase ended. */
  lemma RestConforms(c: Dfu, d: Dfu, base: u32, image: seq<byte>, plan: Plan)
    requires c.Wf() && c.flash.Granted(Operations(|image|)) && Fits(base, image) && plan.For(base, image)
    requires var pages := PageCount(|image|);
      Ends(c, d, pages, Erased(c.flash.mem, base, pages), c.pointer,
           Offset(base), Offset(base) + pages * FLASH_PAGE_SIZE)
    ensures Ready(d) && Conforms(d, plan.setAddress.Events() + EventsOf(plan.blocks), 0)
  {
    GrantedSplit(c.flash, PageCount(|image|), HalfWords(|image|));
    ErasePhaseErases(c.flash.mem, base, image);
    var addressed := SetAddressTransfer(d, plan.setAddress, base);
    assert addressed.flash == d.flash;
    TransferConforms(d, plan.setAddress);
    BlocksConform(addressed, plan.blocks, base, image);
    ConformsAppend(d, plan.setAddress.Events(), addressed, EventsOf(plan.blocks));
  }

  /** Every download session conforms, as long as the controller grants its operations. */
  lemma SessionConforms(c: Dfu, base: u32, image: seq<byte>, plan: Plan)
    requires Ready(c) && Fits(base, image) && plan.For(base, image)
    requires c.flash.Granted(Operations(|image|))
    ensures ConformingRun(c, plan.Events(base, image))
  {
    var pages, rest := PageCount(|image|), plan.setAddress.Events() + EventsOf(plan.blocks);
    GrantedSplit(c.flash, pages, HalfWords(|image|));
    ErasePhaseErases(c.flash.mem, base, image);
    ErasesConform(c, plan.erases, base, pages);
    var d := ErasePhase(c, plan.erases, base, pages);
    RestConforms(c, d, base, image, plan);
    ConformsAppend(c, EventsOf(plan.erases), d, rest);
    assert plan.Events(base, image) == EventsOf(plan.erases) + rest;
  }
}
