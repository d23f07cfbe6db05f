/**
  Whole transfers as the host sees them: when the status packet of a block comes, and
  the status replies around its execution, with what each of them stands for in flash.
 */
module Transfers {
  import opened Words
  import opened NorFlash
  import opened Ep0Transfer
  import opened DfuProtocol
  import opened DataStage
  import opened Safety
  import opened Session
  import opened Requests

  // ----- the status stage of a block ------------------------------------------------

  /** DNLOAD and the first `i` packets of the block. */
  function Delivery(t: Transfer, i: nat): seq<Event>
    requires t.Wf() && i <= |t.packets|
  {
    [ClassSetup(DFU_DNLOAD, t.block, |t.Payload()|)] + Outs(t.packets[..i])
  }

  lemma DeliverySnoc(t: Transfer, i: nat)
    requires t.Wf() && i < |t.packets|
    ensures Delivery(t, 0) == [ClassSetup(DFU_DNLOAD, t.block, |t.Payload()|)]
    ensures Delivery(t, i + 1) == Delivery(t, i) + [Out(t.packets[i])]
  {
    assert t.packets[..i + 1][..i] == t.packets[..i];
  }

  lemma DeliveryContext(c: Dfu, t: Transfer, i: nat)
    requires c.Wf() && Idle(c) && t.Wf() && i <= |t.packets|
    ensures var a := Dnload(c, t.block, |t.Payload()|);
      Run(c, Delivery(t, i)) == Run(a, Outs(t.packets[..i]))
  {
    var setup := ClassSetup(DFU_DNLOAD, t.block, |t.Payload()|);
    RunAppend(c, [setup], Outs(t.packets[..i]));
    RunOne(c, setup);
    DnloadStep(c, t.block, |t.Payload()|);
  }

  lemma DnloadStep(c: Dfu, block: u16, len: u16)
    requires c.Wf()
    ensures Step(c, ClassSetup(DFU_DNLOAD, block, len)) == Dnload(c, block, len)
  {
  }

  /** Packet `i` finds the block incomplete, and completes it exactly when it is the last. */
  lemma LastPacketCompletes(c: Dfu, t: Transfer, i: nat)
    requires c.Wf() && Idle(c) && t.Wf() && i < |t.packets|
    ensures var b, p := Run(c, Delivery(t, i)), t.packets[i];
      && b.state == DnloadSync && 0 < |p| && |b.data| + |p| <= 1024
      && (|b.data| + |p| >= b.xferLen <==> i == |t.packets| - 1)
  {
    var a := Dnload(c, t.block, |t.Payload()|);
    assert t.packets[i] in t.packets;
    DeliveryContext(c, t, i);
    AcknowledgedOnce(a, t.packets, i);
    PrefixDelivered(a, t.packets, i);
  }

  lemma PrefixDelivered(a: Dfu, packets: seq<seq<byte>>, i: nat)
    requires a.Wf() && a.state == DnloadSync && a.data == [] && PacketSplit(packets) && i < |packets|
    requires |Flatten(packets)| == a.xferLen <= DFU_XFER_SIZE
    ensures var b := Run(a, Outs(packets[..i]));
      b.state == DnloadSync && b.data == Flatten(packets[..i]) && b.xferLen == a.xferLen
    ensures |Flatten(packets[..i])| + |packets[i]| <= |Flatten(packets)|
  {
    FlattenPrefixShorter(packets, i);
    FlattenPrefixShorter(packets, i + 1);
    assert packets[..i + 1][..i] == packets[..i];
    if i + 1 == |packets| {
      assert packets[..i + 1] == packets;
    }
    Reassembles(a, packets[..i]);
    LeadsTo(a, Outs(packets[..i]), Delivered(a, Flatten(packets[..i])));
    assert a.data + Flatten(packets[..i]) == Flatten(packets[..i]);
  }

  /**
    Over a whole block, in any packet split, nothing is queued until the last packet
    has come; then the empty status packet is, and nothing behind it.
   */
  lemma {:induction false} StatusStage(d: Device, t: Transfer, i: nat, descriptors: Descriptors)
    requires d.dfu.Wf() && Idle(d.dfu) && t.Wf() && i <= |t.packets|
    ensures var r := DeviceRun(d, Delivery(t, i), descriptors);
      if i == |t.packets| then Confirms(r.ep0) else Waits(r.ep0)
    ensures DeviceRun(d, Delivery(t, i), descriptors).busAddress == d.busAddress
    decreases i
  {
    var setup := Setup(0x21, DFU_DNLOAD, t.block, 0, |t.Payload()|);
    if i == 0 {
      assert Delivery(t, 0) == [] + [SetupEvent(setup)];
      DeviceRunSnoc(d, [], SetupEvent(setup), descriptors);
      DnloadAnswered(d, setup, descriptors);
    } else {
      var before := DeviceRun(d, Delivery(t, i - 1), descriptors);
      StatusStage(d, t, i - 1, descriptors);
      DeliverySnoc(t, i - 1);
      DeviceRunSnoc(d, Delivery(t, i - 1), Out(t.packets[i - 1]), descriptors);
      LastPacketCompletes(d.dfu, t, i - 1);
      StatusPacket(before, t.packets[i - 1], descriptors);
    }
  }

  // ----- the two status replies of a block ----------------------------------------------

  /** The host has sent the block, with any status stages in between, and asked for the status once or not yet. */
  ghost predicate Brought(events: seq<Event>, t: Transfer, polls: nat)
    requires t.Wf()
  {
    && polls <= 1
    && Visible(events) == Delivery(t, |t.packets|) + [GETSTATUS_EVENT][..polls]
  }

  lemma WholeDelivery(t: Transfer)
    requires t.Wf()
    ensures Delivery(t, |t.packets|) == [ClassSetup(DFU_DNLOAD, t.block, |t.Payload()|)] + Outs(t.packets)
  {
    assert t.packets[..|t.packets|] == t.packets;
  }

  lemma BroughtContext(c: Dfu, t: Transfer, events: seq<Event>, polls: nat)
    requires c.Wf() && Idle(c) && t.Wf() && polls <= 1 && Brought(events, t, polls)
    ensures Loaded(c, t.block, t.Payload()).Wf()
    ensures Run(c, events) ==
      if polls == 0 then Loaded(c, t.block, t.Payload()).(state := DnloadSync) else Loaded(c, t.block, t.Payload())
  {
    var loaded, sent := Loaded(c, t.block, t.Payload()), Delivery(t, |t.packets|);
    var sync := loaded.(state := DnloadSync);
    OnlyVisibleEventsMatter(c, events);
    WholeDelivery(t);
    DataStageLoadsBlock(c, t);
    LeadsTo(c, sent, sync);
    if polls == 0 {
      assert Visible(events) == sent;
    } else {
      assert Visible(events) == sent + [GETSTATUS_EVENT];
      RunSnoc(c, sent, GETSTATUS_EVENT);
      SyncToBusy(loaded, sync);
    }
  }

  lemma SyncToBusy(loaded: Dfu, sync: Dfu)
    requires loaded.Wf() && loaded.state == DnBusy && sync == loaded.(state := DnloadSync)
    ensures Step(sync, GETSTATUS_EVENT) == loaded
  {
  }

  /** Behind its data a block is acknowledged: busy, come back in 100 ms, and nothing done yet. */
  lemma FirstReply(d: Device, t: Transfer, events: seq<Event>, s: Setup, descriptors: Descriptors)
    requires ControlInvariant(d.dfu) && Idle(d.dfu) && t.Wf() && Brought(events, t, 0) && ClassRequest(s, 3)
    ensures var r := Asked(DeviceRun(d, events, descriptors), s, descriptors);
      Tells(r.ep0, Six(0, 100, 4), s.wLength) && r.dfu.flash == d.dfu.flash && r.dfu.pointer == d.dfu.pointer
  {
    var c := d.dfu;
    BroughtContext(c, t, events, 0);
    ControlInvariantHolds(c, events);
    StatusTells(DeviceRun(d, events, descriptors), s, descriptors);
  }

  /**
    `r` is the device behind another GETSTATUS; stated so that a proof sees the step
    only when it names it.
   */
  ghost predicate Carried(d: Device, events: seq<Event>, s: Setup, r: Device, descriptors: Descriptors) {
    && d.dfu.Wf() && ClassRequest(s, 3)
    && forall run :: run == events ==> Asked(DeviceRun(d, run, descriptors), s, descriptors) == r
  }

  /** `e` is what carrying out `l` comes to, stated likewise. */
  ghost predicate Executed(l: Dfu, e: Dfu) {
    l.Wf() && forall c :: c == l ==> Execute(c) == e
  }

  /** The device told success: DNLOAD_IDLE, no error. */
  ghost predicate ToldDone(r: Device, len: u16) {
    r.dfu.state == DnloadIdle && Tells(r.ep0, Six(0, 0, 5), len)
  }

  /** The device told an error. */
  ghost predicate ToldError(r: Device, status: byte, len: u16) {
    r.dfu.state == DfuError && Tells(r.ep0, Six(status, 0, 10), len)
  }

  /** GETSTATUS from DNBUSY carries out what is pending, and tells how it went. */
  lemma BusyAnswered(d: Device, s: Setup, descriptors: Descriptors)
    requires d.dfu.Wf() && d.dfu.state == DnBusy && d.dfu.status == StatusOk && ClassRequest(s, 3)
    ensures var r := Asked(d, s, descriptors);
      && Executed(d.dfu, r.dfu) && (r.dfu.state == DnloadIdle || r.dfu.state == DfuError)
      && (r.dfu.state == DnloadIdle ==> ToldDone(r, s.wLength))
      && (r.dfu.state == DfuError ==> ToldError(r, ErrorByte(r.dfu.status), s.wLength))
  {
    StatusAnswered(d, s, descriptors);
    ExecuteEnds(d.dfu);
    assert GetStatus(d.dfu) == Execute(d.dfu);
  }

  lemma SecondReply(d: Device, t: Transfer, events: seq<Event>, s: Setup, r: Device, descriptors: Descriptors)
    requires Idle(d.dfu) && d.dfu.status == StatusOk
    requires t.Wf() && Brought(events, t, 1) && Carried(d, events, s, r, descriptors)
    ensures Executed(Loaded(d.dfu, t.block, t.Payload()), r.dfu)
    ensures r.dfu.state == DnloadIdle || r.dfu.state == DfuError
    ensures r.dfu.state == DnloadIdle ==> ToldDone(r, s.wLength)
    ensures r.dfu.state == DfuError ==> ToldError(r, ErrorByte(r.dfu.status), s.wLength)
  {
    var busy := DeviceRun(d, events, descriptors);
    BroughtContext(d.dfu, t, events, 1);
    assert Asked(busy, s, descriptors) == r;
    BusyAnswered(busy, s, descriptors);
  }

  /** What is carried out for a command. */
  lemma CommandExecuted(c: Dfu, t: Transfer, e: Dfu)
    requires c.Wf() && c.status == StatusOk && t.Wf() && t.block == 0
    requires Executed(Loaded(c, t.block, t.Payload()), e)
    ensures var b := t.Payload();
      var f := Erase(c.flash, if |b| >= 5 then Le32(b[1..5]) else 0);
      && e.pending == 0 && e.address == c.address
      && (b[0] == 0x21 && |b| >= 5 ==>
            e.state == DnloadIdle && e.flash == c.flash && e.pointer == Le32(b[1..5]))
      && (b[0] == 0x21 && |b| < 5 ==> e.status == ErrAddress && e.state == DfuError)
      && (b[0] == 0x41 && |b| >= 5 ==>
            e.flash == f.flash && if f.ok then e.state == DnloadIdle else e.state == DfuError && e.status == ErrErase)
      && (b[0] == 0x41 && |b| < 5 ==> e.status == ErrErase && e.state == DfuError)
      && (b[0] != 0x21 && b[0] != 0x41 ==>
            if b[0] == 0 then e.state == DnloadIdle else e.state == DfuError && e.status == ErrVendor)
      && (b[0] != 0x41 || |b| < 5 ==> e.flash == c.flash)
      && (b[0] != 0x21 || |b| < 5 ==> e.pointer == c.pointer)
  {
    var l := Loaded(c, t.block, t.Payload());
    assert Execute(l) == e;
  }

  /** An incomplete block 0 would still go where it would have gone. */
  predicate SameTarget(r: Device, d: Device) {
    PartialTarget(r.dfu, 0) == PartialTarget(d.dfu, 0)
  }

  /**
    SET_ADDRESS moves the pointer to its little-endian operand; without an operand it
    is the error errADDRESS. Flash is not touched.
   */
  lemma SetAddressCarried(d: Device, t: Transfer, events: seq<Event>, s: Setup, r: Device, descriptors: Descriptors)
    requires Idle(d.dfu) && d.dfu.status == StatusOk
    requires t.Wf() && Brought(events, t, 1) && Carried(d, events, s, r, descriptors)
    requires t.block == 0 && t.Payload()[0] == 0x21
    ensures r.dfu.flash == d.dfu.flash && r.dfu.pending == 0 && SameTarget(r, d)
    ensures var b := t.Payload();
      if |b| >= 5 then ToldDone(r, s.wLength) && r.dfu.pointer == Le32(b[1..5])
      else ToldError(r, 0x08, s.wLength) && r.dfu.pointer == d.dfu.pointer
  {
    SecondReply(d, t, events, s, r, descriptors);
    CommandExecuted(d.dfu, t, r.dfu);
  }

  /**
    ERASE_PAGE with any operand erases the 2 KB page around it and says so, or, when
    the address lies outside the region or the controller refuses, changes nothing and
    tells errERASE. So does a command without an operand, which would mean all of flash.
   */
  lemma EraseCarried(d: Device, t: Transfer, events: seq<Event>, s: Setup, r: Device, i: nat, descriptors: Descriptors)
    requires Idle(d.dfu) && d.dfu.status == StatusOk
    requires t.Wf() && Brought(events, t, 1) && Carried(d, events, s, r, descriptors)
    requires t.block == 0 && t.Payload()[0] == 0x41 && i < FLASH_SIZE
    ensures |r.dfu.flash.mem| == FLASH_SIZE && r.dfu.pointer == d.dfu.pointer
    ensures r.dfu.pending == 0 && SameTarget(r, d)
    ensures var f, b := d.dfu.flash, t.Payload();
      if |b| >= 5 && 0x0800_3000 <= Le32(b[1..5]) <= 0x0803_F7FF && !f.faults(f.ops) then
        && ToldDone(r, s.wLength)
        && r.dfu.flash.mem[i] == if i / 2048 == (Le32(b[1..5]) - 0x0800_0000) / 2048 then 0xFF else f.mem[i]
      else
        ToldError(r, 0x04, s.wLength) && r.dfu.flash.mem == f.mem
  {
    var f, b := d.dfu.flash, t.Payload();
    SecondReply(d, t, events, s, r, descriptors);
    CommandExecuted(d.dfu, t, r.dfu);
    if |b| >= 5 {
      ErasesPageAround(f, Le32(b[1..5]), i);
      FailedErase(f, Le32(b[1..5]));
    }
  }

  lemma FailedErase(f: Flash, address: u32)
    requires f.Wf()
    ensures !Erase(f, address).ok ==> Erase(f, address).flash.mem == f.mem
  {
  }

  /** Opcode 0 is taken for no command at all; any other unknown one is the error errVENDOR. */
  lemma UnknownCarried(d: Device, t: Transfer, events: seq<Event>, s: Setup, r: Device, descriptors: Descriptors)
    requires Idle(d.dfu) && d.dfu.status == StatusOk
    requires t.Wf() && Brought(events, t, 1) && Carried(d, events, s, r, descriptors)
    requires t.block == 0 && t.Payload()[0] != 0x21 && t.Payload()[0] != 0x41
    ensures r.dfu.flash == d.dfu.flash && r.dfu.pointer == d.dfu.pointer
    ensures r.dfu.pending == 0 && SameTarget(r, d)
    ensures if t.Payload()[0] == 0 then ToldDone(r, s.wLength) else ToldError(r, 0x0B, s.wLength)
  {
    SecondReply(d, t, events, s, r, descriptors);
    CommandExecuted(d.dfu, t, r.dfu);
  }

  /** Writing `data` at `a` over `f` comes to `w`; stated so that a proof sees the write only when it names it. */
  ghost predicate Writes(f: Flash, a: u32, data: seq<byte>, w: FlashResult) {
    f.Wf() && |data| <= 1024 && forall g :: g == f ==> Write(g, a, data) == w
  }

  /**
    Data was written at `a`, with the result `w`. A write that fails is the error
    errWRITE. The address an incomplete block 0 would go to moves behind the data if
    it succeeds.
   */
  ghost predicate DataOutcome(e: Dfu, w: FlashResult, a: u32, len: nat, pointer: u32) {
    && e.flash == w.flash && e.pointer == pointer
    && (if w.ok then e.state == DnloadIdle else e.state == DfuError && e.status == ErrWrite)
    && PartialTarget(e, 0) == if w.ok then Wrap32(a + len) else a
  }

  lemma BufferExecuted(l: Dfu, e: Dfu, w: FlashResult)
    requires l.status == StatusOk && l.pending == 0 && l.data != [] && Executed(l, e)
    requires Writes(l.flash, l.address, l.data, w)
    ensures DataOutcome(e, w, l.address, |l.data|, l.pointer)
  {
    assert Write(l.flash, l.address, l.data) == w;
    assert Execute(l) == e;
  }

  /** The second reply to a data block, and what it carried out. */
  lemma SecondReplyToData(d: Device, t: Transfer, events: seq<Event>, s: Setup, r: Device, descriptors: Descriptors)
      returns (l: Dfu)
    requires Idle(d.dfu) && d.dfu.status == StatusOk && d.dfu.pending == 0
    requires t.Wf() && Brought(events, t, 1) && Carried(d, events, s, r, descriptors) && 2 <= t.block
    ensures l.pending == 0 && l.data == t.Payload() && l.address == Wrap32(d.dfu.pointer + (t.block - 2) * 1024)
    ensures l.status == StatusOk && l.flash == d.dfu.flash && l.pointer == d.dfu.pointer && Executed(l, r.dfu)
    ensures r.dfu.state == DnloadIdle ==> ToldDone(r, s.wLength)
    ensures r.dfu.state == DfuError ==> ToldError(r, ErrorByte(r.dfu.status), s.wLength)
  {
    SecondReply(d, t, events, s, r, descriptors);
    l := Loaded(d.dfu, t.block, t.Payload());
  }

  /**
    A data block goes to the pointer plus 1024 bytes for every block behind block 2; what
    happens there is WritesHalfWords. The host is told of success or errWRITE.
   */
  lemma DataCarried(d: Device, t: Transfer, events: seq<Event>, s: Setup, r: Device, w: FlashResult,
                    descriptors: Descriptors)
    requires Idle(d.dfu) && d.dfu.status == StatusOk && d.dfu.pending == 0
    requires t.Wf() && Brought(events, t, 1) && Carried(d, events, s, r, descriptors) && 2 <= t.block
    requires Writes(d.dfu.flash, Wrap32(d.dfu.pointer + (t.block - 2) * 1024), t.Payload(), w)
    ensures DataOutcome(r.dfu, w, Wrap32(d.dfu.pointer + (t.block - 2) * 1024), |t.Payload()|, d.dfu.pointer)
    ensures if w.ok then ToldDone(r, s.wLength) else ToldError(r, 0x03, s.wLength)
  {
    var l := SecondReplyToData(d, t, events, s, r, descriptors);
    BufferExecuted(l, r.dfu, w);
    DataTold(r, w, l.address, |l.data|, l.pointer, s.wLength);
  }

  lemma DataTold(r: Device, w: FlashResult, a: u32, n: nat, pointer: u32, len: u16)
    requires DataOutcome(r.dfu, w, a, n, pointer)
    requires r.dfu.state == DnloadIdle ==> ToldDone(r, len)
    requires r.dfu.state == DfuError ==> ToldError(r, ErrorByte(r.dfu.status), len)
    ensures if w.ok then ToldDone(r, len) else ToldError(r, 0x03, len)
  {
  }

  /** The end of a download: confirmed, and from the next GETSTATUS on the device waits for its reset. */
  lemma ManifestCarried(d: Device, block: u16, len: u16, events: seq<Event>, s: Setup, descriptors: Descriptors)
    requires ControlInvariant(d.dfu) && d.dfu.state == DnloadIdle && ClassRequest(s, 3)
    requires Visible(events) == [ClassSetup(1, block, 0)]
    ensures var r := Asked(DeviceRun(d, events, descriptors), s, descriptors);
      && r.dfu == d.dfu.(state := ManifestWaitReset) && Tells(r.ep0, Six(0, 0, 8), s.wLength)
  {
    var c := d.dfu;
    OnlyVisibleEventsMatter(c, events);
    RunOne(c, ClassSetup(1, block, 0));
    assert Run(c, events) == c.(state := ManifestSync);
    StatusTells(DeviceRun(d, events, descriptors), s, descriptors);
  }
}
