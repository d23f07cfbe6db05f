/**
  Whole downloads: a block delivered in any split into packets, and the session
  that erases the pages of an image, sets the address and sends its blocks.
 */
module Session {
  import opened Words
  import opened NorFlash
  import opened DfuProtocol
  import opened Safety

  // ----- events the DFU context does not see --------------------------------

  /** Status stages, standard requests and GETSTATE leave the DFU context alone. */
  predicate Invisible(e: Event) {
    || e.InDone?
    || (e.Out? && e.packet == [])
    || (e.SetupEvent? && !e.setup.Class())
    || IsRequest(e, DFU_GETSTATE)
  }

  function Visible(events: seq<Event>): seq<Event>
    decreases |events|
  {
    if events == [] then []
    else
      var before := Visible(events[..|events| - 1]);
      if Invisible(events[|events| - 1]) then before else before + [events[|events| - 1]]
  }

  lemma {:induction false} OnlyVisibleEventsMatter(c: Dfu, events: seq<Event>)
    requires c.Wf()
    ensures Run(c, events) == Run(c, Visible(events))
    decreases |events|
  {
    if events != [] {
      var before, e := events[..|events| - 1], events[|events| - 1];
      OnlyVisibleEventsMatter(c, before);
      if !Invisible(e) {
        RunSnoc(c, Visible(before), e);
      }
    }
  }

  // ----- one block ------------------------------------------------------------

  /** A split of a block into OUT packets: none empty, none longer than 64 bytes. */
  predicate PacketSplit(packets: seq<seq<byte>>) {
    forall p :: p in packets ==> 1 <= |p| <= 64
  }

  function Outs(packets: seq<seq<byte>>): (events: seq<Event>)
    ensures |events| == |packets|
  {
    if packets == [] then [] else Outs(packets[..|packets| - 1]) + [Out(packets[|packets| - 1])]
  }

  /** What a partly or wholly delivered block leaves in the device. */
  function Delivered(c: Dfu, payload: seq<byte>): Dfu {
    var d := c.(data := c.data + payload);
    if d.blockNum == 0 && d.data != [] && |d.data| >= d.xferLen then DecodeCommand(d) else d
  }

  /** However the bytes are split into packets, the buffer ends up with their concatenation. */
  lemma {:induction false} Reassembles(c: Dfu, packets: seq<seq<byte>>)
    requires c.Wf() && c.state == DnloadSync && PacketSplit(packets)
    requires |c.data| < c.xferLen && |c.data| + |Flatten(packets)| <= c.xferLen <= DFU_XFER_SIZE
    ensures Leads(c, Outs(packets), Delivered(c, Flatten(packets)))
    decreases |packets|
  {
    if packets == [] {
      assert c.data + [] == c.data;
    } else {
      var before, p := packets[..|packets| - 1], packets[|packets| - 1];
      assert p in packets;
      assert forall q :: q in before ==> q in packets;
      Reassembles(c, before);
      LeadsSnoc(c, Outs(before), Delivered(c, Flatten(before)), Out(p));
      OnePacketMore(c, Flatten(before), p);
    }
  }

  lemma OnePacketMore(c: Dfu, sofar: seq<byte>, p: seq<byte>)
    requires c.Wf() && c.state == DnloadSync && 1 <= |p|
    requires |c.data| + |sofar| + |p| <= c.xferLen <= DFU_XFER_SIZE
    ensures Delivered(c, sofar).Wf()
    ensures OutData(Delivered(c, sofar), p) == Delivered(c, sofar + p)
  {
    assert c.data + sofar + p == c.data + (sofar + p);
  }

  /** The block is acknowledged on its last packet and on no other. */
  lemma AcknowledgedOnce(c: Dfu, packets: seq<seq<byte>>, i: nat)
    requires c.Wf() && c.state == DnloadSync && PacketSplit(packets)
    requires |c.data| < c.xferLen && |c.data| + |Flatten(packets)| == c.xferLen <= DFU_XFER_SIZE
    requires i < |packets|
    ensures CompletesBlock(Run(c, Outs(packets[..i])), packets[i]) <==> i == |packets| - 1
  {
    FlattenPrefixShorter(packets, i);
    FlattenPrefixShorter(packets, i + 1);
    assert packets[..i + 1][..i] == packets[..i];
    assert packets[..|packets|] == packets;
    Reassembles(c, packets[..i]);
    LeadsTo(c, Outs(packets[..i]), Delivered(c, Flatten(packets[..i])));
  }

  lemma {:induction false} FlattenPrefixShorter(packets: seq<seq<byte>>, i: nat)
    requires PacketSplit(packets) && i <= |packets|
    ensures |Flatten(packets[..i])| <= |Flatten(packets)|
    ensures i < |packets| ==> |Flatten(packets[..i])| < |Flatten(packets)|
    decreases |packets|
  {
    if i < |packets| {
      var before := packets[..|packets| - 1];
      assert packets[|packets| - 1] in packets;
      assert before[..i] == packets[..i];
      FlattenPrefixShorter(before, i);
    } else {
      assert packets[..i] == packets;
    }
  }

  datatype Transfer = Transfer(block: u16, packets: seq<seq<byte>>) {
    function Payload(): seq<byte> {
      Flatten(packets)
    }

    predicate Wf() {
      PacketSplit(packets) && 1 <= |Payload()| <= DFU_XFER_SIZE && block != 1
    }

    /** DNLOAD, its data stage, and the two GETSTATUS that carry it out. */
    function Events(): seq<Event>
      requires Wf()
    {
      [ClassSetup(DFU_DNLOAD, block, |Payload()|)] + Outs(packets) + [GETSTATUS_EVENT, GETSTATUS_EVENT]
    }
  }

  /** The device when a block has arrived and is about to be carried out. */
  function Loaded(c: Dfu, block: u16, payload: seq<byte>): Dfu
    requires 1 <= |payload| <= DFU_XFER_SIZE
  {
    var d := c.(state := DnBusy, blockNum := block, xferLen := |payload|, data := payload,
                address := if 2 <= block then BlockAddress(c.pointer, block) else c.address);
    if block == 0 then DecodeCommand(d) else d
  }

  predicate Idle(c: Dfu) {
    c.state == DfuIdle || c.state == DnloadIdle
  }

  /** DNLOAD and its data stage leave the block loaded, whatever the packet split. */
  lemma DataStageLoadsBlock(c: Dfu, t: Transfer)
    requires c.Wf() && Idle(c) && t.Wf()
    ensures Loaded(c, t.block, t.Payload()).Wf()
    ensures Leads(c, [ClassSetup(DFU_DNLOAD, t.block, |t.Payload()|)] + Outs(t.packets),
                  Loaded(c, t.block, t.Payload()).(state := DnloadSync))
  {
    var setup := ClassSetup(DFU_DNLOAD, t.block, |t.Payload()|);
    var accepted := Dnload(c, t.block, |t.Payload()|);
    var loaded := Delivered(accepted, t.Payload());
    assert loaded == Loaded(c, t.block, t.Payload()).(state := DnloadSync) by {
      assert accepted.data + t.Payload() == t.Payload();
    }
    assert Leads(accepted, Outs(t.packets), loaded) by {
      Reassembles(accepted, t.packets);
    }
    LeadsOne(c, setup);
    LeadsAppend(c, [setup], accepted, Outs(t.packets), loaded);
  }

  /** Two GETSTATUS after a block arrived: acknowledge it, then carry it out. */
  lemma PollTwice(c: Dfu, events: seq<Event>, d: Dfu)
    requires Leads(c, events, d) && d.Wf() && d.state == DnloadSync
    ensures Leads(c, events + [GETSTATUS_EVENT, GETSTATUS_EVENT], Execute(d.(state := DnBusy)))
  {
    var once := events + [GETSTATUS_EVENT];
    LeadsSnoc(c, events, d, GETSTATUS_EVENT);
    assert Step(d, GETSTATUS_EVENT) == d.(state := DnBusy);
    LeadsSnoc(c, once, d.(state := DnBusy), GETSTATUS_EVENT);
    assert once + [GETSTATUS_EVENT] == events + [GETSTATUS_EVENT, GETSTATUS_EVENT];
  }

  /** A transfer carries out its own block and nothing else. */
  lemma TransferExecutesBlock(c: Dfu, t: Transfer)
    requires c.Wf() && Idle(c) && t.Wf()
    ensures Loaded(c, t.block, t.Payload()).Wf()
    ensures Leads(c, t.Events(), Execute(Loaded(c, t.block, t.Payload())))
  {
    var loaded := Loaded(c, t.block, t.Payload());
    DataStageLoadsBlock(c, t);
    PollTwice(c, [ClassSetup(DFU_DNLOAD, t.block, |t.Payload()|)] + Outs(t.packets), loaded.(state := DnloadSync));
    assert loaded.(state := DnloadSync).(state := DnBusy) == loaded;
  }

  /**
    A data block is written when it is sent, exactly when no command was pending:
    a command left over from before is carried out in its place.
   */
  lemma DataBlockWrittenUnlessStale(c: Dfu, t: Transfer)
    requires c.Wf() && Idle(c) && t.Wf() && 2 <= t.block
    ensures var loaded := Loaded(c, t.block, t.Payload());
      Run(c, t.Events()) == Execute(loaded.(pending := 0)) <==> c.pending == 0
  {
    var loaded := Loaded(c, t.block, t.Payload());
    TransferExecutesBlock(c, t);
    LeadsTo(c, t.Events(), Execute(loaded));
    ExecuteEnds(loaded);
  }

  /**
    How a command goes stale: an oversized DNLOAD after block 0 arrived, in any
    packet split, leaves it pending, and CLRSTATUS brings the device back to IDLE
    with it.
   */
  lemma StaleCommand(c: Dfu, t: Transfer, block: u16, len: u16)
    requires c.Wf() && Idle(c) && t.Wf() && t.block == 0 && len > DFU_XFER_SIZE
    ensures var dataStage := [ClassSetup(DFU_DNLOAD, 0, |t.Payload()|)] + Outs(t.packets);
      var r := Run(c, dataStage + [ClassSetup(DFU_DNLOAD, block, len)] + [ClassSetup(DFU_CLRSTATUS, 0, 0)]);
      r.state == DfuIdle && r.status == StatusOk && r.pending == t.Payload()[0]
  {
    var dataStage := [ClassSetup(DFU_DNLOAD, 0, |t.Payload()|)] + Outs(t.packets);
    var oversized, clear := ClassSetup(DFU_DNLOAD, block, len), ClassSetup(DFU_CLRSTATUS, 0, 0);
    var loaded := Loaded(c, 0, t.Payload()).(state := DnloadSync);
    DataStageLoadsBlock(c, t);
    LeadsSnoc(c, dataStage, loaded, oversized);
    LeadsSnoc(c, dataStage + [oversized], Fail(loaded, ErrUnknown), clear);
    LeadsTo(c, dataStage + [oversized] + [clear], ClrStatus(Fail(loaded, ErrUnknown)));
  }

  /** Where an incomplete block is written: a data block at its own address, block 0 at the last one used. */
  function PartialTarget(c: Dfu, block: u16): u32 {
    if 2 <= block then BlockAddress(c.pointer, block) else c.address
  }

  /**
    A block cut short of its announced length is written as far as it came when the
    host polls for it, block 0 included: its bytes are not taken for a command, they
    go to the address an earlier block left behind.
   */
  lemma PartialBlock(c: Dfu, block: u16, len: u16, packets: seq<seq<byte>>)
    requires c.Wf() && Idle(c) && c.pending == 0 && block != 1 && PacketSplit(packets)
    requires 1 <= |Flatten(packets)| < len <= DFU_XFER_SIZE
    ensures var r := Run(c, [ClassSetup(DFU_DNLOAD, block, len)] + Outs(packets) + [GETSTATUS_EVENT, GETSTATUS_EVENT]);
      var w := Write(c.flash, PartialTarget(c, block), Flatten(packets));
      r.flash == w.flash && r.pointer == c.pointer && (r.state == DnloadIdle <==> w.ok)
  {
    var setup, payload := ClassSetup(DFU_DNLOAD, block, len), Flatten(packets);
    var accepted := Dnload(c, block, len);
    var partial := accepted.(data := payload);
    assert accepted.data + payload == payload;
    LeadsOne(c, setup);
    Reassembles(accepted, packets);
    LeadsAppend(c, [setup], accepted, Outs(packets), partial);
    PollTwice(c, [setup] + Outs(packets), partial);
    LeadsTo(c, [setup] + Outs(packets) + [GETSTATUS_EVENT, GETSTATUS_EVENT], Execute(partial.(state := DnBusy)));
  }
}
