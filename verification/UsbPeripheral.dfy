/**
  Endpoint 0 of the USB peripheral: its register, its packet memory, the interrupt
  status the driver polls, and what the controller itself does when the bus
  brings something.
 */
module UsbPeripheral {
  import opened Words
  import opened PacketMemory
  import opened EndpointRegister
  import Ep0Transfer
  import opened DfuProtocol

  const COUNT_RX_RESET: u16 := 0x8400 // BL_SIZE = 1, one block: 64 bytes

  function SetupBytes(s: Setup): (b: seq<byte>)
    ensures |b| == 8
  {
    [s.bmRequestType, s.bRequest, s.wValue % 0x100, s.wValue / 0x100,
     s.wIndex % 0x100, s.wIndex / 0x100, s.wLength % 0x100, s.wLength / 0x100]
  }

  /** The struct overlaid on the eight bytes of a SETUP packet. */
  function ParseSetup(b: seq<byte>): Setup
    requires |b| == 8
  {
    Setup(b[0], b[1], b[2] as int + 0x100 * b[3] as int,
          b[4] as int + 0x100 * b[5] as int, b[6] as int + 0x100 * b[7] as int)
  }

  lemma ParseSetupBytes(s: Setup)
    ensures ParseSetup(SetupBytes(s)) == s
  {
  }

  /** Where the fields of a request lie in its eight bytes, the low half of a word first. */
  lemma SetupLayout(b: seq<byte>)
    requires |b| == 8
    ensures var s := ParseSetup(b);
      && s.bmRequestType == b[0] && s.bRequest == b[1]
      && s.wValue % 0x100 == b[2] && s.wValue / 0x100 == b[3]
      && s.wIndex % 0x100 == b[4] && s.wIndex / 0x100 == b[5]
      && s.wLength % 0x100 == b[6] && s.wLength / 0x100 == b[7]
  {
  }

  datatype Snapshot = Snapshot(reset: bool, flags: Fields, setup: Setup, packet: seq<byte>)

  class Usb {
    var epr: bv16
    var reset: bool
    var address: byte
    const pma: array<u16>

    /** The buffer table tells the controller where the two buffers are and that 64 bytes can be received. */
    ghost predicate Table()
      requires pma.Length == PMA_SLOTS
      reads pma
    {
      pma[ADDR_TX] == EP0_TX_OFFSET && pma[ADDR_RX] == EP0_RX_OFFSET && pma[COUNT_RX] / 0x400 == 0x21
    }

    ghost predicate Valid()
      reads this, pma
    {
      pma.Length == PMA_SLOTS && pma[COUNT_TX] <= EP0_MAX_SIZE && Table()
    }

    ghost function Flags(): Fields
      reads `epr
    {
      Decode(epr)
    }

    /** The events the register still reports: reception, whether it is a SETUP, transmission. */
    ghost function Waiting(): (bool, bool, bool)
      reads `epr
    {
      (Flags().ctrRx, Flags().setup, Flags().ctrTx)
    }

    /** Reception is enabled and none is pending. */
    ghost predicate Listening()
      reads this
    {
      !reset && !Flags().ctrRx && Flags().statRx.StatValid?
    }

    /** Ready for the next event: nothing pending and reception enabled. */
    ghost predicate Ready()
      reads this
    {
      Listening() && !Flags().ctrTx
    }

    /** What one poll finds: the interrupt status, the endpoint register and the received bytes. */
    ghost function Look(): Snapshot
      requires Valid()
      reads this, pma
    {
      Snapshot(reset, Flags(), ReceivedSetup(), ReceivedPacket())
    }

    /** How the controller answers the next IN token: from the buffer its table names. */
    ghost function Answer(): Ep0Transfer.Answer
      requires Valid()
      reads this, pma
    {
      if Flags().statTx.StatValid? then Ep0Transfer.Data(Packet(pma[..], pma[ADDR_TX], pma[COUNT_TX]))
      else if Flags().statTx.StatStall? then Ep0Transfer.Stall
      else Ep0Transfer.Nak
    }

    ghost function ReceivedSetup(): Setup
      requires Valid()
      reads this, pma
    {
      ParseSetup(Packet(pma[..], pma[ADDR_RX], 8))
    }

    ghost function ReceivedPacket(): seq<byte>
      requires Valid()
      reads this, pma
    {
      Packet(pma[..], pma[ADDR_RX], Min(pma[COUNT_RX] % 0x400, EP0_MAX_SIZE))
    }

    constructor ()
      ensures Valid() && fresh(pma) && Ready() && Answer() == Ep0Transfer.Nak && address == 0
    {
      epr := EP_CONTROL | EP_RX_VALID | EP_TX_NAK;
      reset, address := false, 0;
      pma := new u16[PMA_SLOTS](i =>
        if i == ADDR_TX then EP0_TX_OFFSET else if i == ADDR_RX then EP0_RX_OFFSET
        else if i == COUNT_RX then COUNT_RX_RESET else 0);
    }

    // ----- what the driver does -------------------------------------------

    method WriteEpr(v: bv16)
      modifies `epr
      ensures epr == AfterWrite(old(epr), v)
    {
      epr := AfterWrite(epr, v);
    }

    method SetTxStatus(status: bv16)
      requires status & EP_STAT_TX == status
      modifies `epr
      ensures Flags() == old(Flags()).(statTx := TxStatus(status))
    {
      SetTxStatusExact(epr, status);
      WriteEpr(StatusWord(epr, status, EP_STAT_TX));
    }

    method SetRxStatus(status: bv16)
      requires status & EP_STAT_RX == status
      modifies `epr
      ensures Flags() == old(Flags()).(statRx := RxStatus(status))
    {
      SetRxStatusExact(epr, status);
      WriteEpr(StatusWord(epr, status, EP_STAT_RX));
    }

    method ClearCtrRx()
      modifies `epr
      ensures Flags() == old(Flags()).(ctrRx := false)
    {
      WriteEpr(EP_CTR_TX | EP_CONTROL);
    }

    method ClearCtrTx()
      modifies `epr
      ensures Flags() == old(Flags()).(ctrTx := false)
    {
      WriteEpr(EP_CTR_RX | EP_CONTROL);
    }

    /**
      Queues `packet`: the bytes, their count, and the endpoint set to answer. The
      reception buffer and the rest of the buffer table are left alone.
     */
    method QueuePacket(packet: seq<byte>)
      requires Valid() && |packet| <= EP0_MAX_SIZE
      modifies `epr, pma
      ensures Valid() && Answer() == Ep0Transfer.Data(packet)
      ensures Flags() == old(Flags()).(statTx := StatValid)
      ensures pma[..COUNT_TX] == old(pma[..COUNT_TX])
      ensures pma[COUNT_TX + 1..EP0_TX_OFFSET] == old(pma[COUNT_TX + 1..EP0_TX_OFFSET])
      ensures pma[EP0_RX_OFFSET..] == old(pma[EP0_RX_OFFSET..])
    {
      Write(pma, EP0_TX_OFFSET, packet);
      ghost var written := pma[..];
      pma[COUNT_TX] := |packet|;
      PacketFrame(written, pma[..], COUNT_TX, 1, EP0_TX_OFFSET, |packet|);
      SetTxStatus(EP_TX_VALID);
    }

    /** The buffer table and endpoint set up after a bus reset, whatever the table held. */
    method Reinitialise()
      requires pma.Length == PMA_SLOTS && Flags().statRx.StatDisabled? && Flags().statTx.StatDisabled?
      modifies `epr, `address, pma
      ensures Valid() && Answer() == Ep0Transfer.Nak && address == 0
      ensures Flags() == old(Flags()).(statRx := StatValid, statTx := StatNak)
    {
      pma[ADDR_TX] := EP0_TX_OFFSET;
      pma[COUNT_TX] := 0;
      pma[ADDR_RX] := EP0_RX_OFFSET;
      pma[COUNT_RX] := COUNT_RX_RESET;
      WriteEpr(RESET_WORD);
      address := 0;
    }

    // ----- what the controller does ---------------------------------------

    /** A SETUP packet arrives: both directions answer NAK until it is served. A completion may be waiting. */
    method PostSetup(s: Setup)
      requires Valid() && Listening()
      modifies this, pma
      ensures Valid() && address == old(address) && !reset
      ensures Flags() == Fields(true, true, StatNak, old(Flags().ctrTx), StatNak)
      ensures ReceivedSetup() == s
    {
      ParseSetupBytes(s);
      ghost var before := pma[..];
      Write(pma, pma[ADDR_RX], SetupBytes(s));
      epr := (epr & 0xCFCF) | EP_CTR_RX | EP_SETUP | EP_RX_NAK | EP_TX_NAK;
    }

    /** An OUT packet arrives; the transmit side is untouched. A completion may be waiting. */
    method PostOut(packet: seq<byte>)
      requires Valid() && Listening() && |packet| <= EP0_MAX_SIZE
      modifies this, pma
      ensures Valid() && address == old(address) && !reset
      ensures Flags() == Fields(true, false, StatNak, old(Flags().ctrTx), old(Flags().statTx))
      ensures Answer() == old(Answer())
      ensures pma[COUNT_RX] % 0x400 == |packet| && ReceivedPacket() == packet
    {
      ghost var before := pma[..];
      Write(pma, pma[ADDR_RX], packet);
      ghost var written := pma[..];
      PacketFrame(before, written, EP0_RX_OFFSET, |packet|, EP0_TX_OFFSET, pma[COUNT_TX]);
      pma[COUNT_RX] := COUNT_RX_RESET + |packet|;
      PacketFrame(written, pma[..], COUNT_RX, 1, EP0_TX_OFFSET, pma[COUNT_TX]);
      PacketFrame(written, pma[..], COUNT_RX, 1, EP0_RX_OFFSET, |packet|);
      epr := (epr & 0xC7FF) | EP_CTR_RX | EP_RX_NAK;
    }

    /** The host acknowledged the queued packet: the endpoint answers NAK. */
    method PostInDone()
      requires Valid() && Ready()
      modifies this
      ensures Valid() && address == old(address) && !reset
      ensures Flags() == old(Flags()).(ctrTx := true, statTx := StatNak)
    {
      epr := (epr & 0xFFCF) | EP_CTR_TX | EP_TX_NAK;
    }

    /** A bus reset clears the toggles and both STAT fields. */
    method PostReset()
      requires Valid() && Ready()
      modifies this
      ensures Valid() && address == old(address) && reset
      ensures Flags() == old(Flags()).(statRx := StatDisabled, statTx := StatDisabled)
    {
      epr := epr & 0x8F8F;
      reset := true;
    }

    /** The controller's part in any event. */
    method Post(e: Event)
      requires Valid() && Ready() && Deliverable(e)
      modifies this, pma
      ensures Valid() && address == old(address)
      ensures Answer() == if e.Out? then old(Answer()) else Ep0Transfer.Nak
      ensures e.SetupEvent? ==>
        !reset && Flags() == Fields(true, true, StatNak, false, StatNak) && ReceivedSetup() == e.setup
      ensures e.Out? ==>
        && !reset && Flags().ctrRx && !Flags().setup && !Flags().ctrTx
        && pma[COUNT_RX] % 0x400 == |e.packet| && ReceivedPacket() == e.packet
      ensures e.InDone? ==>
        !reset && !Flags().ctrRx && Flags().ctrTx && Flags().statRx.StatValid?
      ensures e.BusReset? ==>
        && reset && Flags().statRx.StatDisabled? && Flags().statTx.StatDisabled?
        && !Flags().ctrRx && !Flags().ctrTx
    {
      match e {
        case SetupEvent(s) => PostSetup(s);
        case Out(packet) => PostOut(packet);
        case InDone => PostInDone();
        case BusReset => PostReset();
      }
    }

    /** The queued packet is acknowledged, and a SETUP or OUT packet arrives before the next poll. */
    method PostCoalesced(e: Event)
      requires Valid() && Ready() && Deliverable(e) && (e.SetupEvent? || e.Out?)
      modifies this, pma
      ensures Valid() && address == old(address) && !reset && Answer() == Ep0Transfer.Nak
      ensures Flags().ctrRx && Flags().ctrTx
      ensures e.SetupEvent? ==> Flags().setup && Flags().statTx.StatNak? && ReceivedSetup() == e.setup
      ensures e.Out? ==>
        !Flags().setup && pma[COUNT_RX] % 0x400 == |e.packet| && ReceivedPacket() == e.packet
    {
      PostInDone();
      if e.SetupEvent? {
        PostSetup(e.setup);
      } else {
        PostOut(e.packet);
      }
    }
  }
}
