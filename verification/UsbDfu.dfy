/**
  The driver of src/usb_dfu.c: its static variables as fields, its handlers as
  methods, each proved against the protocol functions.
 */
module UsbDfu {
  import opened Words
  import opened NorFlash
  import opened FlashController
  import PacketMemory
  import opened EndpointRegister
  import opened Ep0Transfer
  import opened ControlEndpoint
  import opened DfuProtocol
  import opened UsbPeripheral
  import opened Polling

  class DfuDriver {
    var state: State
    var status: Status
    var address: u32
    var blockNum: u16
    var xferLen: u16
    const dfuBuffer: array<byte>
    var dfuBufferLen: u16
    var pendingAddress: byte
    var cmdPending: byte
    var cmdHasArg: bool
    var cmdArg: u32
    var addressPtr: u32
    const ep0: Ep0
    const usb: Usb
    const flash: FlashUnit
    const descriptors: Descriptors

    ghost predicate Valid()
      reads this, ep0, usb, usb.pma, ep0.reply, flash
    {
      && usb == ep0.usb && flash == ep0.flash
      && ep0.Valid() && flash.Valid()
      && dfuBuffer.Length == DFU_XFER_SIZE && dfuBuffer != ep0.reply && (usb.pma as object) != dfuBuffer
      && dfuBufferLen <= DFU_XFER_SIZE
      && forall v :: |descriptors(v)| < 0x1_0000
    }

    /** The DFU context the fields stand for. */
    ghost function Context(): Dfu
      requires dfuBufferLen as int <= dfuBuffer.Length
      reads this, dfuBuffer, flash
    {
      Dfu(state, status, address, blockNum, xferLen, dfuBuffer[..dfuBufferLen],
          cmdPending, cmdHasArg, cmdArg, addressPtr, flash.View())
    }

    ghost function View(): Device
      requires Valid()
      reads this, dfuBuffer, ep0, usb, usb.pma, ep0.reply, flash
    {
      Device(Context(), ep0.InFlight(), pendingAddress, usb.address)
    }

    /** `dfu_init` on a fresh controller. */
    constructor (flash: FlashUnit, descriptors: Descriptors)
      requires flash.Valid() && forall v :: |descriptors(v)| < 0x1_0000
      ensures Valid() && fresh(ep0) && fresh(usb) && fresh(usb.pma) && fresh(dfuBuffer) && fresh(ep0.reply)
      ensures this.flash == flash && this.descriptors == descriptors && usb.Ready()
      ensures View() == Device(Initial(flash.View()), Quiet(Nak, 0), 0, 0)
    {
      this.flash, this.descriptors := flash, descriptors;
      state, status := DfuIdle, StatusOk;
      address, blockNum, xferLen := APP_START_ADDRESS, 0, 0;
      dfuBuffer, dfuBufferLen := new byte[DFU_XFER_SIZE](_ => 0), 0;
      pendingAddress := 0;
      cmdPending, cmdHasArg, cmdArg := 0, false, 0;
      addressPtr := APP_START_ADDRESS;
      var e := new Ep0(flash);
      ep0, usb := e, e.usb;
    }

    // ----- DFU requests ---------------------------------------------------

    /** The pending command; returns false where the C code jumps to `send_status`. */
    method ExecuteCommand() returns (ok: bool)
      requires Valid() && cmdPending != 0
      modifies `state, `status, `cmdPending, `addressPtr, flash
      ensures Valid() && (if ok then Context().(state := DnloadIdle) else Context()) == Execute(old(Context()))
    {
      var cmd := cmdPending;
      cmdPending := 0;
      if cmd == CMD_SET_ADDRESS {
        if !cmdHasArg {
          status, state := ErrAddress, DfuError;
          return false;
        }
        addressPtr := cmdArg;
      } else if cmd == CMD_ERASE_PAGE {
        ok := false;
        if cmdHasArg {
          ok := flash.ErasePage(cmdArg);
        }
        if !ok {
          status, state := ErrErase, DfuError;
          return false;
        }
      } else {
        status, state := ErrVendor, DfuError;
        return false;
      }
      return true;
    }

    /** The call of the flash driver on the buffer. */
    method FlashBuffer() returns (ok: bool)
      requires Valid()
      modifies flash
      ensures Valid() && dfuBuffer[..dfuBufferLen] == old(dfuBuffer[..dfuBufferLen])
      ensures FlashResult(ok, flash.View()) == Write(old(flash.View()), address, dfuBuffer[..dfuBufferLen])
    {
      ok := flash.Write(address, dfuBuffer[..dfuBufferLen]);
    }

    /** The write of the buffer; returns false where the C code jumps to `send_status`. */
    method WriteBuffer() returns (ok: bool)
      requires Valid() && cmdPending == 0 && dfuBufferLen > 0
      modifies `state, `status, `address, `dfuBufferLen, flash
      ensures Valid() && (if ok then Context().(state := DnloadIdle) else Context()) == Execute(old(Context()))
    {
      ok := FlashBuffer();
      if ok {
        address := Wrap32(address + dfuBufferLen);
        dfuBufferLen := 0;
        assert dfuBuffer[..0] == [];
      } else {
        status, state := ErrWrite, DfuError;
      }
    }

    /** The branch of GETSTATUS taken from DNBUSY. */
    method ExecutePending()
      requires Valid()
      modifies `state, `status, `address, `dfuBufferLen, `cmdPending, `addressPtr, flash
      ensures Valid() && Context() == Execute(old(Context()))
    {
      var ok := true;
      if cmdPending != 0 {
        ok := ExecuteCommand();
      } else if dfuBufferLen > 0 {
        ok := WriteBuffer();
      }
      if ok {
        state := DnloadIdle;
      }
    }

    /** The reply to GETSTATUS, with the new state in it. */
    method SendStatus(pollTimeout: byte)
      requires Valid()
      modifies ep0`txPtr, ep0`txRemaining, ep0`txNeedZlp, usb`epr, usb.pma, ep0.reply
      ensures Valid() && Context() == old(Context())
      ensures ep0.InFlight() == Send([status.Code(), pollTimeout, 0, 0, state.Code(), 0], ep0.reqLen)
      ensures usb.Flags().statRx.StatValid? && usb.Waiting() == old(usb.Waiting())
    {
      ep0.reply[0] := status.Code();
      ep0.reply[1] := pollTimeout;
      ep0.reply[2] := 0;
      ep0.reply[3] := 0;
      ep0.reply[4] := state.Code();
      ep0.reply[5] := 0;
      assert ep0.reply[..][0..6] == [status.Code(), pollTimeout, 0, 0, state.Code(), 0];
      ep0.SendData(Pointer(Scratch, 0), 6);
    }

    method HandleDfuGetStatus()
      requires Valid() && ep0.Cleared()
      modifies `state, `status, `address, `dfuBufferLen, `cmdPending, `addressPtr, flash
      modifies ep0`txPtr, ep0`txRemaining, ep0`txNeedZlp, usb`epr, usb.pma, ep0.reply
      ensures Valid() && Context() == GetStatus(old(Context()))
      ensures ep0.InFlight() == Send(StatusReply(old(Context())), ep0.reqLen)
      ensures usb.Flags().statRx.StatValid? && usb.Waiting() == old(usb.Waiting())
    {
      var pollTimeout: byte := 0;
      if state == DnloadSync {
        state := DnBusy;
        pollTimeout := 100;
      } else if state == DnBusy {
        ExecutePending();
      } else if state == ManifestSync {
        state := ManifestWaitReset;
      }
      SendStatus(pollTimeout);
    }

    method HandleDfuGetState()
      requires Valid()
      modifies ep0`txPtr, ep0`txRemaining, ep0`txNeedZlp, usb`epr, usb.pma, ep0.reply
      ensures Valid() && Context() == old(Context())
      ensures ep0.InFlight() == Send([state.Code()], ep0.reqLen)
      ensures usb.Flags().statRx.StatValid? && usb.Waiting() == old(usb.Waiting())
    {
      ep0.reply[0] := state.Code();
      assert ep0.reply[..][0..1] == [state.Code()];
      ep0.SendData(Pointer(Scratch, 0), 1);
    }

    /** A DNLOAD in a state that accepts it: note the block and wait for its data. */
    method AcceptDnload(block: u16, len: u16)
      requires Valid() && DnloadAccepted(Context(), block, len)
      modifies `state, `address, `blockNum, `xferLen, `dfuBufferLen
      ensures Valid() && Context() == Dnload(old(Context()), block, len)
    {
      blockNum, xferLen, dfuBufferLen := block, len, 0;
      if block >= 2 {
        address := BlockAddress(addressPtr, block);
      }
      state := DnloadSync;
    }

    /** The empty DNLOAD: enter manifestation. */
    method EndDownload()
      requires Valid()
      modifies `state, ep0`txPtr, ep0`txRemaining, ep0`txNeedZlp, usb`epr, usb.pma
      ensures Valid() && Context() == Dnload(old(Context()), 0, 0)
      ensures ep0.InFlight() == Respond(Quiet(Nak, ep0.reqLen), DnloadResponse(old(Context()), 0, 0))
      ensures usb.Flags().statRx.StatValid? && usb.Waiting() == old(usb.Waiting())
    {
      if state == DnloadIdle {
        state := ManifestSync;
        ep0.SendZlp();
      } else {
        ep0.StallBoth();
      }
    }

    /** A DNLOAD longer than wTransferSize is an error. */
    method RefuseOversized(block: u16, len: u16)
      requires Valid() && len > DFU_XFER_SIZE
      modifies `state, `status, ep0`txPtr, ep0`txRemaining, ep0`txNeedZlp, usb`epr, usb.pma
      ensures Valid() && Context() == Dnload(old(Context()), block, len)
      ensures ep0.InFlight() == Quiet(Stall, ep0.reqLen)
      ensures usb.Flags().statRx.StatValid? && usb.Waiting() == old(usb.Waiting())
    {
      status, state := ErrUnknown, DfuError;
      ep0.StallBoth();
    }

    method HandleDfuDnload(block: u16, len: u16)
      requires Valid() && ep0.Cleared() && usb.Flags().statTx.StatNak?
      modifies `state, `status, `address, `blockNum, `xferLen, `dfuBufferLen
      modifies ep0`txPtr, ep0`txRemaining, ep0`txNeedZlp, usb`epr, usb.pma
      ensures Valid() && Context() == Dnload(old(Context()), block, len)
      ensures ep0.InFlight() == Respond(Quiet(Nak, ep0.reqLen), DnloadResponse(old(Context()), block, len))
      ensures usb.Flags().statRx.StatValid? && usb.Waiting() == old(usb.Waiting())
    {
      if len == 0 {
        EndDownload();
      } else if len > DFU_XFER_SIZE {
        RefuseOversized(block, len);
      } else if block == 1 {
        ep0.StallBoth();
      } else if state == DfuIdle || state == DnloadIdle {
        AcceptDnload(block, len);
        usb.SetRxStatus(EP_RX_VALID);
      } else {
        ep0.StallBoth();
      }
    }

    /** The branch of UPLOAD that reads from the application region. */
    method ServeUpload(addr: u32, len: u16)
      requires Valid() && InRegion(addr)
      modifies `state, ep0`txPtr, ep0`txRemaining, ep0`txNeedZlp, usb`epr, usb.pma
      ensures Valid() && Context() == old(Context()).(state := UploadIdle)
      ensures var o, n := Offset(addr), Min(len, APP_FLASH_END - addr + 1);
        ep0.InFlight() == Send(old(Context().flash.mem[o..o + n]), ep0.reqLen)
      ensures usb.Flags().statRx.StatValid? && usb.Waiting() == old(usb.Waiting())
    {
      var avail := APP_FLASH_END - addr + 1;
      // The C code narrows `avail` to 16 bits when it is the smaller one.
      var readLen := if len < avail then len else avail % 0x1_0000;
      assert readLen == Min(len, avail);
      ep0.SendData(Pointer(MainFlash, Offset(addr)), readLen);
      state := UploadIdle;
    }

    /** The branch of UPLOAD past the region: an empty packet ends the upload. */
    method EndUpload()
      requires Valid()
      modifies `state, ep0`txPtr, ep0`txRemaining, ep0`txNeedZlp, usb`epr, usb.pma
      ensures Valid() && Context() == old(Context()).(state := DfuIdle)
      ensures ep0.InFlight() == Quiet(Data([]), ep0.reqLen)
      ensures usb.Flags().statRx.StatValid? && usb.Waiting() == old(usb.Waiting())
    {
      ep0.SendZlp();
      state := DfuIdle;
    }

    /** An UPLOAD of a data block in a state that accepts it. */
    method AnswerUpload(addr: u32, len: u16)
      requires Valid()
      modifies `state, ep0`txPtr, ep0`txRemaining, ep0`txNeedZlp, usb`epr, usb.pma
      ensures Valid() && Context() == old(Context()).(state := if InRegion(addr) then UploadIdle else DfuIdle)
      ensures ep0.InFlight() ==
        if InRegion(addr) then
          Send(old(Context().flash.mem[Offset(addr)..Offset(addr) + Min(len, APP_FLASH_END - addr + 1)]), ep0.reqLen)
        else
          Quiet(Data([]), ep0.reqLen)
      ensures usb.Flags().statRx.StatValid? && usb.Waiting() == old(usb.Waiting())
    {
      if addr < APP_FLASH_START || addr > APP_FLASH_END {
        EndUpload();
      } else {
        ServeUpload(addr, len);
      }
    }

    method HandleDfuUpload(block: u16, len: u16)
      requires Valid()
      modifies `state, ep0`txPtr, ep0`txRemaining, ep0`txNeedZlp, usb`epr, usb.pma
      ensures Valid() && Context() == Upload(old(Context()), block, len)
      ensures ep0.InFlight() == Respond(Quiet(Nak, ep0.reqLen), UploadResponse(old(Context()), block, len))
      ensures usb.Flags().statRx.StatValid? && usb.Waiting() == old(usb.Waiting())
    {
      if state != DfuIdle && state != UploadIdle {
        ep0.StallBoth();
      } else if block < 2 {
        ep0.StallBoth();
      } else {
        UploadAccepted(Context(), block, len);
        AnswerUpload(BlockAddress(addressPtr, block), len);
      }
    }

    method HandleDfuClrStatus()
      requires Valid()
      modifies `state, `status, ep0`txPtr, ep0`txRemaining, ep0`txNeedZlp, usb`epr, usb.pma
      ensures Valid() && Context() == ClrStatus(old(Context()))
      ensures ep0.InFlight() == Quiet(Data([]), ep0.reqLen)
      ensures usb.Flags().statRx.StatValid? && usb.Waiting() == old(usb.Waiting())
    {
      if state == DfuError {
        status, state := StatusOk, DfuIdle;
      }
      ep0.SendZlp();
    }

    method HandleDfuAbort()
      requires Valid()
      modifies `state, `status, `address, `addressPtr, `cmdPending, `cmdHasArg
      modifies ep0`txPtr, ep0`txRemaining, ep0`txNeedZlp, usb`epr, usb.pma
      ensures Valid() && Context() == Abort(old(Context()))
      ensures ep0.InFlight() == Quiet(Data([]), ep0.reqLen)
      ensures usb.Flags().statRx.StatValid? && usb.Waiting() == old(usb.Waiting())
    {
      status, state := StatusOk, DfuIdle;
      address, addressPtr := APP_START_ADDRESS, APP_START_ADDRESS;
      cmdPending, cmdHasArg := 0, false;
      ep0.SendZlp();
    }

    // ----- packets ---------------------------------------------------------

    /** The OUT packet goes behind what the buffer holds, when it fits. */
    method BufferPacket(count: u16)
      requires Valid() && count <= PacketMemory.EP0_MAX_SIZE
      modifies `dfuBufferLen, dfuBuffer
      ensures Valid() && ep0.InFlight() == old(ep0.InFlight())
      ensures var packet := PacketMemory.Packet(old(usb.pma[..]), PacketMemory.EP0_RX_OFFSET, count);
        Context() == Buffered(old(Context()), packet)
    {
      ghost var data := dfuBuffer[..dfuBufferLen];
      ghost var packet := PacketMemory.Packet(usb.pma[..], PacketMemory.EP0_RX_OFFSET, count);
      if dfuBufferLen + count <= DFU_XFER_SIZE {
        PacketMemory.Read(usb.pma, PacketMemory.EP0_RX_OFFSET, dfuBuffer, dfuBufferLen, count);
        dfuBufferLen := dfuBufferLen + count;
        assert dfuBuffer[..dfuBufferLen] == data + packet;
      }
    }

    /** The decoding of block 0: opcode and little-endian operand. */
    method DecodeBlock0()
      requires Valid() && dfuBufferLen >= 1
      modifies `dfuBufferLen, `cmdPending, `cmdHasArg, `cmdArg
      ensures Valid() && Context() == DecodeCommand(old(Context()))
    {
      ghost var c := Context();
      cmdPending := dfuBuffer[0];
      cmdHasArg := dfuBufferLen >= 5;
      if cmdHasArg {
        assert c.data[1..5] == [dfuBuffer[1], dfuBuffer[2], dfuBuffer[3], dfuBuffer[4]];
        cmdArg := dfuBuffer[1] as int + 0x100 * dfuBuffer[2] as int
          + 0x1_0000 * dfuBuffer[3] as int + 0x100_0000 * dfuBuffer[4] as int;
      }
      dfuBufferLen := 0;
      assert dfuBuffer[..0] == [];
      assert cmdArg == if cmdHasArg then Le32(c.data[1..5]) else c.arg;
      assert Context() == c.(pending := cmdPending, hasArg := cmdHasArg, arg := cmdArg, data := []);
    }

    /** The part of `handle_ep0_out` taken for a data packet. */
    method TakeData(count: u16)
      requires Valid() && state == DnloadSync && 0 < count <= PacketMemory.EP0_MAX_SIZE
      modifies `dfuBufferLen, `cmdPending, `cmdHasArg, `cmdArg, dfuBuffer
      modifies ep0`txPtr, ep0`txRemaining, ep0`txNeedZlp, usb`epr, usb.pma
      ensures Valid() && usb.Flags().ctrTx == old(usb.Flags().ctrTx)
      ensures var packet := PacketMemory.Packet(old(usb.pma[..]), PacketMemory.EP0_RX_OFFSET, count);
        && Context() == OutData(old(Context()), packet)
        && ep0.InFlight() == Respond(old(ep0.InFlight()),
                                     if CompletesBlock(old(Context()), packet) then Acknowledge else Receive)
    {
      BufferPacket(count);
      if dfuBufferLen >= xferLen {
        if blockNum == 0 && dfuBufferLen >= 1 {
          DecodeBlock0();
        }
        ep0.SendZlp();
      }
    }

    method HandleEp0Out()
      requires Valid() && usb.pma[PacketMemory.COUNT_RX] % 0x400 <= PacketMemory.EP0_MAX_SIZE
      modifies `dfuBufferLen, `cmdPending, `cmdHasArg, `cmdArg, dfuBuffer
      modifies ep0`txPtr, ep0`txRemaining, ep0`txNeedZlp, usb`epr, usb.pma
      ensures Valid() && View() == OnOut(old(View()), old(usb.ReceivedPacket()))
      ensures usb.Flags().statRx.StatValid? && !usb.Flags().ctrRx
      ensures usb.Flags().ctrTx == old(usb.Flags().ctrTx)
    {
      var count := usb.pma[PacketMemory.COUNT_RX] % 0x400;
      if state == DnloadSync && count > 0 {
        TakeData(count);
      }
      usb.ClearCtrRx();
      usb.SetRxStatus(EP_RX_VALID);
    }

    method HandleEp0In()
      requires Valid()
      modifies `pendingAddress, usb`address, ep0`txPtr, ep0`txRemaining, ep0`txNeedZlp, usb`epr, usb.pma
      ensures Valid() && View() == OnInDone(old(View()))
      ensures !usb.Flags().ctrTx && usb.Flags().statRx == old(usb.Flags().statRx)
      ensures usb.Flags().ctrRx == old(usb.Flags().ctrRx)
    {
      usb.ClearCtrTx();
      if ep0.txRemaining > 0 {
        ep0.TxChunk();
        return;
      }
      if ep0.txNeedZlp {
        ep0.EndStage();
        return;
      }
      if pendingAddress != 0 {
        usb.address := pendingAddress;
        pendingAddress := 0;
      }
    }

    method UsbReset()
      requires Valid() && usb.Flags().statRx.StatDisabled? && usb.Flags().statTx.StatDisabled?
      modifies `state, `status, `address, `addressPtr, `cmdPending, `cmdHasArg, `dfuBufferLen
      modifies usb`address, ep0`reqLen, ep0`txPtr, ep0`txRemaining, ep0`txNeedZlp, usb`epr, usb.pma
      ensures Valid() && View() == OnReset(old(View()))
      ensures usb.Flags().statRx.StatValid? && usb.Waiting() == old(usb.Waiting())
    {
      usb.Reinitialise();
      status, state := StatusOk, DfuIdle;
      address, addressPtr := APP_START_ADDRESS, APP_START_ADDRESS;
      cmdPending, cmdHasArg := 0, false;
      dfuBufferLen := 0;
      ep0.Clear(0);
      assert dfuBuffer[..0] == [];
    }

    // ----- requests ----------------------------------------------------------

    method HandleGetDescriptor(value: u16, len: u16)
      requires Valid() && ep0.reqLen == len
      modifies ep0`txPtr, ep0`txRemaining, ep0`txNeedZlp, usb`epr, usb.pma
      ensures Valid()
      ensures var d := descriptors(value);
        ep0.InFlight() == Respond(Quiet(Nak, len), if d == [] then Stalled else Reply(Clip(d, len)))
      ensures usb.Flags().statRx.StatValid? && usb.Waiting() == old(usb.Waiting())
    {
      var desc := descriptors(value);
      var descLen := |desc|;
      if desc != [] && descLen > 0 {
        if len < descLen {
          descLen := len;
        }
        assert desc[0..descLen] == Clip(desc, len);
        ep0.SendData(Pointer(Constant(desc), 0), descLen);
      } else {
        ep0.StallBoth();
      }
    }

    /** A reply of one or two bytes from the scratch buffer. */
    method SendScratch(bytes: seq<byte>)
      requires Valid() && |bytes| <= 2
      modifies ep0`txPtr, ep0`txRemaining, ep0`txNeedZlp, usb`epr, usb.pma, ep0.reply
      ensures Valid() && Context() == old(Context())
      ensures ep0.InFlight() == Send(bytes, ep0.reqLen)
      ensures usb.Flags().statRx.StatValid? && usb.Waiting() == old(usb.Waiting())
    {
      if |bytes| > 0 {
        ep0.reply[0] := bytes[0];
      }
      if |bytes| > 1 {
        ep0.reply[1] := bytes[1];
      }
      assert ep0.reply[..][0..|bytes|] == bytes;
      ep0.SendData(Pointer(Scratch, 0), |bytes|);
    }

    method HandleStandard(setup: Setup)
      requires Valid() && ep0.reqLen == setup.wLength && setup.Standard()
      modifies `pendingAddress, ep0`txPtr, ep0`txRemaining, ep0`txNeedZlp, usb`epr, usb.pma, ep0.reply
      ensures Valid() && Context() == old(Context())
      ensures ep0.InFlight() == Respond(Quiet(Nak, setup.wLength), StandardResponse(setup, descriptors))
      ensures pendingAddress ==
        if setup.bRequest == USB_REQ_SET_ADDRESS then setup.wValue % 0x80 else old(pendingAddress)
      ensures usb.Flags().statRx.StatValid? && usb.Waiting() == old(usb.Waiting())
    {
      if setup.bRequest == USB_REQ_GET_DESCRIPTOR {
        HandleGetDescriptor(setup.wValue, setup.wLength);
      } else if setup.bRequest == USB_REQ_SET_ADDRESS {
        pendingAddress := setup.wValue % 0x80;
        ep0.SendZlp();
      } else if setup.bRequest == USB_REQ_SET_CONFIGURATION {
        ep0.SendZlp();
      } else if setup.bRequest == USB_REQ_GET_CONFIGURATION {
        SendScratch([1]);
      } else if setup.bRequest == USB_REQ_GET_STATUS {
        SendScratch([0, 0]);
      } else {
        ep0.StallBoth();
      }
    }

    method HandleClass(setup: Setup)
      requires Valid() && ep0.reqLen == setup.wLength && ep0.Cleared() && usb.Flags().statTx.StatNak?
      modifies `state, `status, `address, `blockNum, `xferLen, `dfuBufferLen
      modifies `cmdPending, `cmdHasArg, `addressPtr, flash
      modifies ep0`txPtr, ep0`txRemaining, ep0`txNeedZlp, usb`epr, usb.pma, ep0.reply
      ensures Valid() && Context() == OnClassRequest(old(Context()), setup)
      ensures ep0.InFlight() == Respond(Quiet(Nak, setup.wLength), ClassResponse(old(Context()), setup))
      ensures usb.Flags().statRx.StatValid? && usb.Waiting() == old(usb.Waiting())
    {
      if setup.bRequest == DFU_GETSTATUS {
        HandleDfuGetStatus();
      } else if setup.bRequest == DFU_GETSTATE {
        HandleDfuGetState();
      } else if setup.bRequest == DFU_DNLOAD {
        HandleDfuDnload(setup.wValue, setup.wLength);
      } else if setup.bRequest == DFU_UPLOAD {
        HandleDfuUpload(setup.wValue, setup.wLength);
      } else if setup.bRequest == DFU_CLRSTATUS {
        HandleDfuClrStatus();
      } else if setup.bRequest == DFU_ABORT {
        HandleDfuAbort();
      } else {
        ep0.StallBoth();
      }
    }

    /** The SETUP packet in the reception buffer. */
    method ReadSetup() returns (setup: Setup)
      requires Valid()
      ensures setup == usb.ReceivedSetup()
    {
      var raw := new byte[8];
      PacketMemory.Read(usb.pma, PacketMemory.EP0_RX_OFFSET, raw, 0, 8);
      setup := ParseSetup(raw[..]);
    }

    method HandleSetup()
      requires Valid() && usb.Flags().statTx.StatNak?
      modifies `state, `status, `address, `blockNum, `xferLen, `dfuBufferLen, `pendingAddress
      modifies `cmdPending, `cmdHasArg, `addressPtr, flash
      modifies ep0`txPtr, ep0`txRemaining, ep0`txNeedZlp, usb`epr, usb.pma, ep0.reply, ep0`reqLen
      ensures Valid() && View() == OnSetup(old(View()), old(usb.ReceivedSetup()), descriptors)
      ensures usb.Flags().statRx.StatValid? && !usb.Flags().ctrRx
      ensures usb.Flags().ctrTx == old(usb.Flags().ctrTx)
    {
      var setup := ReadSetup();
      usb.ClearCtrRx();
      ep0.Clear(setup.wLength);
      if setup.Standard() {
        HandleStandard(setup);
      } else if setup.Class() {
        HandleClass(setup);
      } else {
        ep0.StallBoth();
      }
    }

    // ----- polling -------------------------------------------------------------

    /** The branch of `usb_poll` for a received packet. */
    method ServeReception(epr: bv16)
      requires Valid() && epr == usb.epr && usb.Flags().ctrRx
      requires usb.Flags().setup ==> usb.Flags().statTx.StatNak?
      requires !usb.Flags().setup ==> usb.pma[PacketMemory.COUNT_RX] % 0x400 <= PacketMemory.EP0_MAX_SIZE
      modifies this, ep0, usb`epr, usb.pma, ep0.reply, dfuBuffer, flash
      ensures Valid()
      ensures View() ==
        if old(usb.Flags().setup) then OnSetup(old(View()), old(usb.ReceivedSetup()), descriptors)
        else OnOut(old(View()), old(usb.ReceivedPacket()))
      ensures usb.Flags().statRx.StatValid? && !usb.Flags().ctrRx && usb.Flags().ctrTx == old(usb.Flags().ctrTx)
    {
      if epr & EP_SETUP != 0 {
        HandleSetup();
      } else {
        HandleEp0Out();
      }
    }

    /** `usb_poll`. Endpoint 0 is the only one enabled, so CTR stands for its two flags. */
    method UsbPoll()
      requires Valid()
      requires usb.reset ==> usb.Flags().statRx.StatDisabled? && usb.Flags().statTx.StatDisabled?
      requires usb.Flags().ctrRx && usb.Flags().setup ==> usb.Flags().statTx.StatNak?
      requires usb.Flags().ctrRx && !usb.Flags().setup
        ==> usb.pma[PacketMemory.COUNT_RX] % 0x400 <= PacketMemory.EP0_MAX_SIZE
      modifies this, ep0, usb, usb.pma, ep0.reply, dfuBuffer, flash
      ensures Valid() && !usb.reset
      ensures View() == Polled(old(View()), old(usb.Look()), descriptors)
      ensures old(usb.reset) ==> usb.Flags().statRx.StatValid? && usb.Waiting() == old(usb.Waiting())
      ensures !old(usb.reset) ==> !usb.Flags().ctrRx && !usb.Flags().ctrTx
      ensures !old(usb.reset) && (old(usb.Flags().ctrRx) || old(usb.Flags().statRx.StatValid?))
          ==> usb.Flags().statRx.StatValid?
    {
      if usb.reset {
        usb.reset := false;
        UsbReset();
        return;
      }
      var epr := usb.epr;
      if epr & EP_CTR_RX != 0 {
        ServeReception(epr);
      }
      if epr & EP_CTR_TX != 0 {
        HandleEp0In();
      }
    }

    /** The controller's part in a tick. */
    method PostTick(t: Tick)
      requires Valid() && usb.Ready() && t.Deliverable()
      modifies usb, usb.pma
      ensures Valid() && Shows(usb.Look(), t) && View() == Posted(old(View()), t)
      ensures usb.reset ==> usb.Flags().statRx.StatDisabled? && usb.Flags().statTx.StatDisabled?
      ensures usb.reset ==> !usb.Flags().ctrRx && !usb.Flags().ctrTx
      ensures !usb.reset ==> usb.Flags().ctrRx || usb.Flags().statRx.StatValid?
      ensures usb.Flags().ctrRx && usb.Flags().setup ==> usb.Flags().statTx.StatNak?
      ensures usb.Flags().ctrRx && !usb.Flags().setup
        ==> usb.pma[PacketMemory.COUNT_RX] % 0x400 <= PacketMemory.EP0_MAX_SIZE
    {
      match t {
        case Silent =>
        case Bus(e) => usb.Post(e);
        case Coalesced(e) => usb.PostCoalesced(e);
      }
    }

    /** What the bus brings between two polls reaches the controller, and the main loop polls. */
    method ServeTick(t: Tick)
      requires Valid() && usb.Ready() && t.Deliverable()
      modifies this, ep0, usb, usb.pma, ep0.reply, dfuBuffer, flash
      ensures Valid() && usb.Ready()
      ensures View() == TickStep(old(View()), t, descriptors)
    {
      ghost var d := View();
      PostTick(t);
      PolledIsStep(d, t, usb.Look(), descriptors);
      UsbPoll();
    }
  }
}
