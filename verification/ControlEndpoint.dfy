/**
  The control-IN side of src/usb_dfu.c: the `ep0_tx_*` variables and the functions
  that send on endpoint 0.
 */
module ControlEndpoint {
  import opened Words
  import NorFlash
  import opened FlashController
  import PacketMemory
  import opened EndpointRegister
  import opened Ep0Transfer
  import opened UsbPeripheral

  /** The memory `ep0_tx_ptr` points into: nothing, the reply scratch, constant data, main flash. */
  datatype Area = Nothing | Scratch | Constant(bytes: seq<byte>) | MainFlash {
    function Bytes(reply: seq<byte>, mem: seq<byte>): seq<byte> {
      match this
      case Nothing => []
      case Scratch => reply
      case Constant(bytes) => bytes
      case MainFlash => mem
    }

    function Size(): nat {
      match this
      case Nothing => 0
      case Scratch => 8
      case Constant(bytes) => |bytes|
      case MainFlash => NorFlash.FLASH_SIZE
    }
  }

  datatype Pointer = Pointer(area: Area, at: nat)

  const NULL := Pointer(Nothing, 0)

  /** `n` bytes can be read at `p`. */
  predicate Readable(p: Pointer, n: nat) {
    p.at + n <= p.area.Size()
  }

  class Ep0 {
    var txPtr: Pointer
    var txRemaining: u16
    var txNeedZlp: bool
    var reqLen: u16
    const reply: array<byte>
    const usb: Usb
    const flash: FlashUnit

    ghost predicate Valid()
      reads this, usb, usb.pma, flash`mem
    {
      && usb.Valid() && reply.Length == 8 && (usb.pma as object) != reply
      && |flash.mem| == NorFlash.FLASH_SIZE
      && Readable(txPtr, txRemaining)
    }

    /** No data stage is in flight. */
    ghost predicate Cleared()
      reads this
    {
      txPtr == NULL && txRemaining == 0 && !txNeedZlp
    }

    /** The `n` bytes at `p`. */
    function Pointed(p: Pointer, n: nat): (d: seq<byte>)
      requires reply.Length == 8 && |flash.mem| == NorFlash.FLASH_SIZE && Readable(p, n)
      reads reply, flash`mem
      ensures |d| == n
    {
      p.area.Bytes(reply[..], flash.mem)[p.at..p.at + n]
    }

    ghost function InFlight(): InTransfer
      requires Valid()
      reads this, usb, usb.pma, reply, flash`mem
    {
      InTransfer(usb.Answer(), Pointed(txPtr, txRemaining), txNeedZlp, reqLen)
    }

    constructor (flash: FlashUnit)
      requires |flash.mem| == NorFlash.FLASH_SIZE
      ensures Valid() && fresh(usb) && fresh(usb.pma) && fresh(reply) && this.flash == flash
      ensures usb.Ready() && usb.address == 0 && InFlight() == Quiet(Nak, 0)
    {
      txPtr, txRemaining, txNeedZlp, reqLen := NULL, 0, false, 0;
      reply := new byte[8](_ => 0);
      usb := new Usb();
      this.flash := flash;
    }

    /** `ep0_tx_chunk` */
    method TxChunk()
      requires Valid()
      modifies `txPtr, `txRemaining, usb`epr, usb.pma
      ensures Valid() && InFlight() == NextChunk(old(InFlight()))
      ensures usb.Flags() == old(usb.Flags()).(statTx := StatValid)
    {
      var chunk := txRemaining;
      if chunk > PacketMemory.EP0_MAX_SIZE {
        chunk := PacketMemory.EP0_MAX_SIZE;
      }
      SliceSplit(txPtr.area.Bytes(reply[..], flash.mem), txPtr.at, txRemaining, chunk);
      usb.QueuePacket(Pointed(txPtr, chunk));
      txPtr := txPtr.(at := txPtr.at + chunk);
      txRemaining := txRemaining - chunk;
    }

    /** The first half of `ep0_send`: note the clipped data stage and whether it owes a ZLP. */
    method Load(data: Pointer, length: u16)
      requires Valid() && Readable(data, length)
      modifies `txPtr, `txRemaining, `txNeedZlp
      ensures Valid()
      ensures var d := Clip(Pointed(data, length), reqLen);
        InFlight() == InTransfer(usb.Answer(), d, 0 < |d| < reqLen && |d| % PacketMemory.EP0_MAX_SIZE == 0, reqLen)
    {
      var len := length;
      if len > reqLen {
        len := reqLen;
      }
      txPtr, txRemaining := data, len;
      txNeedZlp := len > 0 && len < reqLen && len % PacketMemory.EP0_MAX_SIZE == 0;
      SliceSplit(data.area.Bytes(reply[..], flash.mem), data.at, length, len);
    }

    /** `ep0_send` */
    method SendData(data: Pointer, length: u16)
      requires Valid() && Readable(data, length)
      modifies `txPtr, `txRemaining, `txNeedZlp, usb`epr, usb.pma
      ensures Valid() && InFlight() == Send(Pointed(data, length), reqLen)
      ensures usb.Flags() == old(usb.Flags()).(statTx := StatValid, statRx := StatValid)
    {
      Load(data, length);
      TxChunk();
      usb.SetRxStatus(EP_RX_VALID);
    }

    /** The empty packet that ends a data stage of whole packets. */
    method EndStage()
      requires Valid() && txRemaining == 0 && txNeedZlp
      modifies `txNeedZlp, usb`epr, usb.pma
      ensures Valid() && InFlight() == OnCompletion(old(InFlight()))
      ensures usb.Flags() == old(usb.Flags()).(statTx := StatValid)
    {
      txNeedZlp := false;
      usb.QueuePacket([]);
    }

    /** Nothing is in flight any more; the budget of the next reply is `len`. */
    method Clear(len: u16)
      requires Valid()
      modifies `txPtr, `txRemaining, `txNeedZlp, `reqLen
      ensures Valid() && Cleared() && reqLen == len && InFlight() == Quiet(usb.Answer(), len)
    {
      txPtr, txRemaining, txNeedZlp, reqLen := NULL, 0, false, len;
    }

    /** `ep0_send_zlp` */
    method SendZlp()
      requires Valid()
      modifies `txPtr, `txRemaining, `txNeedZlp, usb`epr, usb.pma
      ensures Valid() && InFlight() == Quiet(Data([]), reqLen)
      ensures usb.Flags() == old(usb.Flags()).(statTx := StatValid, statRx := StatValid)
    {
      txPtr, txRemaining, txNeedZlp := NULL, 0, false;
      usb.QueuePacket([]);
      usb.SetRxStatus(EP_RX_VALID);
    }

    /** `ep0_stall` */
    method StallBoth()
      requires Valid()
      modifies `txPtr, `txRemaining, `txNeedZlp, usb`epr
      ensures Valid() && InFlight() == Quiet(Stall, reqLen)
      ensures usb.Flags() == old(usb.Flags()).(statTx := StatStall, statRx := StatValid)
    {
      txPtr, txRemaining, txNeedZlp := NULL, 0, false;
      usb.SetTxStatus(EP_TX_STALL);
      usb.SetRxStatus(EP_RX_VALID);
    }
  }
}
