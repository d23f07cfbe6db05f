/**
  The DFU 1.1 state machine with the DfuSe extension, as a function from a USB
  event and the device's state to its next state. The handlers of the UsbDfu class
  are proved against it.
 */
module DfuProtocol {
  import opened Words
  import opened NorFlash
  import opened Ep0Transfer

  const DFU_XFER_SIZE := 1024
  const APP_START_ADDRESS: u32 := APP_FLASH_START
  const CMD_SET_ADDRESS: byte := 0x21
  const CMD_ERASE_PAGE: byte := 0x41

  const DFU_DNLOAD: byte := 0x01
  const DFU_UPLOAD: byte := 0x02
  const DFU_GETSTATUS: byte := 0x03
  const DFU_CLRSTATUS: byte := 0x04
  const DFU_GETSTATE: byte := 0x05
  const DFU_ABORT: byte := 0x06

  const USB_REQ_GET_STATUS: byte := 0x00
  const USB_REQ_SET_ADDRESS: byte := 0x05
  const USB_REQ_GET_DESCRIPTOR: byte := 0x06
  const USB_REQ_GET_CONFIGURATION: byte := 0x08
  const USB_REQ_SET_CONFIGURATION: byte := 0x09

  datatype State =
    | AppIdle | AppDetach | DfuIdle | DnloadSync | DnBusy | DnloadIdle
    | ManifestSync | Manifest | ManifestWaitReset | UploadIdle | DfuError
  {
    /** bState of the DFU specification. */
    function Code(): byte {
      match this
      case AppIdle => 0
      case AppDetach => 1
      case DfuIdle => 2
      case DnloadSync => 3
      case DnBusy => 4
      case DnloadIdle => 5
      case ManifestSync => 6
      case Manifest => 7
      case ManifestWaitReset => 8
      case UploadIdle => 9
      case DfuError => 10
    }
  }

  /** The status codes the bootloader reports. */
  datatype Status = StatusOk | ErrWrite | ErrErase | ErrAddress | ErrVendor | ErrUnknown {
    /** bStatus of the DFU specification. */
    function Code(): byte {
      match this
      case StatusOk => 0x00
      case ErrWrite => 0x03
      case ErrErase => 0x04
      case ErrAddress => 0x08
      case ErrVendor => 0x0B
      case ErrUnknown => 0x0E
    }
  }

  datatype Setup = Setup(bmRequestType: byte, bRequest: byte, wValue: u16, wIndex: u16, wLength: u16) {
    predicate Standard() {
      bmRequestType / 0x20 % 4 == 0
    }

    predicate Class() {
      bmRequestType / 0x20 % 4 == 1
    }
  }

  /** What the bus brings: `Out` is an OUT packet, `InDone` an acknowledged IN packet. */
  datatype Event = SetupEvent(setup: Setup) | Out(packet: seq<byte>) | InDone | BusReset

  /** The endpoint buffer holds 64 bytes. */
  predicate Deliverable(e: Event) {
    e.Out? ==> |e.packet| <= 64
  }

  /**
    The DFU context. `data` is the filled part of the reassembly buffer; `pending`
    is the command decoded from block 0 (0 for none) with its operand in `arg`;
    `pointer` is what data blocks are numbered from.
   */
  datatype Dfu = Dfu(
    state: State, status: Status, address: u32, blockNum: u16, xferLen: u16,
    data: seq<byte>, pending: byte, hasArg: bool, arg: u32, pointer: u32, flash: Flash)
  {
    ghost predicate Wf() {
      |data| <= DFU_XFER_SIZE && flash.Wf()
    }
  }

  function Fail(c: Dfu, status: Status): Dfu {
    c.(state := DfuError, status := status)
  }

  /** Where data block `block` goes, in 32-bit arithmetic. */
  function BlockAddress(pointer: u32, block: u16): u32
    requires 2 <= block
  {
    Wrap32(pointer + (block - 2) * DFU_XFER_SIZE)
  }

  /** The deferred operation: the pending command if there is one, else the buffered data. */
  function Execute(c: Dfu): (r: Dfu)
    requires c.Wf()
    ensures r.Wf()
  {
    if c.pending == CMD_SET_ADDRESS then
      var d := c.(pending := 0);
      if !c.hasArg then Fail(d, ErrAddress) else d.(pointer := c.arg, state := DnloadIdle)
    else if c.pending == CMD_ERASE_PAGE then
      var d := c.(pending := 0);
      if !c.hasArg then Fail(d, ErrErase)
      else
        var r := Erase(c.flash, c.arg);
        if r.ok then d.(flash := r.flash, state := DnloadIdle) else Fail(d.(flash := r.flash), ErrErase)
    else if c.pending != 0 then
      Fail(c.(pending := 0), ErrVendor)
    else if c.data != [] then
      var r := Write(c.flash, c.address, c.data);
      if r.ok then
        c.(flash := r.flash, address := Wrap32(c.address + |c.data|), data := [], state := DnloadIdle)
      else
        Fail(c.(flash := r.flash), ErrWrite)
    else
      c.(state := DnloadIdle)
  }

  function GetStatus(c: Dfu): (r: Dfu)
    requires c.Wf()
    ensures r.Wf()
  {
    match c.state
    case DnloadSync => c.(state := DnBusy)
    case DnBusy => Execute(c)
    case ManifestSync => c.(state := ManifestWaitReset)
    case _ => c
  }

  predicate DnloadAccepted(c: Dfu, block: u16, len: u16) {
    0 < len <= DFU_XFER_SIZE && block != 1 && (c.state == DfuIdle || c.state == DnloadIdle)
  }

  function Dnload(c: Dfu, block: u16, len: u16): (r: Dfu)
    requires c.Wf()
    ensures r.Wf()
  {
    if len == 0 then
      if c.state == DnloadIdle then c.(state := ManifestSync) else c
    else if len > DFU_XFER_SIZE then
      Fail(c, ErrUnknown)
    else if DnloadAccepted(c, block, len) then
      var address := if 2 <= block then BlockAddress(c.pointer, block) else c.address;
      c.(blockNum := block, xferLen := len, data := [], address := address, state := DnloadSync)
    else
      c
  }

  /** What an UPLOAD request comes to. */
  datatype UploadAnswer = Refuse | PastEnd | Serve(at: u32, len: u16)

  function UploadPlan(c: Dfu, block: u16, len: u16): (u: UploadAnswer)
    ensures u.Serve? ==> InRegion(u.at) && (u.len == 0 || InRegion(u.at + u.len - 1))
  {
    if (c.state != DfuIdle && c.state != UploadIdle) || block < 2 then Refuse
    else
      var at := BlockAddress(c.pointer, block);
      if !InRegion(at) then PastEnd else Serve(at, Min(len, APP_FLASH_END - at + 1))
  }

  function Upload(c: Dfu, block: u16, len: u16): Dfu {
    match UploadPlan(c, block, len)
    case Refuse => c
    case PastEnd => c.(state := DfuIdle)
    case Serve(_, _) => c.(state := UploadIdle)
  }

  function ClrStatus(c: Dfu): Dfu {
    if c.state == DfuError then c.(status := StatusOk, state := DfuIdle) else c
  }

  function Abort(c: Dfu): Dfu {
    c.(state := DfuIdle, status := StatusOk, address := APP_START_ADDRESS, pointer := APP_START_ADDRESS,
       pending := 0, hasArg := false)
  }

  function Reset(c: Dfu): Dfu {
    Abort(c).(data := [])
  }

  /** The command in the buffer of a complete block 0. */
  function DecodeCommand(c: Dfu): Dfu
    requires c.data != []
  {
    var hasArg := 5 <= |c.data|;
    c.(pending := c.data[0], hasArg := hasArg, arg := if hasArg then Le32(c.data[1..5]) else c.arg, data := [])
  }

  /** The packet appended when it fits, dropped when it does not. */
  function Buffered(c: Dfu, packet: seq<byte>): Dfu {
    if |c.data| + |packet| <= DFU_XFER_SIZE then c.(data := c.data + packet) else c
  }

  predicate CompletesBlock(c: Dfu, packet: seq<byte>) {
    c.state == DnloadSync && packet != [] && |Buffered(c, packet).data| >= c.xferLen
  }

  function OutData(c: Dfu, packet: seq<byte>): (r: Dfu)
    requires c.Wf()
    ensures r.Wf()
  {
    if c.state != DnloadSync || packet == [] then c
    else
      var d := Buffered(c, packet);
      if |d.data| >= c.xferLen && c.blockNum == 0 && d.data != [] then DecodeCommand(d) else d
  }

  function OnClassRequest(c: Dfu, s: Setup): (r: Dfu)
    requires c.Wf()
    ensures r.Wf()
  {
    if s.bRequest == DFU_GETSTATUS then GetStatus(c)
    else if s.bRequest == DFU_DNLOAD then Dnload(c, s.wValue, s.wLength)
    else if s.bRequest == DFU_UPLOAD then Upload(c, s.wValue, s.wLength)
    else if s.bRequest == DFU_CLRSTATUS then ClrStatus(c)
    else if s.bRequest == DFU_ABORT then Abort(c)
    else c
  }

  /** The DFU context after one event. */
  function Step(c: Dfu, e: Event): (r: Dfu)
    requires c.Wf()
    ensures r.Wf()
  {
    match e
    case SetupEvent(s) => if s.Class() then OnClassRequest(c, s) else c
    case Out(packet) => OutData(c, packet)
    case InDone => c
    case BusReset => Reset(c)
  }

  /** The DFU context after a run of events. */
  function Run(c: Dfu, events: seq<Event>): (r: Dfu)
    requires c.Wf()
    ensures r.Wf()
    decreases |events|
  {
    if events == [] then c else Step(Run(c, events[..|events| - 1]), events[|events| - 1])
  }

  lemma {:induction false} RunAppend(c: Dfu, a: seq<Event>, b: seq<Event>)
    requires c.Wf()
    ensures Run(c, a + b) == Run(Run(c, a), b)
    decreases |b|
  {
    if b == [] {
      assert a + b == a;
    } else {
      assert (a + b)[..|a + b| - 1] == a + b[..|b| - 1];
      RunAppend(c, a, b[..|b| - 1]);
    }
  }

  lemma RunSnoc(c: Dfu, events: seq<Event>, e: Event)
    requires c.Wf()
    ensures Run(c, events + [e]) == Step(Run(c, events), e)
  {
    assert (events + [e])[..|events|] == events;
  }

  lemma RunOne(c: Dfu, e: Event)
    requires c.Wf()
    ensures Run(c, [e]) == Step(c, e)
  {
    assert [e][..0] == [];
    assert Run(c, [e][..0]) == c;
  }

  /** The run of `events` from `c` ends in `d`; stated so that a proof sees the run only when it names it. */
  ghost predicate Leads(c: Dfu, events: seq<Event>, d: Dfu) {
    c.Wf() && forall run :: run == events ==> Run(c, run) == d
  }

  lemma LeadsTo(c: Dfu, events: seq<Event>, d: Dfu)
    requires Leads(c, events, d)
    ensures Run(c, events) == d
  {
  }

  lemma LeadsAppend(c: Dfu, a: seq<Event>, d: Dfu, b: seq<Event>, e: Dfu)
    requires Leads(c, a, d) && d.Wf() && Leads(d, b, e)
    ensures Leads(c, a + b, e)
  {
    RunAppend(c, a, b);
    LeadsTo(c, a, d);
    LeadsTo(d, b, e);
  }

  lemma LeadsOne(c: Dfu, e: Event)
    requires c.Wf()
    ensures Leads(c, [e], Step(c, e))
  {
    RunOne(c, e);
  }

  lemma LeadsSnoc(c: Dfu, events: seq<Event>, d: Dfu, e: Event)
    requires Leads(c, events, d) && d.Wf()
    ensures Leads(c, events + [e], Step(d, e))
  {
    LeadsTo(c, events, d);
    RunSnoc(c, events, e);
  }

  /** The DFU context `dfu_init` sets up. */
  function Initial(flash: Flash): Dfu {
    Dfu(DfuIdle, StatusOk, APP_START_ADDRESS, 0, 0, [], 0, false, 0, APP_START_ADDRESS, flash)
  }

  // ----- the control endpoint on top ----------------------------------------

  /** How a handler leaves the control endpoint. */
  datatype Response = Stalled | Acknowledge | Reply(data: seq<byte>) | Receive

  function Respond(t: InTransfer, r: Response): InTransfer {
    match r
    case Stalled => Quiet(Stall, t.reqLen)
    case Acknowledge => Quiet(Data([]), t.reqLen)
    case Reply(data) => Send(data, t.reqLen)
    case Receive => t
  }

  /** The six GETSTATUS bytes: status, poll timeout, the new state, string index. */
  function StatusReply(before: Dfu): (r: seq<byte>)
    requires before.Wf()
    ensures |r| == 6
  {
    var c := GetStatus(before);
    [c.status.Code(), if before.state == DnloadSync then 100 else 0, 0, 0, c.state.Code(), 0]
  }

  function UploadResponse(c: Dfu, block: u16, len: u16): Response
    requires c.Wf()
  {
    match UploadPlan(c, block, len)
    case Refuse => Stalled
    case PastEnd => Acknowledge
    case Serve(at, n) => Reply(c.flash.mem[Offset(at)..Offset(at) + n])
  }

  /** What UPLOAD of a data block does in a state that accepts it. */
  lemma UploadAccepted(c: Dfu, block: u16, len: u16)
    requires c.Wf() && (c.state == DfuIdle || c.state == UploadIdle) && 2 <= block
    ensures var a := BlockAddress(c.pointer, block);
      && Upload(c, block, len) == c.(state := if InRegion(a) then UploadIdle else DfuIdle)
      && UploadResponse(c, block, len) ==
           if InRegion(a) then Reply(c.flash.mem[Offset(a)..Offset(a) + Min(len, APP_FLASH_END - a + 1)])
           else Acknowledge
  {
  }

  function DnloadResponse(c: Dfu, block: u16, len: u16): Response {
    if len == 0 && c.state == DnloadIdle then Acknowledge
    else if DnloadAccepted(c, block, len) then Receive
    else Stalled
  }

  function ClassResponse(c: Dfu, s: Setup): Response
    requires c.Wf()
  {
    if s.bRequest == DFU_GETSTATUS then Reply(StatusReply(c))
    else if s.bRequest == DFU_GETSTATE then Reply([c.state.Code()])
    else if s.bRequest == DFU_DNLOAD then DnloadResponse(c, s.wValue, s.wLength)
    else if s.bRequest == DFU_UPLOAD then UploadResponse(c, s.wValue, s.wLength)
    else if s.bRequest == DFU_CLRSTATUS || s.bRequest == DFU_ABORT then Acknowledge
    else Stalled
  }

  /** The descriptors by wValue; the empty sequence stands for none. */
  type Descriptors = u16 -> seq<byte>

  function StandardResponse(s: Setup, descriptors: Descriptors): Response {
    if s.bRequest == USB_REQ_GET_DESCRIPTOR then
      var d := descriptors(s.wValue);
      if d == [] then Stalled else Reply(Clip(d, s.wLength))
    else if s.bRequest == USB_REQ_SET_ADDRESS || s.bRequest == USB_REQ_SET_CONFIGURATION then Acknowledge
    else if s.bRequest == USB_REQ_GET_CONFIGURATION then Reply([1])
    else if s.bRequest == USB_REQ_GET_STATUS then Reply([0, 0])
    else Stalled
  }

  /** The whole device: DFU context, transfer in flight and bus address. */
  datatype Device = Device(dfu: Dfu, ep0: InTransfer, pendingAddress: byte, busAddress: byte)

  function OnSetup(d: Device, s: Setup, descriptors: Descriptors): Device
    requires d.dfu.Wf()
  {
    var response :=
      if s.Standard() then StandardResponse(s, descriptors)
      else if s.Class() then ClassResponse(d.dfu, s)
      else Stalled;
    var address :=
      if s.Standard() && s.bRequest == USB_REQ_SET_ADDRESS then s.wValue % 0x80 else d.pendingAddress;
    Device(Step(d.dfu, SetupEvent(s)), Respond(Quiet(Nak, s.wLength), response), address, d.busAddress)
  }

  function OnOut(d: Device, packet: seq<byte>): Device
    requires d.dfu.Wf()
  {
    var ack := CompletesBlock(d.dfu, packet);
    d.(dfu := Step(d.dfu, Out(packet)), ep0 := Respond(d.ep0, if ack then Acknowledge else Receive))
  }

  function OnInDone(d: Device): Device {
    if Outstanding(d.ep0) != 0 || d.pendingAddress == 0 then d.(ep0 := OnCompletion(d.ep0))
    else d.(ep0 := OnCompletion(d.ep0), busAddress := d.pendingAddress, pendingAddress := 0)
  }

  function OnReset(d: Device): Device
    requires d.dfu.Wf()
  {
    Device(Step(d.dfu, BusReset), Quiet(Nak, 0), d.pendingAddress, 0)
  }

  /** The device after one event, the controller's own part in it included. */
  function DeviceStep(d: Device, e: Event, descriptors: Descriptors): (r: Device)
    requires d.dfu.Wf()
    ensures r.dfu == Step(d.dfu, e)
  {
    match e
    case SetupEvent(s) => OnSetup(d, s, descriptors)
    case Out(packet) => OnOut(d, packet)
    case InDone => OnInDone(d.(ep0 := d.ep0.(answer := Nak)))
    case BusReset => OnReset(d)
  }

  function DeviceRun(d: Device, events: seq<Event>, descriptors: Descriptors): (r: Device)
    requires d.dfu.Wf()
    ensures r.dfu == Run(d.dfu, events)
    decreases |events|
  {
    if events == [] then d
    else DeviceStep(DeviceRun(d, events[..|events| - 1], descriptors), events[|events| - 1], descriptors)
  }
}
