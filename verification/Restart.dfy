/**
  ABORT and bus reset as ways out of anything: the device behaves from then on as a
  fresh one over the same flash, and takes any download.
 */
module Restart {
  import opened Words
  import opened NorFlash
  import opened Ep0Transfer
  import opened DfuProtocol
  import opened DataStage
  import opened Safety
  import opened Session
  import opened Download
  import opened Requests

  // ----- what no later event can tell apart -------------------------------------------

  /**
    Two contexts that differ only in what is overwritten before it is used: the block
    and its data outside a transfer, and the operand when no command waits for it.
   */
  ghost predicate Alike(a: Dfu, b: Dfu) {
    && a.state == b.state && a.status == b.status && a.address == b.address && a.pointer == b.pointer
    && a.pending == b.pending && a.flash == b.flash
    && (InTransferState(a) ==> a.blockNum == b.blockNum && a.xferLen == b.xferLen && a.data == b.data)
    && (a.pending != 0 ==> a.hasArg == b.hasArg && (a.hasArg ==> a.arg == b.arg))
  }

  /** Without a command the operand is not looked at. */
  lemma OperandIgnored(c: Dfu, hasArg: bool, arg: u32)
    requires c.Wf() && c.pending == 0
    ensures Execute(c.(hasArg := hasArg, arg := arg)) == Execute(c).(hasArg := hasArg, arg := arg)
  {
  }

  lemma ExecuteAlike(a: Dfu, b: Dfu)
    requires a.Wf() && b.Wf() && Alike(a, b) && a.state == DnBusy
    ensures Alike(Execute(a), Execute(b))
  {
    if a.pending == 0 {
      assert b == a.(hasArg := b.hasArg, arg := b.arg);
      OperandIgnored(a, b.hasArg, b.arg);
      ExecuteEnds(a);
    } else if a.hasArg {
      assert a == b;
    }
  }

  lemma StatusAlike(a: Dfu, b: Dfu)
    requires a.Wf() && b.Wf() && Alike(a, b)
    ensures Alike(GetStatus(a), GetStatus(b)) && StatusReply(a) == StatusReply(b)
  {
    if a.state == DnBusy {
      ExecuteAlike(a, b);
    }
  }

  lemma DnloadAlike(a: Dfu, b: Dfu, block: u16, len: u16)
    requires a.Wf() && b.Wf() && Alike(a, b)
    ensures Alike(Dnload(a, block, len), Dnload(b, block, len))
    ensures DnloadResponse(a, block, len) == DnloadResponse(b, block, len)
  {
  }

  lemma UploadAlike(a: Dfu, b: Dfu, block: u16, len: u16)
    requires a.Wf() && b.Wf() && Alike(a, b)
    ensures Alike(Upload(a, block, len), Upload(b, block, len))
    ensures UploadResponse(a, block, len) == UploadResponse(b, block, len)
  {
  }

  lemma RequestAlike(a: Dfu, b: Dfu, s: Setup)
    requires a.Wf() && b.Wf() && Alike(a, b)
    ensures Alike(OnClassRequest(a, s), OnClassRequest(b, s)) && ClassResponse(a, s) == ClassResponse(b, s)
  {
    if s.bRequest == DFU_GETSTATUS {
      StatusAlike(a, b);
    } else if s.bRequest == DFU_DNLOAD {
      DnloadAlike(a, b, s.wValue, s.wLength);
    } else if s.bRequest == DFU_UPLOAD {
      UploadAlike(a, b, s.wValue, s.wLength);
    }
  }

  lemma BufferedAlike(a: Dfu, b: Dfu, p: seq<byte>)
    requires a.Wf() && b.Wf() && Alike(a, b) && a.state == DnloadSync
    ensures Alike(Buffered(a, p), Buffered(b, p)) && Buffered(a, p).data == Buffered(b, p).data
    ensures Buffered(a, p).data != [] ==> Alike(DecodeCommand(Buffered(a, p)), DecodeCommand(Buffered(b, p)))
  {
  }

  lemma PacketAlike(a: Dfu, b: Dfu, p: seq<byte>)
    requires a.Wf() && b.Wf() && Alike(a, b)
    ensures Alike(OutData(a, p), OutData(b, p)) && (CompletesBlock(a, p) <==> CompletesBlock(b, p))
  {
    if a.state == DnloadSync && p != [] {
      BufferedAlike(a, b, p);
    }
  }

  /** Two devices with alike contexts and the same endpoint and addresses. */
  ghost predicate AlikeDevices(d: Device, e: Device) {
    Alike(d.dfu, e.dfu) && d.ep0 == e.ep0 && SameAddresses(d, e)
  }

  lemma StepAlike(d: Device, e: Device, ev: Event, descriptors: Descriptors)
    requires d.dfu.Wf() && e.dfu.Wf() && AlikeDevices(d, e)
    ensures AlikeDevices(DeviceStep(d, ev, descriptors), DeviceStep(e, ev, descriptors))
  {
    match ev
    case SetupEvent(s) => RequestAlike(d.dfu, e.dfu, s);
    case Out(p) => PacketAlike(d.dfu, e.dfu, p);
    case InDone =>
    case BusReset =>
  }

  lemma {:induction false} RunAlike(d: Device, e: Device, events: seq<Event>, descriptors: Descriptors)
    requires d.dfu.Wf() && e.dfu.Wf() && AlikeDevices(d, e)
    ensures AlikeDevices(DeviceRun(d, events, descriptors), DeviceRun(e, events, descriptors))
    decreases |events|
  {
    if events != [] {
      var before := events[..|events| - 1];
      RunAlike(d, e, before, descriptors);
      StepAlike(DeviceRun(d, before, descriptors), DeviceRun(e, before, descriptors),
                events[|events| - 1], descriptors);
    }
  }

  // ----- starting over -----------------------------------------------------------------

  /** ABORT or a bus reset. */
  predicate StartsOver(e: Event) {
    e.BusReset? || (e.SetupEvent? && ClassRequest(e.setup, 6))
  }

  /** The device as `dfu_init` would leave it, over the flash, endpoint and addresses of `d`. */
  function Afresh(d: Device): Device {
    d.(dfu := Initial(d.dfu.flash))
  }

  /**
    Behind an ABORT or a bus reset no event ever tells a device from a freshly
    initialised one, whatever came before: same replies, same flash, same state.
   */
  lemma ForgetsEverything(d: Device, e: Event, events: seq<Event>, descriptors: Descriptors)
    requires d.dfu.Wf() && StartsOver(e)
    ensures var over := DeviceStep(d, e, descriptors);
      AlikeDevices(DeviceRun(over, events, descriptors), DeviceRun(Afresh(over), events, descriptors))
  {
    StartsAlike(d, e, descriptors);
    var over := DeviceStep(d, e, descriptors);
    RunAlike(over, Afresh(over), events, descriptors);
  }

  lemma StartsAlike(d: Device, e: Event, descriptors: Descriptors)
    requires d.dfu.Wf() && StartsOver(e)
    ensures var over := DeviceStep(d, e, descriptors);
      over.dfu.flash == d.dfu.flash && AlikeDevices(over, Afresh(over)) && Ready(over.dfu)
  {
    if e.BusReset? {
      BusResetSeen(d, descriptors);
    } else {
      AbortAnswered(d, e.setup, descriptors);
    }
  }

  /** From whatever state, behind an ABORT or a bus reset any download session goes as it should. */
  lemma DownloadsBehindStart(d: Device, e: Event, base: u32, image: seq<byte>, plan: Plan, events: seq<Event>,
                             descriptors: Descriptors)
    requires d.dfu.Wf() && StartsOver(e) && Fits(base, image) && plan.For(base, image)
    requires Visible(events) == plan.Events(base, image)
    ensures Downloaded(Run(d.dfu, [e]), Run(d.dfu, [e] + events), base, image)
    ensures Run(d.dfu, [e]).flash == d.dfu.flash
  {
    StartsAlike(d, e, descriptors);
    RunOne(d.dfu, e);
    RunAppend(d.dfu, [e], events);
    DownloadWritesImage(Run(d.dfu, [e]), base, image, plan, events);
  }
}
