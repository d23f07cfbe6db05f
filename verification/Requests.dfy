/**
  What the host sees of every request, in the bytes and numbers of the wire: which
  requests stall, which are confirmed by an empty packet, and what the others are
  answered with, by the host's own reading of the reply.
 */
module Requests {
  import opened Words
  import opened NorFlash
  import opened Ep0Transfer
  import opened DfuProtocol
  import opened DataStage
  import opened Safety

  predicate StandardRequest(s: Setup, request: byte) {
    s.bmRequestType / 0x20 % 4 == 0 && s.bRequest == request
  }

  predicate ClassRequest(s: Setup, request: byte) {
    s.bmRequestType / 0x20 % 4 == 1 && s.bRequest == request
  }

  /** The device the host's request has been put to. */
  function Asked(d: Device, s: Setup, descriptors: Descriptors): Device
    requires d.dfu.Wf()
  {
    DeviceStep(d, SetupEvent(s), descriptors)
  }

  /** The host reads `data`, to the end. */
  ghost predicate Answers(t: InTransfer, data: seq<byte>) {
    Readable(t) && HostReads(t, [], 0).data == data
  }

  /** Nothing but `answer`, now or later. */
  predicate Only(t: InTransfer, answer: Answer) {
    t.answer == answer && t.rest == [] && !t.owesZlp
  }

  predicate Stalls(t: InTransfer) {
    Only(t, Stall)
  }

  /** An empty packet is queued. */
  predicate Confirms(t: InTransfer) {
    Only(t, Data([]))
  }

  /** Nothing is queued. */
  predicate Waits(t: InTransfer) {
    Only(t, Nak)
  }

  /** The addresses of the device are as they were. */
  predicate SameAddresses(a: Device, b: Device) {
    a.busAddress == b.busAddress && a.pendingAddress == b.pendingAddress
  }

  lemma SendAnswers(data: seq<byte>, reqLen: u16)
    ensures Answers(Send(data, reqLen), data[..Min(|data|, reqLen)])
  {
    PacketisationCorrect(data, reqLen);
  }

  lemma SliceAnswers(mem: seq<byte>, o: nat, n: nat, reqLen: u16)
    requires o + n <= |mem| && n <= reqLen
    ensures Answers(Send(mem[o..o + n], reqLen), mem[o..o + n])
  {
    SendAnswers(mem[o..o + n], reqLen);
    assert mem[o..o + n][..n] == mem[o..o + n];
  }

  // ----- GETSTATUS and GETSTATE -------------------------------------------------------

  /** bStatus, bwPollTimeout, bState, iString. */
  function Six(status: byte, timeout: byte, state: byte): (b: seq<byte>)
    ensures |b| == 6
  {
    [status, timeout, 0, 0, state, 0]
  }

  /** The host reads the six bytes, or as many of them as it asked for. */
  ghost predicate Tells(t: InTransfer, six: seq<byte>, len: u16)
    requires |six| == 6
  {
    Answers(t, six[..Min(6, len)])
  }

  /** GETSTATUS answers with six bytes, and nothing changes but the DFU context. */
  lemma StatusAnswered(d: Device, s: Setup, descriptors: Descriptors)
    requires d.dfu.Wf() && ClassRequest(s, 3)
    ensures var r := Asked(d, s, descriptors);
      && r.dfu == GetStatus(d.dfu) && SameAddresses(r, d)
      && Tells(r.ep0, StatusReply(d.dfu), s.wLength)
  {
    SendAnswers(StatusReply(d.dfu), s.wLength);
  }

  /** What GETSTATUS tells, and does, while nothing is being carried out. */
  lemma StatusTells(d: Device, s: Setup, descriptors: Descriptors)
    requires ControlInvariant(d.dfu) && ClassRequest(s, 3) && !d.dfu.state.DnBusy?
    ensures var c, r := d.dfu, Asked(d, s, descriptors);
      && (c.state == DfuIdle ==> Tells(r.ep0, Six(0, 0, 2), s.wLength))
      && (c.state == DnloadSync ==> Tells(r.ep0, Six(0, 100, 4), s.wLength))
      && (c.state == DnloadIdle ==> Tells(r.ep0, Six(0, 0, 5), s.wLength))
      && (c.state == ManifestSync ==> Tells(r.ep0, Six(0, 0, 8), s.wLength))
      && (c.state == ManifestWaitReset ==> Tells(r.ep0, Six(0, 0, 8), s.wLength))
      && (c.state == UploadIdle ==> Tells(r.ep0, Six(0, 0, 9), s.wLength))
      && (c.state == DfuError ==> Tells(r.ep0, Six(ErrorByte(c.status), 0, 10), s.wLength))
      && r.dfu == (if c.state == DnloadSync then c.(state := DnBusy)
                   else if c.state == ManifestSync then c.(state := ManifestWaitReset)
                   else c)
  {
    StatusAnswered(d, s, descriptors);
  }

  /** The error codes of the DFU 1.1 specification, section 6.1.2, as far as the bootloader uses them. */
  function ErrorByte(status: Status): byte {
    if status == ErrWrite then 0x03
    else if status == ErrErase then 0x04
    else if status == ErrAddress then 0x08
    else if status == ErrVendor then 0x0B
    else if status == ErrUnknown then 0x0E
    else 0x00
  }

  /** GETSTATE names the state in one byte and moves nothing. */
  lemma StateTold(d: Device, s: Setup, descriptors: Descriptors)
    requires ControlInvariant(d.dfu) && ClassRequest(s, 5) && 0 < s.wLength
    ensures var c, r := d.dfu, Asked(d, s, descriptors);
      && r.dfu == c && SameAddresses(r, d)
      && (c.state == DfuIdle ==> Answers(r.ep0, [2])) && (c.state == DnloadSync ==> Answers(r.ep0, [3]))
      && (c.state == DnBusy ==> Answers(r.ep0, [4])) && (c.state == DnloadIdle ==> Answers(r.ep0, [5]))
      && (c.state == ManifestSync ==> Answers(r.ep0, [6])) && (c.state == ManifestWaitReset ==> Answers(r.ep0, [8]))
      && (c.state == UploadIdle ==> Answers(r.ep0, [9])) && (c.state == DfuError ==> Answers(r.ep0, [10]))
  {
    SendAnswers([d.dfu.state.Code()], s.wLength);
  }

  // ----- DNLOAD -----------------------------------------------------------------------

  /**
    DNLOAD. An empty one ends a download in DNLOAD_IDLE and stalls elsewhere. One
    longer than 1024 bytes stalls and is an error in every state. Any other one is
    taken in IDLE and DNLOAD_IDLE, unless it is for block 1, and nothing is queued
    before its data; everywhere else it stalls and changes nothing.
   */
  lemma DnloadAnswered(d: Device, s: Setup, descriptors: Descriptors)
    requires d.dfu.Wf() && ClassRequest(s, 1)
    ensures var c, r, len := d.dfu, Asked(d, s, descriptors), s.wLength;
      && SameAddresses(r, d)
      && if len == 0 then
           if c.state == DnloadIdle then Confirms(r.ep0) && r.dfu == c.(state := ManifestSync)
           else Stalls(r.ep0) && r.dfu == c
         else if len > 1024 then
           Stalls(r.ep0) && r.dfu == c.(state := DfuError, status := ErrUnknown)
         else if (c.state == DfuIdle || c.state == DnloadIdle) && s.wValue != 1 then
           && Waits(r.ep0) && r.dfu.state == DnloadSync && r.dfu.data == []
           && r.dfu.blockNum == s.wValue && r.dfu.xferLen == len
           && r.dfu.address == (if s.wValue == 0 then c.address else Wrap32(c.pointer + (s.wValue - 2) * 1024))
           && r.dfu.flash == c.flash && r.dfu.pointer == c.pointer && r.dfu.status == c.status
           && r.dfu.pending == c.pending
         else
           Stalls(r.ep0) && r.dfu == c
  {
  }

  /** Every DNLOAD refused without an error leaves the context alone and stalls. */
  lemma DnloadRefused(d: Device, s: Setup, descriptors: Descriptors)
    requires d.dfu.Wf() && ClassRequest(s, 1) && 0 < s.wLength <= 1024
    ensures var r := Asked(d, s, descriptors);
      r.dfu == d.dfu && Stalls(r.ep0) <==> !(d.dfu.state in {DfuIdle, DnloadIdle}) || s.wValue == 1
  {
    DnloadAnswered(d, s, descriptors);
  }

  // ----- OUT packets --------------------------------------------------------------------

  /**
    An OUT packet. While a block is expected a packet that fits goes behind what the
    buffer holds, one that does not is dropped, and the status packet is queued as soon
    as the block has its announced length. Nothing else is ever queued, and outside a
    block, or empty, a packet does nothing.
   */
  lemma PacketTaken(d: Device, p: seq<byte>, descriptors: Descriptors)
    requires d.dfu.Wf()
    ensures var c, r := d.dfu, DeviceStep(d, Out(p), descriptors);
      var data := if |c.data| + |p| <= 1024 then c.data + p else c.data;
      && SameAddresses(r, d)
      && if c.state != DnloadSync || p == [] then
           r == d
         else if |data| < c.xferLen then
           r.ep0 == d.ep0 && r.dfu == c.(data := data)
         else
           && r.ep0 == InTransfer(Data([]), [], false, d.ep0.reqLen)
           && (c.blockNum != 0 ==> r.dfu == c.(data := data))
           && (c.blockNum == 0 && data != [] ==>
                 && r.dfu.pending == data[0] && (r.dfu.hasArg <==> |data| >= 5)
                 && (|data| >= 5 ==> r.dfu.arg == Le32(data[1..5]))
                 && r.dfu == c.(data := [], pending := r.dfu.pending, hasArg := r.dfu.hasArg, arg := r.dfu.arg))
  {
  }

  /** The status packet of a block, for a packet that fits: queued with the last byte and not before. */
  lemma StatusPacket(d: Device, p: seq<byte>, descriptors: Descriptors)
    requires d.dfu.Wf() && d.dfu.state == DnloadSync && p != [] && |d.dfu.data| + |p| <= 1024
    ensures var r := DeviceStep(d, Out(p), descriptors);
      && r.busAddress == d.busAddress
      && if |d.dfu.data| + |p| >= d.dfu.xferLen then Confirms(r.ep0) else r.ep0 == d.ep0
  {
    PacketTaken(d, p, descriptors);
  }

  // ----- UPLOAD ---------------------------------------------------------------------------

  /** The endpoint behind an UPLOAD holds the answer to it and nothing of what was in flight. */
  lemma UploadResponded(d: Device, s: Setup, descriptors: Descriptors)
    requires d.dfu.Wf() && ClassRequest(s, 2)
    ensures var r := Asked(d, s, descriptors);
      && r.dfu == Upload(d.dfu, s.wValue, s.wLength) && SameAddresses(r, d)
      && r.ep0 == Respond(InTransfer(Nak, [], false, s.wLength), UploadResponse(d.dfu, s.wValue, s.wLength))
  {
  }

  /** Refused uploads: outside IDLE and UPLOAD_IDLE, and for blocks 0 and 1. */
  lemma UploadRefused(c: Dfu, block: u16, len: u16)
    requires c.Wf() && ((c.state != DfuIdle && c.state != UploadIdle) || block < 2)
    ensures Upload(c, block, len) == c && UploadResponse(c, block, len) == Stalled
  {
  }

  /** The answer to an upload of `n` bytes of flash. */
  lemma SliceResponded(t: InTransfer, mem: seq<byte>, o: nat, n: nat)
    requires o + n <= |mem| && n <= t.reqLen
    ensures Answers(Respond(t, Reply(mem[o..o + n])), mem[o..o + n])
  {
    SliceAnswers(mem, o, n, t.reqLen);
  }

  /**
    What the host sees of an UPLOAD put to a device with context `c`, which is `r`
    afterwards. Refused requests stall and change nothing: outside IDLE and UPLOAD_IDLE,
    and for blocks 0 and 1. A block behind the region is answered with an empty packet
    and ends the upload. Otherwise the host reads the flash from the block's address
    on, as much as it asked for, up to the last byte of the region.
   */
  ghost predicate UploadSeen(c: Dfu, s: Setup, r: Device) {
    if (c.state != DfuIdle && c.state != UploadIdle) || s.wValue < 2 then
      Stalls(r.ep0) && r.dfu == c
    else
      var a := Wrap32(c.pointer + (s.wValue - 2) * 1024);
      if 0x0800_3000 <= a <= 0x0803_F7FF then
        var o := a - 0x0800_0000;
        && c.Wf() && Answers(r.ep0, c.flash.mem[o..o + Min(s.wLength, 0x0803_F800 - a)])
        && r.dfu == c.(state := UploadIdle)
      else
        Confirms(r.ep0) && r.dfu == c.(state := DfuIdle)
  }

  /** A block in the region, and one outside it. */
  lemma AcceptedSeen(c: Dfu, s: Setup, r: Device, a: u32)
    requires c.Wf() && (c.state == DfuIdle || c.state == UploadIdle) && 2 <= s.wValue
    requires a == Wrap32(c.pointer + (s.wValue - 2) * 1024)
    requires r.dfu == c.(state := if InRegion(a) then UploadIdle else DfuIdle)
    requires r.ep0 == Respond(InTransfer(Nak, [], false, s.wLength),
      if InRegion(a) then Reply(c.flash.mem[Offset(a)..Offset(a) + Min(s.wLength, APP_FLASH_END - a + 1)])
      else Acknowledge)
    ensures UploadSeen(c, s, r)
  {
    if InRegion(a) {
      SliceResponded(InTransfer(Nak, [], false, s.wLength), c.flash.mem, Offset(a),
                     Min(s.wLength, APP_FLASH_END - a + 1));
    }
  }

  lemma UploadSeenFrom(c: Dfu, s: Setup, r: Device)
    requires c.Wf() && r.dfu == Upload(c, s.wValue, s.wLength)
    requires r.ep0 == Respond(InTransfer(Nak, [], false, s.wLength), UploadResponse(c, s.wValue, s.wLength))
    ensures UploadSeen(c, s, r)
  {
    if (c.state != DfuIdle && c.state != UploadIdle) || s.wValue < 2 {
      UploadRefused(c, s.wValue, s.wLength);
    } else {
      UploadAccepted(c, s.wValue, s.wLength);
      AcceptedSeen(c, s, r, BlockAddress(c.pointer, s.wValue));
    }
  }

  lemma UploadAnswered(d: Device, s: Setup, descriptors: Descriptors)
    requires d.dfu.Wf() && ClassRequest(s, 2)
    ensures SameAddresses(Asked(d, s, descriptors), d) && UploadSeen(d.dfu, s, Asked(d, s, descriptors))
  {
    UploadResponded(d, s, descriptors);
    UploadSeenFrom(d.dfu, s, Asked(d, s, descriptors));
  }

  // ----- the other class requests -------------------------------------------------------

  /** CLRSTATUS is always confirmed; it takes the device out of ERROR and does nothing elsewhere. */
  lemma ClrStatusAnswered(d: Device, s: Setup, descriptors: Descriptors)
    requires d.dfu.Wf() && ClassRequest(s, 4)
    ensures var r := Asked(d, s, descriptors);
      && Confirms(r.ep0) && SameAddresses(r, d)
      && r.dfu == if d.dfu.state == DfuError then d.dfu.(state := DfuIdle, status := StatusOk) else d.dfu
  {
  }

  /** ABORT is always confirmed and brings every device to IDLE, at the start of the region, with no command. */
  lemma AbortAnswered(d: Device, s: Setup, descriptors: Descriptors)
    requires d.dfu.Wf() && ClassRequest(s, 6)
    ensures var r := Asked(d, s, descriptors);
      && Confirms(r.ep0) && SameAddresses(r, d)
      && r.dfu == d.dfu.(state := DfuIdle, status := StatusOk, address := 0x0800_3000, pointer := 0x0800_3000,
                         pending := 0, hasArg := false)
  {
  }

  /** A bus reset does the same, empties the buffer, and puts the device at address 0 with nothing in flight. */
  lemma BusResetSeen(d: Device, descriptors: Descriptors)
    requires d.dfu.Wf()
    ensures var r := DeviceStep(d, BusReset, descriptors);
      && Waits(r.ep0) && r.ep0.reqLen == 0 && r.busAddress == 0 && r.pendingAddress == d.pendingAddress
      && r.dfu == d.dfu.(state := DfuIdle, status := StatusOk, address := 0x0800_3000, pointer := 0x0800_3000,
                         pending := 0, hasArg := false, data := [])
  {
  }

  // ----- requests that concern no download ------------------------------------------------

  /** GET_DESCRIPTOR: the host reads the descriptor of wValue, clipped to what it asked for; without one it stalls. */
  lemma DescriptorAnswered(d: Device, s: Setup, descriptors: Descriptors)
    requires d.dfu.Wf() && StandardRequest(s, 6)
    ensures var r, b := Asked(d, s, descriptors), descriptors(s.wValue);
      && r.dfu == d.dfu && SameAddresses(r, d)
      && if b == [] then Stalls(r.ep0) else Answers(r.ep0, b[..Min(|b|, s.wLength)])
  {
    var b := descriptors(s.wValue);
    SendAnswers(Clip(b, s.wLength), s.wLength);
    assert Clip(b, s.wLength)[..Min(|Clip(b, s.wLength)|, s.wLength)] == b[..Min(|b|, s.wLength)];
  }

  /**
    SET_ADDRESS is confirmed first; the device answers at the new address once the
    status packet is taken. Address 0 is the exception: it never takes effect.
   */
  lemma SetAddressAnswered(d: Device, s: Setup, descriptors: Descriptors)
    requires d.dfu.Wf() && StandardRequest(s, 5)
    ensures var r, address := Asked(d, s, descriptors), s.wValue % 128;
      && r.dfu == d.dfu && Confirms(r.ep0) && r.busAddress == d.busAddress
      && DeviceStep(r, InDone, descriptors).busAddress == if address == 0 then d.busAddress else address
  {
  }

  /** The remaining standard requests, and everything the bootloader does not know, which stalls. */
  lemma OthersAnswered(d: Device, s: Setup, descriptors: Descriptors)
    requires d.dfu.Wf() && !StandardRequest(s, 5) && !StandardRequest(s, 6)
    requires forall request: byte :: ClassRequest(s, request) ==> !(1 <= request <= 6)
    ensures var r := Asked(d, s, descriptors);
      && r.dfu == d.dfu && SameAddresses(r, d)
      && if StandardRequest(s, 9) then Confirms(r.ep0)
         else if StandardRequest(s, 8) then Answers(r.ep0, [1][..Min(1, s.wLength)])
         else if StandardRequest(s, 0) then Answers(r.ep0, [0, 0][..Min(2, s.wLength)])
         else Stalls(r.ep0)
  {
    SendAnswers([1], s.wLength);
    SendAnswers([0, 0], s.wLength);
    assert ClassRequest(s, s.bRequest) ==> !(1 <= s.bRequest <= 6);
  }
}
