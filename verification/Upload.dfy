/**
  Uploads: what a host uploads back block by block, with status stages and other
  requests in between, where it is read from, and the round trip with a download.
 */
module Upload {
  import opened Words
  import opened NorFlash
  import opened Ep0Transfer
  import opened DfuProtocol
  import opened DataStage
  import opened Polling
  import opened Safety
  import opened Session
  import opened Download

  // ----- what the host has uploaded ---------------------------------------------

  /** The request being served is an UPLOAD. */
  predicate InUpload(events: seq<Event>)
    decreases |events|
  {
    if events == [] then false
    else
      match events[|events| - 1]
      case SetupEvent(_) => IsRequest(events[|events| - 1], DFU_UPLOAD)
      case BusReset => false
      case _ => InUpload(events[..|events| - 1])
  }

  function Queued(t: InTransfer): seq<byte> {
    if t.answer.Data? then t.answer.packet else []
  }

  /** What an event adds to the bytes uploaded: in an UPLOAD a completion adds the packet it acknowledges. */
  function Adds(d: Device, uploading: bool, e: Event): seq<byte> {
    if e.InDone? && uploading then Queued(d.ep0) else []
  }

  /** The bytes of all packets the host acknowledged in data stages of UPLOAD requests. */
  function Uploaded(d: Device, events: seq<Event>, descriptors: Descriptors): seq<byte>
    requires d.dfu.Wf()
    decreases |events|
  {
    if events == [] then []
    else
      var before := events[..|events| - 1];
      Uploaded(d, before, descriptors)
      + Adds(DeviceRun(d, before, descriptors), InUpload(before), events[|events| - 1])
  }

  lemma UploadedSnoc(d: Device, events: seq<Event>, e: Event, descriptors: Descriptors)
    requires d.dfu.Wf()
    ensures Uploaded(d, events + [e], descriptors)
      == Uploaded(d, events, descriptors) + Adds(DeviceRun(d, events, descriptors), InUpload(events), e)
  {
    assert (events + [e])[..|events|] == events;
  }

  lemma InUploadSnoc(events: seq<Event>, e: Event)
    ensures InUpload(events + [e]) ==
      if e.SetupEvent? then IsRequest(e, DFU_UPLOAD) else !e.BusReset? && InUpload(events)
  {
    assert (events + [e])[..|events|] == events;
  }

  /**
    The run of `events` from `d` ends in `r`, in an UPLOAD or not, with `got` uploaded
    on the way; stated so that a proof sees the run only when it names it.
   */
  ghost predicate Reaches(d: Device, events: seq<Event>, r: Device, got: seq<byte>, uploading: bool,
                          descriptors: Descriptors)
  {
    && d.dfu.Wf() && r.dfu.Wf()
    && forall run :: run == events ==>
         DeviceRun(d, run, descriptors) == r && Uploaded(d, run, descriptors) == got && InUpload(run) == uploading
  }

  lemma ReachesRun(d: Device, events: seq<Event>, r: Device, got: seq<byte>, uploading: bool, descriptors: Descriptors)
    requires Reaches(d, events, r, got, uploading, descriptors)
    ensures DeviceRun(d, events, descriptors) == r && Uploaded(d, events, descriptors) == got
    ensures InUpload(events) == uploading
  {
  }

  lemma ReachesNone(d: Device, descriptors: Descriptors)
    requires d.dfu.Wf()
    ensures Reaches(d, [], d, [], false, descriptors)
  {
  }

  lemma ReachesSnoc(d: Device, events: seq<Event>, r: Device, got: seq<byte>, uploading: bool, e: Event,
                    descriptors: Descriptors)
    requires Reaches(d, events, r, got, uploading, descriptors)
    ensures Reaches(d, events + [e], DeviceStep(r, e, descriptors),
                    got + Adds(r, uploading, e),
                    if e.SetupEvent? then IsRequest(e, DFU_UPLOAD) else !e.BusReset? && uploading, descriptors)
  {
    ReachesRun(d, events, r, got, uploading, descriptors);
    DeviceRunSnoc(d, events, e, descriptors);
    UploadedSnoc(d, events, e, descriptors);
    InUploadSnoc(events, e);
  }

  lemma RequestReaches(d: Device, e: Event, descriptors: Descriptors)
    requires d.dfu.Wf() && e.SetupEvent?
    ensures Reaches(d, [e], DeviceStep(d, e, descriptors), [], IsRequest(e, DFU_UPLOAD), descriptors)
  {
    ReachesNone(d, descriptors);
    ReachesSnoc(d, [], d, [], false, e, descriptors);
    assert [] + [e] == [e];
  }

  /** A run that begins with a request goes the same way behind any other run. */
  lemma {:induction false} ReachesBehind(d: Device, a: seq<Event>, r: Device, got: seq<byte>, uploading: bool,
                                         b: seq<Event>, descriptors: Descriptors)
      returns (s: Device, more: seq<byte>, still: bool)
    requires Reaches(d, a, r, got, uploading, descriptors) && b != [] && b[0].SetupEvent?
    ensures Reaches(d, a + b, s, got + more, still, descriptors) && Reaches(r, b, s, more, still, descriptors)
    decreases |b|
  {
    var m := |b| - 1;
    var e := b[m];
    if m == 0 {
      s, more, still := DeviceStep(r, e, descriptors), [], IsRequest(e, DFU_UPLOAD);
      RequestReaches(r, e, descriptors);
      ReachesSnoc(d, a, r, got, uploading, e, descriptors);
      assert b == [e];
    } else {
      var before := b[..m];
      var t, sofar, were := ReachesBehind(d, a, r, got, uploading, before, descriptors);
      var z := Adds(t, were, e);
      s, more := DeviceStep(t, e, descriptors), sofar + z;
      still := if e.SetupEvent? then IsRequest(e, DFU_UPLOAD) else !e.BusReset? && were;
      ReachesSnoc(d, a + before, t, got + sofar, were, e, descriptors);
      ReachesSnoc(r, before, t, sofar, were, e, descriptors);
      assert before + [e] == b && a + before + [e] == a + b;
      assert got + sofar + z == got + more;
    }
  }

  lemma ReachesAppend(d: Device, a: seq<Event>, r: Device, got: seq<byte>, uploading: bool, b: seq<Event>, s: Device,
                      more: seq<byte>, still: bool, descriptors: Descriptors)
    requires Reaches(d, a, r, got, uploading, descriptors) && Reaches(r, b, s, more, still, descriptors)
    requires b != [] && b[0].SetupEvent?
    ensures Reaches(d, a + b, s, got + more, still, descriptors)
  {
    var s', more', still' := ReachesBehind(d, a, r, got, uploading, b, descriptors);
    ReachesRun(r, b, s, more, still, descriptors);
    ReachesRun(r, b, s', more', still', descriptors);
  }

  // ----- one UPLOAD ---------------------------------------------------------------

  function UploadEvent(block: u16): Event {
    ClassSetup(DFU_UPLOAD, block, DFU_XFER_SIZE)
  }

  /** What may come between an upload and the next: status stages, packets, and requests that move nothing. */
  predicate Idles(e: Event) {
    Invisible(e) || e.Out? || IsRequest(e, DFU_GETSTATUS) || IsRequest(e, DFU_CLRSTATUS)
  }

  ghost predicate AllIdle(events: seq<Event>) {
    forall e :: e in events ==> Idles(e)
  }

  /**
    What the host uploads in one UPLOAD, the packets it took for it, what came before
    the next one, and the device then.
   */
  datatype BlockRead = BlockRead(
    data: seq<byte>, complete: bool, packets: nat, between: seq<Event>, device: Device)

  /** One upload on the bus: the request, its data stage, and what comes before the next one. */
  function BlockEvents(block: u16, packets: nat, between: seq<Event>): seq<Event> {
    [UploadEvent(block)] + Completions(packets) + between
  }

  function ReadBlock(d: Device, block: u16, between: seq<Event>, descriptors: Descriptors): (r: BlockRead)
    requires d.dfu.Wf()
    ensures r.device == DeviceRun(d, BlockEvents(block, r.packets, between), descriptors)
    ensures r.between == between
  {
    var asked := DeviceStep(d, UploadEvent(block), descriptors);
    if !asked.ep0.answer.Data? then
      BlockRead([], false, 0, between, DeviceRun(d, BlockEvents(block, 0, between), descriptors))
    else
      var r := HostReads(asked.ep0, [], 0);
      BlockRead(r.data, r.stopped && Outstanding(r.end) == 0, r.packets, between,
                DeviceRun(d, BlockEvents(block, r.packets, between), descriptors))
  }

  predicate UploadReady(c: Dfu) {
    c.state == DfuIdle || c.state == UploadIdle
  }

  // ----- the bytes of one UPLOAD on the bus -------------------------------------------

  /** The packets queued one behind the other. */
  function Gathered(t: InTransfer, n: nat): seq<byte> {
    if n == 0 then [] else Gathered(t, n - 1) + Queued(TakenTimes(t, n - 1))
  }

  /** `a` is `x + y` and `b` is that with `z` behind it. */
  lemma Regroup<T>(x: seq<T>, y: seq<T>, z: seq<T>, a: seq<T>, b: seq<T>)
    requires a == x + y && b == a + z
    ensures b == x + (y + z)
  {
  }

  lemma GatheredLast(t: InTransfer, n: nat)
    ensures Gathered(t, 0) == [] && Gathered(t, n + 1) == Gathered(t, n) + Queued(TakenTimes(t, n))
  {
  }

  lemma {:induction false} GatheredFirst(t: InTransfer, u: InTransfer, n: nat)
    requires u == Taken(t)
    ensures Gathered(t, n + 1) == Queued(t) + Gathered(u, n)
    decreases n
  {
    GatheredLast(t, n);
    if n == 0 {
      assert TakenTimes(t, 0) == t;
    } else {
      GatheredFirst(t, u, n - 1);
      TakenFirst(t, n - 1);
      GatheredLast(u, n - 1);
      Regroup(Queued(t), Gathered(u, n - 1), Queued(TakenTimes(t, n)), Gathered(t, n), Gathered(t, n + 1));
    }
  }

  /** The first packet and those behind it. */
  lemma GatheredBehind(t: InTransfer, got: seq<byte>, u: InTransfer, n: nat)
    requires t.answer.Data? && u == Taken(t)
    ensures got + t.answer.packet + Gathered(u, n) == got + Gathered(t, n + 1)
  {
    GatheredFirst(t, u, n);
    Regroup(got, t.answer.packet, Gathered(u, n), got + t.answer.packet, got + t.answer.packet + Gathered(u, n));
  }

  /** What the host reads is what the packets it takes hold. */
  lemma {:induction false} ReadingGathers(t: InTransfer, got: seq<byte>, packets: nat)
    requires t.answer.Data?
    ensures packets < HostReads(t, got, packets).packets
    ensures HostReads(t, got, packets).data == got + Gathered(t, HostReads(t, got, packets).packets - packets)
    decreases Outstanding(t)
  {
    var u, got' := Taken(t), got + t.answer.packet;
    if HostStops(|t.answer.packet|, |got'|, t.reqLen) || Outstanding(t) == 0 {
      GatheredBehind(t, got, u, 0);
      assert got' + Gathered(u, 0) == got';
    } else {
      ReadingGathers(u, got', packets + 1);
      GatheredBehind(t, got, u, HostReads(u, got', packets + 1).packets - packets - 1);
    }
  }

  /** In a data stage a completion uploads the queued packet. */
  lemma PacketReaches(d: Device, front: seq<Event>, before: Device, got: seq<byte>, descriptors: Descriptors)
      returns (r: Device)
    requires Reaches(d, front, before, got, true, descriptors)
    ensures Reaches(d, front + [InDone], r, got + Queued(before.ep0), true, descriptors)
    ensures r.dfu == before.dfu && r.ep0 == Taken(before.ep0)
  {
    r := DeviceStep(before, InDone, descriptors);
    ReachesSnoc(d, front, before, got, true, InDone, descriptors);
  }

  lemma CompletionsSnoc(front: seq<Event>, n: nat)
    ensures front + Completions(0) == front
    ensures n > 0 ==> front + Completions(n) == front + Completions(n - 1) + [InDone]
  {
  }

  /** In a data stage `n` completions take `n` packets and move nothing else. */
  lemma {:induction false} DataStageReaches(d: Device, front: seq<Event>, asked: Device, n: nat,
                                            descriptors: Descriptors)
      returns (r: Device)
    requires Reaches(d, front, asked, [], true, descriptors)
    ensures Reaches(d, front + Completions(n), r, Gathered(asked.ep0, n), true, descriptors)
    ensures r.dfu == asked.dfu && r.ep0 == TakenTimes(asked.ep0, n)
    decreases n
  {
    CompletionsSnoc(front, n);
    if n == 0 {
      r := asked;
    } else {
      var before := DataStageReaches(d, front, asked, n - 1, descriptors);
      r := PacketReaches(d, front + Completions(n - 1), before, Gathered(asked.ep0, n - 1), descriptors);
    }
  }

  /** Nothing is queued, and nothing will be before the next request. */
  predicate Drained(t: InTransfer) {
    !t.answer.Data? && Outstanding(t) == 0
  }

  lemma IdleStep(d: Device, e: Event, descriptors: Descriptors)
    requires d.dfu.Wf() && UploadReady(d.dfu) && Idles(e)
    ensures DeviceStep(d, e, descriptors).dfu == d.dfu
    ensures !e.SetupEvent? && Drained(d.ep0) ==> Drained(DeviceStep(d, e, descriptors).ep0)
  {
  }

  /** What comes between uploads moves no context and uploads nothing. */
  lemma {:induction false} IdlesReach(d: Device, front: seq<Event>, r: Device, got: seq<byte>, uploading: bool,
                                      events: seq<Event>, descriptors: Descriptors)
      returns (s: Device, still: bool)
    requires Reaches(d, front, r, got, uploading, descriptors) && UploadReady(r.dfu) && AllIdle(events)
    requires uploading ==> Drained(r.ep0)
    ensures Reaches(d, front + events, s, got, still, descriptors) && s.dfu == r.dfu
    ensures still ==> uploading && Drained(s.ep0)
    decreases |events|
  {
    if events == [] {
      s, still := r, uploading;
      assert front + events == front;
    } else {
      var m := |events| - 1;
      var e := events[m];
      assert e in events && Idles(e);
      var before, were := IdlesReach(d, front, r, got, uploading, events[..m], descriptors);
      IdleStep(before, e, descriptors);
      ReachesSnoc(d, front + events[..m], before, got, were, e, descriptors);
      assert front + events[..m] + [e] == front + events;
      IdleUploadsNothing(before, got, were, e);
      s, still := DeviceStep(before, e, descriptors), !e.SetupEvent? && were;
    }
  }

  lemma IdleUploadsNothing(d: Device, got: seq<byte>, uploading: bool, e: Event)
    requires Idles(e) && (uploading ==> Drained(d.ep0))
    ensures got + Adds(d, uploading, e) == got
    ensures !e.BusReset? && !IsRequest(e, DFU_UPLOAD)
  {
  }

  /** Taking the last packet of a reply drains the endpoint. */
  lemma ReplyDrains(t: InTransfer)
    requires Readable(t)
    ensures Drained(TakenTimes(t, HostReads(t, [], 0).packets))
  {
    var n := HostReads(t, [], 0).packets;
    ReadingIsCompletions(t, [], 0);
    assert TakenTimes(t, n) == Taken(TakenTimes(t, n - 1));
  }

  /** From a request on that the device answers: the host reads the reply, and then idles. */
  lemma AskedReaches(d: Device, front: seq<Event>, asked: Device, between: seq<Event>, descriptors: Descriptors)
      returns (s: Device, still: bool)
    requires Reaches(d, front, asked, [], true, descriptors) && AllIdle(between)
    requires Readable(asked.ep0) && UploadReady(asked.dfu)
    ensures var r := HostReads(asked.ep0, [], 0);
      s.dfu == asked.dfu && Reaches(d, front + Completions(r.packets) + between, s, r.data, still, descriptors)
  {
    var n := HostReads(asked.ep0, [], 0).packets;
    ReadingGathers(asked.ep0, [], 0);
    assert HostReads(asked.ep0, [], 0).data == Gathered(asked.ep0, n);
    ReplyDrains(asked.ep0);
    var taken := DataStageReaches(d, front, asked, n, descriptors);
    s, still := IdlesReach(d, front + Completions(n), taken, Gathered(asked.ep0, n), true, between, descriptors);
  }

  /** One upload the device answers: the host has its data, and only the request moved the context. */
  lemma BlockReaches(d: Device, block: u16, asked: Device, between: seq<Event>, descriptors: Descriptors)
      returns (still: bool)
    requires d.dfu.Wf() && AllIdle(between) && DeviceStep(d, UploadEvent(block), descriptors) == asked
    requires Readable(asked.ep0) && UploadReady(asked.dfu)
    ensures var r := ReadBlock(d, block, between, descriptors);
      && r.complete && r.device.dfu == asked.dfu && r.data == HostReads(asked.ep0, [], 0).data
      && r.packets == HostReads(asked.ep0, [], 0).packets
      && Reaches(d, BlockEvents(block, r.packets, between), r.device, r.data, still, descriptors)
  {
    var r := HostReads(asked.ep0, [], 0);
    RequestReaches(d, UploadEvent(block), descriptors);
    var s;
    s, still := AskedReaches(d, [UploadEvent(block)], asked, between, descriptors);
    ReachesRun(d, BlockEvents(block, r.packets, between), s, r.data, still, descriptors);
  }

  /**
    One UPLOAD, drained through endpoint 0, gives the region's bytes from the block's
    address on, clipped at the region's last byte, and leaves flash and pointer alone.
   */
  lemma ReadBlockGivesFlash(d: Device, block: u16, between: seq<Event>, descriptors: Descriptors) returns (still: bool)
    requires d.dfu.Wf() && UploadReady(d.dfu) && 2 <= block && InRegion(BlockAddress(d.dfu.pointer, block))
    requires AllIdle(between)
    ensures var a := BlockAddress(d.dfu.pointer, block);
      var o, n := Offset(a), Min(DFU_XFER_SIZE, APP_FLASH_END - a + 1);
      var r := ReadBlock(d, block, between, descriptors);
      && r.complete && r.data == d.dfu.flash.mem[o..o + n]
      && r.device.dfu == d.dfu.(state := UploadIdle)
      && Reaches(d, BlockEvents(block, r.packets, between), r.device, r.data, still, descriptors)
  {
    var a := BlockAddress(d.dfu.pointer, block);
    var data := d.dfu.flash.mem[Offset(a)..Offset(a) + Min(DFU_XFER_SIZE, APP_FLASH_END - a + 1)];
    var asked := DeviceStep(d, UploadEvent(block), descriptors);
    assert asked.ep0 == Send(data, DFU_XFER_SIZE);
    PacketisationCorrect(data, DFU_XFER_SIZE);
    assert Clip(data, DFU_XFER_SIZE) == data;
    still := BlockReaches(d, block, asked, between, descriptors);
  }

  /** Past the region an UPLOAD gives one empty packet and returns to IDLE. */
  lemma ReadPastEnd(d: Device, block: u16, between: seq<Event>, descriptors: Descriptors) returns (still: bool)
    requires d.dfu.Wf() && UploadReady(d.dfu) && 2 <= block && !InRegion(BlockAddress(d.dfu.pointer, block))
    requires AllIdle(between)
    ensures var r := ReadBlock(d, block, between, descriptors);
      && r.complete && r.data == [] && r.packets == 1 && r.device.dfu == d.dfu.(state := DfuIdle)
      && Reaches(d, BlockEvents(block, r.packets, between), r.device, r.data, still, descriptors)
  {
    var asked := DeviceStep(d, UploadEvent(block), descriptors);
    assert asked.ep0 == Quiet(Data([]), DFU_XFER_SIZE);
    still := BlockReaches(d, block, asked, between, descriptors);
  }

  // ----- reading the region back ----------------------------------------------------

  /** `r` is what one UPLOAD of `block` comes to; stated so that a proof sees it only when it names it. */
  ghost predicate Reads(d: Device, block: u16, r: BlockRead, descriptors: Descriptors) {
    && d.dfu.Wf() && AllIdle(r.between)
    && forall b :: b == block ==> ReadBlock(d, b, r.between, descriptors) == r
  }

  lemma ReadsFlash(d: Device, block: u16, r: BlockRead, descriptors: Descriptors) returns (still: bool)
    requires Reads(d, block, r, descriptors) && UploadReady(d.dfu) && 2 <= block
    ensures Reaches(d, BlockEvents(block, r.packets, r.between), r.device, r.data, still, descriptors)
    ensures var a := BlockAddress(d.dfu.pointer, block);
      if InRegion(a) then
        && r.complete && r.device.dfu == d.dfu.(state := UploadIdle)
        && r.data == d.dfu.flash.mem[Offset(a)..Offset(a) + Min(DFU_XFER_SIZE, APP_FLASH_END - a + 1)]
      else
        r.complete && r.data == [] && r.device.dfu == d.dfu.(state := DfuIdle)
  {
    assert ReadBlock(d, block, r.between, descriptors) == r;
    if InRegion(BlockAddress(d.dfu.pointer, block)) {
      still := ReadBlockGivesFlash(d, block, r.between, descriptors);
    } else {
      still := ReadPastEnd(d, block, r.between, descriptors);
    }
  }

  /** The device the host makes its upload `i` to. */
  function Before(d: Device, uploads: seq<BlockRead>, i: nat): Device
    requires i <= |uploads|
  {
    if i == 0 then d else uploads[i - 1].device
  }

  /** Upload `i` of a read-back carries on with the device upload `i - 1` left. */
  ghost predicate Continued(d: Device, uploads: seq<BlockRead>, i: nat, descriptors: Descriptors)
    requires i < |uploads|
  {
    i + 2 < 0x1_0000 && Reads(Before(d, uploads, i), i + 2, uploads[i], descriptors)
  }

  /** The host uploads blocks 2, 3, ... one after the other, with what it likes in between. */
  ghost predicate ReadBack(d: Device, uploads: seq<BlockRead>, descriptors: Descriptors) {
    forall i :: 0 <= i < |uploads| ==> Continued(d, uploads, i, descriptors)
  }

  lemma ReadBackPrefix(d: Device, uploads: seq<BlockRead>, n: nat, descriptors: Descriptors)
    requires ReadBack(d, uploads, descriptors) && n <= |uploads|
    ensures ReadBack(d, uploads[..n], descriptors)
  {
    forall i | 0 <= i < n
      ensures Continued(d, uploads[..n], i, descriptors)
    {
      assert Continued(d, uploads, i, descriptors);
      assert Before(d, uploads[..n], i) == Before(d, uploads, i);
    }
  }

  function Collected(uploads: seq<BlockRead>): seq<byte> {
    if uploads == [] then [] else Collected(uploads[..|uploads| - 1]) + uploads[|uploads| - 1].data
  }

  /** Bytes from the pointer to the end of the region. */
  function Available(pointer: u32): int {
    APP_FLASH_END - pointer + 1
  }

  /** Where block `2 + n` of a read-back lies, in wrapping arithmetic. */
  lemma UploadRange(pointer: u32, n: nat)
    requires InRegion(pointer) && (n > 0 ==> (n - 1) * DFU_XFER_SIZE < Available(pointer))
    ensures n + 2 < 0x1_0000
    ensures BlockAddress(pointer, n + 2) == pointer + n * DFU_XFER_SIZE
  {
  }

  /** The flash from the pointer on that the first `m` blocks cover. */
  function Covered(mem: seq<byte>, pointer: u32, m: nat): seq<byte>
    requires |mem| == FLASH_SIZE && InRegion(pointer)
  {
    mem[Offset(pointer)..Offset(pointer) + Min(m * DFU_XFER_SIZE, Available(pointer))]
  }

  lemma CoveredToEnd(mem: seq<byte>, pointer: u32, m: nat)
    requires |mem| == FLASH_SIZE && InRegion(pointer) && m == BlockCount(Available(pointer))
    ensures Covered(mem, pointer, m) == mem[Offset(pointer)..Offset(APP_FLASH_END) + 1]
  {
  }

  /** The next upload of a read-back carries on where the last one stopped. */
  lemma UploadStep(c: Dfu, d: Device, m: nat, r: BlockRead, descriptors: Descriptors)
    requires c.Wf() && InRegion(c.pointer) && m * DFU_XFER_SIZE < Available(c.pointer)
    requires UploadReady(d.dfu) && d.dfu.pointer == c.pointer && d.dfu.flash == c.flash
    requires m + 2 < 0x1_0000 && Reads(d, m + 2, r, descriptors)
    ensures r.complete && r.device.dfu == d.dfu.(state := UploadIdle)
    ensures Covered(c.flash.mem, c.pointer, m) + r.data == Covered(c.flash.mem, c.pointer, m + 1)
  {
    UploadRange(c.pointer, m);
    var _ := ReadsFlash(d, m + 2, r, descriptors);
  }

  ghost predicate AllComplete(uploads: seq<BlockRead>) {
    forall i :: 0 <= i < |uploads| ==> uploads[i].complete
  }

  lemma AllCompleteSnoc(uploads: seq<BlockRead>)
    requires uploads != [] && uploads[|uploads| - 1].complete && AllComplete(uploads[..|uploads| - 1])
    ensures AllComplete(uploads)
  {
    forall i | 0 <= i < |uploads|
      ensures uploads[i].complete
    {
      assert i < |uploads| - 1 ==> uploads[..|uploads| - 1][i].complete;
    }
  }

  /** What a read-back has left of the device: only the state moved. */
  function Reading(c: Dfu, n: nat): Dfu {
    if n == 0 then c else c.(state := UploadIdle)
  }

  /** The blocks read back are the flash from the pointer on. */
  lemma {:induction false} ReadBackGivesFlash(d: Device, uploads: seq<BlockRead>, descriptors: Descriptors)
    requires UploadReady(d.dfu) && InRegion(d.dfu.pointer) && d.dfu.Wf() && ReadBack(d, uploads, descriptors)
    requires uploads != [] ==> (|uploads| - 1) * DFU_XFER_SIZE < Available(d.dfu.pointer)
    ensures Collected(uploads) == Covered(d.dfu.flash.mem, d.dfu.pointer, |uploads|)
    ensures AllComplete(uploads)
    ensures Before(d, uploads, |uploads|).dfu == Reading(d.dfu, |uploads|)
    decreases |uploads|
  {
    if uploads != [] {
      var m := |uploads| - 1;
      ReadBackPrefix(d, uploads, m, descriptors);
      ReadBackGivesFlash(d, uploads[..m], descriptors);
      var before := Before(d, uploads, m);
      assert before == Before(d, uploads[..m], m);
      assert Continued(d, uploads, m, descriptors);
      UploadStep(d.dfu, before, m, uploads[m], descriptors);
      AllCompleteSnoc(uploads);
    }
  }

  lemma BlocksCover(pointer: u32, n: nat)
    requires InRegion(pointer) && n == BlockCount(Available(pointer))
    ensures 0 < n && n + 2 < 0x1_0000 && (n - 1) * DFU_XFER_SIZE < Available(pointer) <= n * DFU_XFER_SIZE
    ensures !InRegion(BlockAddress(pointer, n + 2))
  {
    UploadRange(pointer, n);
  }

  /** The upload behind the last block comes back empty. */
  lemma EmptyUpload(c: Dfu, d: Device, n: nat, r: BlockRead, descriptors: Descriptors)
    requires InRegion(c.pointer) && d.dfu == Reading(c, n) && 0 < n == BlockCount(Available(c.pointer))
    requires n + 2 < 0x1_0000 && Reads(d, n + 2, r, descriptors)
    ensures r.complete && r.data == [] && r.device.dfu == c.(state := DfuIdle)
  {
    BlocksCover(c.pointer, n);
    var _ := ReadsFlash(d, n + 2, r, descriptors);
  }

  /** All blocks of the region read back, before the last, empty one. */
  lemma ReadBackCovers(d: Device, uploads: seq<BlockRead>, n: nat, descriptors: Descriptors)
    requires UploadReady(d.dfu) && InRegion(d.dfu.pointer) && d.dfu.Wf() && ReadBack(d, uploads, descriptors)
    requires n == BlockCount(Available(d.dfu.pointer)) && |uploads| == n + 1
    ensures 0 < n && n + 2 < 0x1_0000
    ensures Collected(uploads[..n]) == d.dfu.flash.mem[Offset(d.dfu.pointer)..Offset(APP_FLASH_END) + 1]
    ensures AllComplete(uploads[..n]) && Before(d, uploads, n).dfu == Reading(d.dfu, n)
  {
    BlocksCover(d.dfu.pointer, n);
    ReadBackPrefix(d, uploads, n, descriptors);
    ReadBackGivesFlash(d, uploads[..n], descriptors);
    assert Before(d, uploads, n) == Before(d, uploads[..n], n);
    CoveredToEnd(d.dfu.flash.mem, d.dfu.pointer, n);
  }

  /** Reading block after block until one comes back empty collects the flash from the pointer on. */
  lemma ReadBackCollects(d: Device, uploads: seq<BlockRead>, descriptors: Descriptors)
    requires UploadReady(d.dfu) && InRegion(d.dfu.pointer) && d.dfu.Wf() && ReadBack(d, uploads, descriptors)
    requires |uploads| == BlockCount(Available(d.dfu.pointer)) + 1
    ensures Collected(uploads) == d.dfu.flash.mem[Offset(d.dfu.pointer)..Offset(APP_FLASH_END) + 1]
    ensures AllComplete(uploads)
    ensures uploads[|uploads| - 1].data == [] && Before(d, uploads, |uploads|).dfu == d.dfu.(state := DfuIdle)
  {
    var n := |uploads| - 1;
    ReadBackCovers(d, uploads, n, descriptors);
    assert Continued(d, uploads, n, descriptors);
    EmptyUpload(d.dfu, Before(d, uploads, n), n, uploads[n], descriptors);
    AllCompleteSnoc(uploads);
  }

  // ----- a read-back on the bus -----------------------------------------------------

  /** The events of a read-back. */
  function TraceOf(uploads: seq<BlockRead>): seq<Event>
    requires |uploads| + 2 <= 0x1_0000
    decreases |uploads|
  {
    if uploads == [] then []
    else
      var m := |uploads| - 1;
      TraceOf(uploads[..m]) + BlockEvents(m + 2, uploads[m].packets, uploads[m].between)
  }

  /** A read-back has at most as many blocks as there are block numbers. */
  lemma ReadBackLength(d: Device, uploads: seq<BlockRead>, descriptors: Descriptors)
    requires ReadBack(d, uploads, descriptors)
    ensures |uploads| + 2 <= 0x1_0000
  {
    if uploads != [] {
      assert Continued(d, uploads, |uploads| - 1, descriptors);
    }
  }

  /** One more upload behind a read-back. */
  lemma NextReaches(d: Device, front: seq<Event>, before: Device, got: seq<byte>, were: bool, block: u16, r: BlockRead,
                    descriptors: Descriptors)
      returns (still: bool)
    requires Reaches(d, front, before, got, were, descriptors)
    requires Reads(before, block, r, descriptors) && UploadReady(before.dfu) && 2 <= block
    ensures Reaches(d, front + BlockEvents(block, r.packets, r.between), r.device, got + r.data, still, descriptors)
  {
    still := ReadsFlash(before, block, r, descriptors);
    ReachesAppend(d, front, before, got, were,
                  BlockEvents(block, r.packets, r.between), r.device, r.data, still, descriptors);
  }

  /** The device is ready before each of the uploads. */
  ghost predicate ReadyForEach(d: Device, uploads: seq<BlockRead>) {
    forall i :: 0 <= i < |uploads| ==> UploadReady(Before(d, uploads, i).dfu)
  }

  lemma ReadyForFewer(d: Device, uploads: seq<BlockRead>, n: nat)
    requires ReadyForEach(d, uploads) && n <= |uploads|
    ensures ReadyForEach(d, uploads[..n]) && Before(d, uploads[..n], n) == Before(d, uploads, n)
  {
    forall i | 0 <= i < n
      ensures UploadReady(Before(d, uploads[..n], i).dfu)
    {
      assert Before(d, uploads[..n], i) == Before(d, uploads, i);
    }
  }

  /** What the host acknowledges on the bus over a read-back are the blocks it read. */
  lemma {:induction false} TraceReaches(d: Device, uploads: seq<BlockRead>, descriptors: Descriptors)
      returns (still: bool)
    requires d.dfu.Wf() && ReadBack(d, uploads, descriptors) && |uploads| + 2 <= 0x1_0000
    requires ReadyForEach(d, uploads)
    ensures Reaches(d, TraceOf(uploads), Before(d, uploads, |uploads|), Collected(uploads), still, descriptors)
    decreases |uploads|
  {
    if uploads == [] {
      still := false;
      ReachesNone(d, descriptors);
    } else {
      var m := |uploads| - 1;
      ReadBackPrefix(d, uploads, m, descriptors);
      ReadyForFewer(d, uploads, m);
      var were := TraceReaches(d, uploads[..m], descriptors);
      assert Continued(d, uploads, m, descriptors);
      still := NextReaches(d, TraceOf(uploads[..m]), Before(d, uploads, m), Collected(uploads[..m]), were,
                           m + 2, uploads[m], descriptors);
    }
  }

  lemma ReadBackReady(d: Device, uploads: seq<BlockRead>, descriptors: Descriptors)
    requires UploadReady(d.dfu) && InRegion(d.dfu.pointer) && d.dfu.Wf() && ReadBack(d, uploads, descriptors)
    requires |uploads| == BlockCount(Available(d.dfu.pointer)) + 1
    ensures ReadyForEach(d, uploads)
  {
    BlocksCover(d.dfu.pointer, |uploads| - 1);
    forall i | 0 <= i < |uploads|
      ensures UploadReady(Before(d, uploads, i).dfu)
    {
      ReadBackPrefix(d, uploads, i, descriptors);
      ReadBackGivesFlash(d, uploads[..i], descriptors);
      assert Before(d, uploads[..i], i) == Before(d, uploads, i);
    }
  }

  /**
    Reading block after block until one comes back empty: the bytes the host
    acknowledges are exactly the flash from the pointer to the last byte of the
    region, and the device is back in IDLE.
   */
  lemma ReadBackGivesRegion(d: Device, uploads: seq<BlockRead>, descriptors: Descriptors)
      returns (r: Device, still: bool)
    requires UploadReady(d.dfu) && InRegion(d.dfu.pointer) && d.dfu.Wf() && ReadBack(d, uploads, descriptors)
    requires |uploads| == BlockCount(Available(d.dfu.pointer)) + 1
    ensures |uploads| + 2 <= 0x1_0000 && AllComplete(uploads) && uploads[|uploads| - 1].data == []
    ensures Reaches(d, TraceOf(uploads), r, d.dfu.flash.mem[Offset(d.dfu.pointer)..Offset(APP_FLASH_END) + 1],
                    still, descriptors)
    ensures r.dfu == d.dfu.(state := DfuIdle)
  {
    BlocksCover(d.dfu.pointer, |uploads| - 1);
    ReadBackLength(d, uploads, descriptors);
    ReadBackCollects(d, uploads, descriptors);
    ReadBackReady(d, uploads, descriptors);
    r := Before(d, uploads, |uploads|);
    still := TraceReaches(d, uploads, descriptors);
  }

  lemma ReadBackSnoc(d: Device, uploads: seq<BlockRead>, r: BlockRead, descriptors: Descriptors)
    requires ReadBack(d, uploads, descriptors) && |uploads| + 2 < 0x1_0000
    requires Reads(Before(d, uploads, |uploads|), |uploads| + 2, r, descriptors)
    ensures ReadBack(d, uploads + [r], descriptors)
    ensures Before(d, uploads + [r], |uploads| + 1) == r.device
  {
    var all := uploads + [r];
    forall i | 0 <= i < |all|
      ensures Continued(d, all, i, descriptors)
    {
      assert Before(d, all, i) == Before(d, uploads, i);
      assert i < |uploads| ==> Continued(d, uploads, i, descriptors);
    }
  }

  /** Every device makes something of every UPLOAD. */
  lemma SomeRead(d: Device, block: u16, between: seq<Event>, descriptors: Descriptors) returns (r: BlockRead)
    requires d.dfu.Wf() && AllIdle(between)
    ensures Reads(d, block, r, descriptors) && r.between == between && r.device.dfu.Wf()
  {
    r := ReadBlock(d, block, between, descriptors);
  }

  /** Whatever the host does in between, it can read back as many blocks as there are numbers for. */
  lemma {:induction false} ReadBackExists(d: Device, between: seq<seq<Event>>, descriptors: Descriptors)
      returns (uploads: seq<BlockRead>)
    requires d.dfu.Wf() && |between| + 2 <= 0x1_0000
    requires forall i :: 0 <= i < |between| ==> AllIdle(between[i])
    ensures ReadBack(d, uploads, descriptors) && |uploads| == |between|
    ensures forall i :: 0 <= i < |between| ==> uploads[i].between == between[i]
    ensures Before(d, uploads, |uploads|).dfu.Wf()
    decreases |between|
  {
    if between == [] {
      uploads := [];
    } else {
      var m := |between| - 1;
      var first := ReadBackExists(d, between[..m], descriptors);
      var last := SomeRead(Before(d, first, m), m + 2, between[m], descriptors);
      ReadBackSnoc(d, first, last, descriptors);
      uploads := first + [last];
    }
  }

  // ----- round trip ---------------------------------------------------------------

  const ABORT_EVENT := ClassSetup(DFU_ABORT, 0, 0)

  lemma AbortStep(c: Dfu)
    requires c.Wf()
    ensures Step(c, ABORT_EVENT) == Abort(c)
  {
  }

  lemma RunAbort(c: Dfu, events: seq<Event>)
    requires c.Wf()
    ensures Run(c, events + [ABORT_EVENT]) == Abort(Run(c, events))
  {
    AbortStep(Run(c, events));
    RunSnoc(c, events, ABORT_EVENT);
  }

  /** The application region of a memory. */
  function Region(mem: seq<byte>): seq<byte>
    requires |mem| == FLASH_SIZE
  {
    mem[Offset(APP_FLASH_START)..Offset(APP_FLASH_END) + 1]
  }

  /** A host that downloads an image, aborts to IDLE, and reads the region back. */
  ghost predicate DownloadsAndReadsBack(d: Device, base: u32, image: seq<byte>, plan: Plan, download: seq<Event>,
                                        settle: seq<Event>, uploads: seq<BlockRead>, descriptors: Descriptors)
    requires d.dfu.Wf() && Fits(base, image) && plan.For(base, image)
  {
    && Visible(download) == plan.Events(base, image) && AllIdle(settle)
    && |uploads| == BlockCount(REGION_SIZE) + 1
    && ReadBack(DeviceRun(d, download + [ABORT_EVENT] + settle, descriptors), uploads, descriptors)
  }

  /** The session's image, and what it left around it, as a read-back of the region shows it. */
  lemma ImageInRegion(mem: seq<byte>, base: u32, image: seq<byte>)
    requires |mem| == FLASH_SIZE && Fits(base, image)
    ensures var start := base - APP_FLASH_START;
      Region(WithImage(mem, base, image))[start..start + |image|] == image
  {
    var all, start := WithImage(mem, base, image), base - APP_FLASH_START;
    assert all[Offset(base)..Offset(base) + |image|] == image;
    assert Region(all)[start..start + |image|] == all[Offset(base)..Offset(base) + |image|];
  }

  lemma {:induction false} WithoutUpload(d: Device, events: seq<Event>, descriptors: Descriptors)
    requires d.dfu.Wf() && NeverUploads(events)
    ensures Reaches(d, events, DeviceRun(d, events, descriptors), [], false, descriptors)
    decreases |events|
  {
    if events == [] {
      ReachesNone(d, descriptors);
    } else {
      var m := |events| - 1;
      assert events[m] in events && events == events[..m] + [events[m]];
      WithoutUpload(d, events[..m], descriptors);
      ReachesSnoc(d, events[..m], DeviceRun(d, events[..m], descriptors), [], false, events[m], descriptors);
      DeviceRunSnoc(d, events[..m], events[m], descriptors);
    }
  }

  /** Behind a download, an ABORT and idling the device reads from the region start. */
  lemma AfterAbort(d: Device, download: seq<Event>, settle: seq<Event>, descriptors: Descriptors) returns (r: Device)
    requires d.dfu.Wf() && NeverUploads(download) && AllIdle(settle)
    ensures Reaches(d, download + [ABORT_EVENT] + settle, r, [], false, descriptors)
    ensures r.dfu == Abort(Run(d.dfu, download))
  {
    var loaded := DeviceRun(d, download, descriptors);
    WithoutUpload(d, download, descriptors);
    ReachesSnoc(d, download, loaded, [], false, ABORT_EVENT, descriptors);
    AbortStep(loaded.dfu);
    var still;
    r, still := IdlesReach(d, download + [ABORT_EVENT], DeviceStep(loaded, ABORT_EVENT, descriptors), [], false,
                           settle, descriptors);
  }

  lemma {:induction false} TraceStartsWithRequest(uploads: seq<BlockRead>)
    requires 0 < |uploads| && |uploads| + 2 <= 0x1_0000
    ensures TraceOf(uploads) != [] && TraceOf(uploads)[0].SetupEvent?
    decreases |uploads|
  {
    if |uploads| > 1 {
      TraceStartsWithRequest(uploads[..|uploads| - 1]);
    }
  }

  /** The bytes the host acknowledges over the whole exchange are the region as the download left it. */
  lemma ReadsBackRegion(d: Device, base: u32, image: seq<byte>, plan: Plan, download: seq<Event>, settle: seq<Event>,
                        uploads: seq<BlockRead>, descriptors: Descriptors)
    requires d.dfu.Wf() && Fits(base, image) && plan.For(base, image)
    requires DownloadsAndReadsBack(d, base, image, plan, download, settle, uploads, descriptors)
    ensures |uploads| + 2 <= 0x1_0000
    ensures Uploaded(d, download + [ABORT_EVENT] + settle + TraceOf(uploads), descriptors)
      == Region(Run(d.dfu, download).flash.mem)
  {
    var front, got := download + [ABORT_EVENT] + settle, Region(Run(d.dfu, download).flash.mem);
    SessionGoesOn(base, image, plan, download);
    var ready := AfterAbort(d, download, settle, descriptors);
    ReachesRun(d, front, ready, [], false, descriptors);
    var r, still := ReadBackGivesRegion(ready, uploads, descriptors);
    TraceStartsWithRequest(uploads);
    ReachesAppend(d, front, ready, [], false, TraceOf(uploads), r, got, still, descriptors);
    ReachesRun(d, front + TraceOf(uploads), r, [] + got, still, descriptors);
    assert [] + got == got;
  }

  lemma RegionFrame(a: seq<byte>, b: seq<byte>, lo: int, hi: int)
    requires |a| == FLASH_SIZE && SameOutside(a, b, Offset(APP_FLASH_START) + lo, Offset(APP_FLASH_START) + hi)
    ensures SameOutside(Region(a), Region(b), lo, hi)
  {
  }

  /**
    What a host that downloaded `image` to `base` over `mem` reads back of the region.
    If every operation was granted, its own image where it put it and around it what
    the download left there; if not, nothing but the pages of the image can differ
    from what was there before.
   */
  ghost predicate ReadsImage(got: seq<byte>, mem: seq<byte>, base: u32, image: seq<byte>, granted: bool)
    requires |mem| == FLASH_SIZE && Fits(base, image)
  {
    var start := base - APP_FLASH_START;
    && |got| == REGION_SIZE
    && if granted then
         got[start..start + |image|] == image && got == Region(WithImage(mem, base, image))
       else
         SameOutside(Region(mem), got, start, start + PageCount(|image|) * FLASH_PAGE_SIZE)
  }

  lemma DownloadedRegion(c: Dfu, r: Dfu, base: u32, image: seq<byte>)
    requires c.Wf() && Fits(base, image) && Downloaded(c, r, base, image)
    ensures ReadsImage(Region(r.flash.mem), c.flash.mem, base, image, c.flash.Granted(Operations(|image|)))
  {
    var start := base - APP_FLASH_START;
    if c.flash.Granted(Operations(|image|)) {
      ImageInRegion(c.flash.mem, base, image);
    } else {
      RegionFrame(c.flash.mem, r.flash.mem, start, start + PageCount(|image|) * FLASH_PAGE_SIZE);
    }
  }

  /**
    Download an image, abort to IDLE, read the region back, whatever the controller
    refuses: the bytes the host acknowledges in the uploads are the region, with its
    image in it if every operation was granted.
   */
  lemma RoundTrip(d: Device, base: u32, image: seq<byte>, plan: Plan, download: seq<Event>, settle: seq<Event>,
                  uploads: seq<BlockRead>, descriptors: Descriptors)
    requires Ready(d.dfu) && Fits(base, image) && plan.For(base, image)
    requires DownloadsAndReadsBack(d, base, image, plan, download, settle, uploads, descriptors)
    ensures |uploads| + 2 <= 0x1_0000
    ensures ReadsImage(Uploaded(d, download + [ABORT_EVENT] + settle + TraceOf(uploads), descriptors),
                       d.dfu.flash.mem, base, image, d.dfu.flash.Granted(Operations(|image|)))
  {
    ReadsBackRegion(d, base, image, plan, download, settle, uploads, descriptors);
    DownloadWritesImage(d.dfu, base, image, plan, download);
    DownloadedRegion(d.dfu, Run(d.dfu, download), base, image);
  }

  // ----- none of it ends a download ---------------------------------------------------

  lemma BlockNeverEnds(block: u16, packets: nat, between: seq<Event>)
    requires AllIdle(between)
    ensures NeverEnds(BlockEvents(block, packets, between))
  {
    forall e | e in BlockEvents(block, packets, between)
      ensures !EndsDownload(e)
    {
      assert e == UploadEvent(block) || e == InDone || Idles(e) by { CompletionsAre(packets); }
    }
  }

  lemma {:induction false} CompletionsAre(n: nat)
    ensures forall e :: e in Completions(n) ==> e == InDone
    decreases n
  {
    if n > 0 {
      CompletionsAre(n - 1);
    }
  }

  lemma {:induction false} TraceNeverEnds(d: Device, uploads: seq<BlockRead>, descriptors: Descriptors)
    requires ReadBack(d, uploads, descriptors) && |uploads| + 2 <= 0x1_0000
    ensures NeverEnds(TraceOf(uploads))
    decreases |uploads|
  {
    if uploads != [] {
      var m := |uploads| - 1;
      ReadBackPrefix(d, uploads, m, descriptors);
      TraceNeverEnds(d, uploads[..m], descriptors);
      assert Continued(d, uploads, m, descriptors);
      BlockNeverEnds(m + 2, uploads[m].packets, uploads[m].between);
    }
  }

  lemma NeverEndsAppend(a: seq<Event>, b: seq<Event>)
    requires NeverEnds(a) && NeverEnds(b)
    ensures NeverEnds(a + b)
  {
  }

  lemma IdlesNeverEnd(events: seq<Event>)
    requires AllIdle(events)
    ensures NeverEnds(events)
  {
    forall e | e in events
      ensures !EndsDownload(e)
    {
      assert Idles(e);
    }
  }

  lemma RoundTripNeverEnds(d: Device, base: u32, image: seq<byte>, plan: Plan, download: seq<Event>,
                           settle: seq<Event>, uploads: seq<BlockRead>, descriptors: Descriptors)
    requires d.dfu.Wf() && Fits(base, image) && plan.For(base, image) && |uploads| + 2 <= 0x1_0000
    requires DownloadsAndReadsBack(d, base, image, plan, download, settle, uploads, descriptors)
    ensures NeverEnds(download + [ABORT_EVENT] + settle + TraceOf(uploads))
  {
    SessionGoesOn(base, image, plan, download);
    TraceNeverEnds(DeviceRun(d, download + [ABORT_EVENT] + settle, descriptors), uploads, descriptors);
    IdlesNeverEnd(settle);
    NeverEndsAppend(download, [ABORT_EVENT]);
    NeverEndsAppend(download + [ABORT_EVENT], settle);
    NeverEndsAppend(download + [ABORT_EVENT] + settle, TraceOf(uploads));
  }

  // ----- where uploads start ----------------------------------------------------

  /** CLRSTATUS takes the device out of ERROR. */
  predicate Recovers(c: Dfu, e: Event) {
    IsRequest(e, DFU_CLRSTATUS) && c.state == DfuError
  }

  ghost predicate NeverRecovers(c: Dfu, events: seq<Event>)
    requires c.Wf()
    decreases |events|
  {
    events == []
    || (NeverRecovers(c, events[..|events| - 1]) && !Recovers(Run(c, events[..|events| - 1]), events[|events| - 1]))
  }

  /** Only ABORT, a bus reset and recovery make a device ready for uploads that was not. */
  lemma BecomesUploadReady(c: Dfu, e: Event)
    requires c.Wf() && !Recovers(c, e) && !ResetsPointer(e) && UploadReady(Step(c, e))
    ensures UploadReady(c) && !Executes(c, e)
  {
    if Executes(c, e) {
      ExecuteEnds(c);
    }
  }

  lemma UploadBaseStep(c: Dfu, e: Event)
    requires c.Wf() && !Recovers(c, e) && (UploadReady(c) ==> c.pointer == APP_START_ADDRESS)
    ensures UploadReady(Step(c, e)) ==> Step(c, e).pointer == APP_START_ADDRESS
  {
    PointerStep(c, e);
    if UploadReady(Step(c, e)) && !ResetsPointer(e) {
      BecomesUploadReady(c, e);
    }
  }

  /**
    As long as CLRSTATUS never leaves ERROR, every upload is numbered from the start
    of the application region, whatever SET_ADDRESS commands came before.
   */
  lemma {:induction false} UploadsStartAtRegion(c: Dfu, events: seq<Event>)
    requires c.Wf() && NeverRecovers(c, events) && (UploadReady(c) ==> c.pointer == APP_START_ADDRESS)
    ensures UploadReady(Run(c, events)) ==> Run(c, events).pointer == APP_START_ADDRESS
    decreases |events|
  {
    if events != [] {
      UploadsStartAtRegion(c, events[..|events| - 1]);
      UploadBaseStep(Run(c, events[..|events| - 1]), events[|events| - 1]);
    }
  }

  /**
    A host that sets an address and aborts to IDLE in order to upload from there reads
    from that address exactly when it is the start of the region.
   */
  lemma UploadAfterSetAddress(c: Dfu, t: Transfer, address: u32, len: u16)
    requires c.Wf() && t.Wf() && t.block == 0 && t.Payload() == Command(CMD_SET_ADDRESS, address)
    ensures var plan := UploadPlan(Run(c, t.Events() + [ABORT_EVENT]), 2, len);
      plan.Serve? && (plan.at == address <==> address == APP_FLASH_START)
  {
    RunAbort(c, t.Events());
    PlanAfterAbort(Run(c, t.Events()), len);
  }

  lemma PlanAfterAbort(c: Dfu, len: u16)
    ensures UploadPlan(Abort(c), 2, len).Serve? && UploadPlan(Abort(c), 2, len).at == APP_FLASH_START
  {
  }

  /** Through ERROR and CLRSTATUS instead, the address survives. */
  lemma UploadAfterRecovery(c: Dfu, t: Transfer, address: u32, len: u16)
    requires Ready(c) && t.Wf() && t.block == 0 && t.Payload() == Command(CMD_SET_ADDRESS, address)
    requires InRegion(address)
    ensures var r := Run(c, t.Events() + [ClassSetup(DFU_DNLOAD, 2, 1025)] + [ClassSetup(DFU_CLRSTATUS, 0, 0)]);
      UploadPlan(r, 2, len).Serve? && UploadPlan(r, 2, len).at == address
  {
    var oversized, clear := ClassSetup(DFU_DNLOAD, 2, 1025), ClassSetup(DFU_CLRSTATUS, 0, 0);
    var r := SetAddressTransfer(c, t, address);
    LeadsSnoc(c, t.Events(), r, oversized);
    assert Step(r, oversized) == Fail(r, ErrUnknown);
    LeadsSnoc(c, t.Events() + [oversized], Fail(r, ErrUnknown), clear);
    LeadsTo(c, t.Events() + [oversized] + [clear], ClrStatus(Fail(r, ErrUnknown)));
  }
}
