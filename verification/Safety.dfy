/**
  What holds in every run of the protocol, whatever the host sends: the control
  invariant, flash confinement, deferred execution and the history of the pointer.
 */
module Safety {
  import opened Words
  import opened NorFlash
  import opened Ep0Transfer
  import opened DfuProtocol

  // ----- control invariant ------------------------------------------------

  predicate InTransferState(c: Dfu) {
    c.state == DnloadSync || c.state == DnBusy
  }

  ghost predicate ControlInvariant(c: Dfu) {
    && c.Wf()
    && !c.state.AppIdle? && !c.state.AppDetach? && !c.state.Manifest?
    && (c.status != StatusOk <==> c.state == DfuError)
    && (InTransferState(c) ==> 1 <= c.xferLen <= DFU_XFER_SIZE && c.blockNum != 1)
    && (InTransferState(c) && 2 <= c.blockNum ==> c.address == BlockAddress(c.pointer, c.blockNum))
    && (InTransferState(c) && c.blockNum == 0 ==> |c.data| < c.xferLen)
  }

  /** The deferred operation either fails or goes back to DNLOAD_IDLE; no command stays pending. */
  lemma ExecuteEnds(c: Dfu)
    requires c.Wf()
    ensures var r := Execute(c);
      && r.pending == 0
      && ((r.state == DnloadIdle && r.status == c.status) || (r.state == DfuError && r.status != StatusOk))
      && r.pointer == (if c.pending == CMD_SET_ADDRESS && c.hasArg then c.arg else c.pointer)
  {
  }

  lemma RequestKeepsControl(c: Dfu, s: Setup)
    requires ControlInvariant(c)
    ensures ControlInvariant(OnClassRequest(c, s))
  {
    if s.bRequest == DFU_GETSTATUS && c.state == DnBusy {
      ExecuteEnds(c);
    }
  }

  lemma StepKeepsControl(c: Dfu, e: Event)
    requires ControlInvariant(c)
    ensures ControlInvariant(Step(c, e))
  {
    if e.SetupEvent? && e.setup.Class() {
      RequestKeepsControl(c, e.setup);
    }
  }

  lemma {:induction false} ControlInvariantHolds(c: Dfu, events: seq<Event>)
    requires ControlInvariant(c)
    ensures ControlInvariant(Run(c, events))
    decreases |events|
  {
    if events != [] {
      ControlInvariantHolds(c, events[..|events| - 1]);
      StepKeepsControl(Run(c, events[..|events| - 1]), events[|events| - 1]);
    }
  }

  ghost predicate EndpointInvariant(t: InTransfer) {
    && |t.rest| <= t.reqLen
    && (t.answer.Data? ==> |t.answer.packet| <= 64)
    && (t.owesZlp ==> 0 < t.reqLen)
  }

  lemma RespondKeepsEndpoint(t: InTransfer, r: Response)
    requires EndpointInvariant(t)
    ensures EndpointInvariant(Respond(t, r)) && EndpointInvariant(OnCompletion(t))
  {
  }

  lemma StepKeepsEndpoint(d: Device, e: Event, descriptors: Descriptors)
    requires d.dfu.Wf() && EndpointInvariant(d.ep0)
    ensures EndpointInvariant(DeviceStep(d, e, descriptors).ep0)
  {
    match e
    case SetupEvent(s) =>
      var response :=
        if s.Standard() then StandardResponse(s, descriptors)
        else if s.Class() then ClassResponse(d.dfu, s)
        else Stalled;
      RespondKeepsEndpoint(Quiet(Nak, s.wLength), response);
    case Out(packet) =>
      RespondKeepsEndpoint(d.ep0, Acknowledge);
    case InDone =>
      RespondKeepsEndpoint(d.ep0.(answer := Nak), Receive);
    case BusReset =>
  }

  lemma {:induction false} EndpointInvariantHolds(d: Device, events: seq<Event>, descriptors: Descriptors)
    requires d.dfu.Wf() && EndpointInvariant(d.ep0)
    ensures EndpointInvariant(DeviceRun(d, events, descriptors).ep0)
    decreases |events|
  {
    if events != [] {
      var before := events[..|events| - 1];
      EndpointInvariantHolds(d, before, descriptors);
      StepKeepsEndpoint(DeviceRun(d, before, descriptors), events[|events| - 1], descriptors);
    }
  }

  // ----- reachable states -----------------------------------------------------

  function ClassSetup(request: byte, value: u16, length: u16): Event {
    SetupEvent(Setup(0x21, request, value, 0, length))
  }

  const GETSTATUS_EVENT := ClassSetup(DFU_GETSTATUS, 0, 6)

  /** A run from power-up that ends in `s`. */
  function PathTo(s: State): seq<Event> {
    var toBusy := [ClassSetup(DFU_DNLOAD, 0, 1), GETSTATUS_EVENT];
    match s
    case DnloadSync => [ClassSetup(DFU_DNLOAD, 0, 1)]
    case DnBusy => toBusy
    case DnloadIdle => toBusy + [GETSTATUS_EVENT]
    case ManifestSync => toBusy + [GETSTATUS_EVENT] + [ClassSetup(DFU_DNLOAD, 0, 0)]
    case ManifestWaitReset => toBusy + [GETSTATUS_EVENT] + [ClassSetup(DFU_DNLOAD, 0, 0)] + [GETSTATUS_EVENT]
    case UploadIdle => [ClassSetup(DFU_UPLOAD, 2, 1024)]
    case DfuError => [ClassSetup(DFU_DNLOAD, 2, 1025)]
    case _ => []
  }

  /** Exactly eight of the eleven DFU states are reachable. */
  lemma ReachableStates(flash: Flash, s: State)
    requires flash.Wf()
    ensures (exists events :: Run(Initial(flash), events).state == s)
       <==> !s.AppIdle? && !s.AppDetach? && !s.Manifest?
  {
    var c := Initial(flash);
    if s.AppIdle? || s.AppDetach? || s.Manifest? {
      forall events
        ensures Run(c, events).state != s
      {
        ControlInvariantHolds(c, events);
      }
    } else {
      PathReaches(flash, s);
    }
  }

  lemma PathReaches(flash: Flash, s: State)
    requires flash.Wf() && !s.AppIdle? && !s.AppDetach? && !s.Manifest?
    ensures Run(Initial(flash), PathTo(s)).state == s
  {
    var c := Initial(flash);
    var sync := Dnload(c, 0, 1);
    var busy := sync.(state := DnBusy);
    var toSync, toBusy := PathTo(DnloadSync), PathTo(DnBusy);
    LeadsOne(c, ClassSetup(DFU_DNLOAD, 0, 1));
    LeadsSnoc(c, toSync, sync, GETSTATUS_EVENT);
    assert toSync + [GETSTATUS_EVENT] == toBusy;
    assert Step(sync, GETSTATUS_EVENT) == busy;
    match s {
      case DfuIdle =>
      case UploadIdle => RunOne(c, ClassSetup(DFU_UPLOAD, 2, 1024));
      case DfuError => RunOne(c, ClassSetup(DFU_DNLOAD, 2, 1025));
      case DnloadSync => LeadsTo(c, toSync, sync);
      case DnBusy => LeadsTo(c, toBusy, busy);
      case _ => PathsBehindExecution(c, toBusy, busy, s);
    }
  }

  lemma PathsBehindExecution(c: Dfu, toBusy: seq<Event>, busy: Dfu, s: State)
    requires Leads(c, toBusy, busy) && busy.Wf() && busy.state == DnBusy && busy.data == [] && busy.pending == 0
    requires toBusy == PathTo(DnBusy) && (s.DnloadIdle? || s.ManifestSync? || s.ManifestWaitReset?)
    ensures Run(c, PathTo(s)).state == s
  {
    var toIdle, toManifest := PathTo(DnloadIdle), PathTo(ManifestSync);
    var idle := busy.(state := DnloadIdle);
    var manifest := busy.(state := ManifestSync);
    LeadsSnoc(c, toBusy, busy, GETSTATUS_EVENT);
    assert Step(busy, GETSTATUS_EVENT) == idle;
    LeadsSnoc(c, toIdle, idle, ClassSetup(DFU_DNLOAD, 0, 0));
    assert Step(idle, ClassSetup(DFU_DNLOAD, 0, 0)) == manifest;
    LeadsSnoc(c, toManifest, manifest, GETSTATUS_EVENT);
    match s {
      case DnloadIdle => LeadsTo(c, toIdle, idle);
      case ManifestSync => LeadsTo(c, toManifest, manifest);
      case ManifestWaitReset => LeadsTo(c, PathTo(s), manifest.(state := ManifestWaitReset));
    }
  }

  // ----- flash confinement and deferred execution ---------------------------

  predicate IsRequest(e: Event, request: byte) {
    e.SetupEvent? && e.setup.Class() && e.setup.bRequest == request
  }

  /** The event makes the device run the deferred operation. */
  predicate Executes(c: Dfu, e: Event) {
    IsRequest(e, DFU_GETSTATUS) && c.state == DnBusy
  }

  /** The event is a DNLOAD the device accepts data for. */
  predicate Accepts(c: Dfu, e: Event) {
    IsRequest(e, DFU_DNLOAD) && DnloadAccepted(c, e.setup.wValue, e.setup.wLength)
  }

  /** Nothing but a GETSTATUS taken from DNBUSY touches the flash controller. */
  lemma OnlyExecutionTouchesFlash(c: Dfu, e: Event)
    requires c.Wf() && !Executes(c, e)
    ensures Step(c, e).flash == c.flash
  {
  }

  lemma ExecuteConfined(c: Dfu)
    requires c.Wf()
    ensures SameOutsideRegion(c.flash.mem, Execute(c).flash.mem)
  {
    EraseConfined(c.flash, c.arg);
    WriteConfined(c.flash, c.address, c.data);
  }

  /**
    No sequence of events changes a byte outside the application region: the
    bootloader and the settings page survive any host.
   */
  lemma {:induction false} FlashConfined(c: Dfu, events: seq<Event>)
    requires c.Wf()
    ensures SameOutsideRegion(c.flash.mem, Run(c, events).flash.mem)
    decreases |events|
  {
    if events != [] {
      var before := Run(c, events[..|events| - 1]);
      FlashConfined(c, events[..|events| - 1]);
      if Executes(before, events[|events| - 1]) {
        ExecuteConfined(before);
      } else {
        OnlyExecutionTouchesFlash(before, events[|events| - 1]);
      }
    }
  }

  /**
    Which writes a run executes: a data block goes to its own address. Block 0 is
    only ever written when it is incomplete, and then to whatever address an earlier
    block left behind.
   */
  lemma WrittenBlock(c: Dfu, events: seq<Event>, e: Event)
    requires ControlInvariant(c) && Executes(Run(c, events), e)
    requires Run(c, events).pending == 0 && Run(c, events).data != []
    ensures var b := Run(c, events);
      && Step(b, e).flash == Write(b.flash, b.address, b.data).flash
      && (2 <= b.blockNum ==> b.address == BlockAddress(b.pointer, b.blockNum))
      && (b.blockNum < 2 ==> b.blockNum == 0 && |b.data| < b.xferLen)
  {
    ControlInvariantHolds(c, events);
  }

  /** How often the run executes the deferred operation. */
  function Executions(c: Dfu, events: seq<Event>): nat
    requires c.Wf()
    decreases |events|
  {
    if events == [] then 0
    else
      var before := events[..|events| - 1];
      Executions(c, before) + if Executes(Run(c, before), events[|events| - 1]) then 1 else 0
  }

  /** How often the run accepts a DNLOAD. */
  function Acceptances(c: Dfu, events: seq<Event>): nat
    requires c.Wf()
    decreases |events|
  {
    if events == [] then 0
    else
      var before := events[..|events| - 1];
      Acceptances(c, before) + if Accepts(Run(c, before), events[|events| - 1]) then 1 else 0
  }

  function Credit(c: Dfu): nat {
    if InTransferState(c) then 1 else 0
  }

  lemma CreditStep(c: Dfu, e: Event)
    requires c.Wf()
    ensures Credit(Step(c, e)) + (if Executes(c, e) then 1 else 0) <= Credit(c) + (if Accepts(c, e) then 1 else 0)
  {
    if Executes(c, e) {
      ExecuteEnds(c);
    }
  }

  /** Each accepted DNLOAD is executed at most once, and nothing is executed without one. */
  lemma {:induction false} AtMostOncePerDownload(c: Dfu, events: seq<Event>)
    requires c.Wf()
    ensures Executions(c, events) + Credit(Run(c, events)) <= Acceptances(c, events) + Credit(c)
    decreases |events|
  {
    if events != [] {
      AtMostOncePerDownload(c, events[..|events| - 1]);
      CreditStep(Run(c, events[..|events| - 1]), events[|events| - 1]);
    }
  }

  /** Polling the status reaches a fixed point within two requests. */
  lemma StatusSettles(c: Dfu)
    requires c.Wf()
    ensures var twice := GetStatus(GetStatus(c)); GetStatus(twice) == twice
  {
    ExecuteEnds(c);
    if c.state == DnloadSync {
      ExecuteEnds(c.(state := DnBusy));
    }
  }

  /** What the host delivered since the latest accepted DNLOAD. */
  function Received(c: Dfu, events: seq<Event>): seq<byte>
    requires c.Wf()
    decreases |events|
  {
    if events == [] then []
    else
      var before, e := events[..|events| - 1], events[|events| - 1];
      if Accepts(Run(c, before), e) then []
      else if e.Out? then Received(c, before) + e.packet
      else Received(c, before)
  }

  /** `a` is `b` with some elements left out. */
  ghost predicate Subsequence<T>(a: seq<T>, b: seq<T>)
    decreases |b|
  {
    if a == [] then true
    else if b == [] then false
    else
      || Subsequence(a, b[..|b| - 1])
      || (a[|a| - 1] == b[|b| - 1] && Subsequence(a[..|a| - 1], b[..|b| - 1]))
  }

  lemma {:induction false} SubsequenceExtends<T>(a: seq<T>, b: seq<T>, p: seq<T>)
    requires Subsequence(a, b)
    ensures Subsequence(a, b + p) && Subsequence(a + p, b + p)
    decreases |p|
  {
    if p == [] {
      assert a + p == a && b + p == b;
    } else {
      var q := p[..|p| - 1];
      SubsequenceExtends(a, b, q);
      assert (b + p)[..|b + p| - 1] == b + q;
      assert (a + p)[..|a + p| - 1] == a + q;
    }
  }

  /**
    The buffer only ever holds bytes that arrived after the latest accepted DNLOAD,
    in their order; so does everything written, which comes from the buffer.
   */
  lemma {:induction false} BufferFromLatestDownload(c: Dfu, events: seq<Event>)
    requires c.Wf() && c.data == []
    ensures Subsequence(Run(c, events).data, Received(c, events))
    decreases |events|
  {
    if events != [] {
      var before, e := events[..|events| - 1], events[|events| - 1];
      BufferFromLatestDownload(c, before);
      if e.Out? {
        SubsequenceExtends(Run(c, before).data, Received(c, before), e.packet);
      }
    }
  }

  // ----- the address pointer --------------------------------------------------

  /** The event executes a SET_ADDRESS with an operand. */
  predicate SetsPointer(c: Dfu, e: Event) {
    Executes(c, e) && c.pending == CMD_SET_ADDRESS && c.hasArg
  }

  predicate ResetsPointer(e: Event) {
    e.BusReset? || IsRequest(e, DFU_ABORT)
  }

  predicate MovesPointer(c: Dfu, e: Event) {
    SetsPointer(c, e) || ResetsPointer(e)
  }

  /** Where an event that moves the pointer moves it. */
  function MoveTarget(c: Dfu, e: Event): u32 {
    if SetsPointer(c, e) then c.arg else APP_START_ADDRESS
  }

  lemma PointerStep(c: Dfu, e: Event)
    requires c.Wf()
    ensures Step(c, e).pointer == if MovesPointer(c, e) then MoveTarget(c, e) else c.pointer
  {
    if Executes(c, e) {
      ExecuteEnds(c);
    }
  }

  /** Event `i` of the run is the last one that moves the pointer. */
  ghost predicate LastMove(c: Dfu, events: seq<Event>, i: nat)
    requires c.Wf()
  {
    && i < |events|
    && MovesPointer(Run(c, events[..i]), events[i])
    && forall j :: i < j < |events| ==> !MovesPointer(Run(c, events[..j]), events[j])
  }

  /**
    The pointer is the operand of the last executed SET_ADDRESS, or the start of the
    application region when an ABORT or bus reset came later.
   */
  lemma {:induction false} PointerIsLastMove(c: Dfu, events: seq<Event>, i: nat)
    requires c.Wf() && LastMove(c, events, i)
    ensures Run(c, events).pointer == MoveTarget(Run(c, events[..i]), events[i])
    decreases |events|
  {
    var n := |events| - 1;
    PointerOfRun(c, events);
    if i < n {
      var before := events[..n];
      LastMovePrefix(c, events, i, n);
      PointerIsLastMove(c, before, i);
      assert before[..i] == events[..i];
      NoLaterMove(c, events, i, n);
    } else {
      assert events[..i] == events[..n];
    }
  }

  lemma NoLaterMove(c: Dfu, events: seq<Event>, i: nat, j: nat)
    requires c.Wf() && LastMove(c, events, i) && i < j < |events|
    ensures !MovesPointer(Run(c, events[..j]), events[j])
  {
  }

  lemma PointerOfRun(c: Dfu, events: seq<Event>)
    requires c.Wf() && events != []
    ensures var n := |events| - 1;
      var before := Run(c, events[..n]);
      Run(c, events).pointer ==
        if MovesPointer(before, events[n]) then MoveTarget(before, events[n]) else before.pointer
  {
    PointerStep(Run(c, events[..|events| - 1]), events[|events| - 1]);
  }

  lemma LastMovePrefix(c: Dfu, events: seq<Event>, i: nat, n: nat)
    requires c.Wf() && LastMove(c, events, i) && i < n <= |events|
    ensures LastMove(c, events[..n], i)
  {
    assert events[..n][..i] == events[..i];
    forall j | i < j < n
      ensures !MovesPointer(Run(c, events[..n][..j]), events[..n][j])
    {
      assert events[..n][..j] == events[..j];
    }
  }

  lemma {:induction false} PointerWithoutMoves(c: Dfu, events: seq<Event>)
    requires c.Wf()
    requires forall j :: 0 <= j < |events| ==> !MovesPointer(Run(c, events[..j]), events[j])
    ensures Run(c, events).pointer == c.pointer
    decreases |events|
  {
    if events != [] {
      var n := |events| - 1;
      PointerOfRun(c, events);
      forall j | 0 <= j < n
        ensures !MovesPointer(Run(c, events[..n][..j]), events[..n][j])
      {
        assert events[..n][..j] == events[..j];
        assert !MovesPointer(Run(c, events[..j]), events[j]);
      }
      PointerWithoutMoves(c, events[..n]);
    }
  }

  // ----- manifestation ----------------------------------------------------------

  /** The device is in state `s` from event `i` on, and was not before it. */
  ghost predicate EnteredAt(c: Dfu, events: seq<Event>, i: nat, s: State)
    requires c.Wf()
  {
    && i < |events|
    && Run(c, events[..i]).state != s
    && forall m :: i < m <= |events| ==> Run(c, events[..m]).state == s
  }

  lemma {:induction false} LastEntry(c: Dfu, events: seq<Event>, s: State) returns (i: nat)
    requires c.Wf() && c.state != s && Run(c, events).state == s
    ensures EnteredAt(c, events, i, s)
    decreases |events|
  {
    var n := |events| - 1;
    if Run(c, events[..n]).state != s {
      i := n;
      assert events[..n + 1] == events;
    } else {
      i := LastEntry(c, events[..n], s);
      EnteredAtExtends(c, events, i, s);
    }
  }

  lemma EnteredAtExtends(c: Dfu, events: seq<Event>, i: nat, s: State)
    requires c.Wf() && events != [] && Run(c, events).state == s
    requires EnteredAt(c, events[..|events| - 1], i, s)
    ensures EnteredAt(c, events, i, s)
  {
    var before := events[..|events| - 1];
    assert before[..i] == events[..i];
    forall m | i < m <= |events|
      ensures Run(c, events[..m]).state == s
    {
      if m == |events| {
        assert events[..m] == events;
      } else {
        assert before[..m] == events[..m];
      }
    }
  }

  /** Which event leads into the states of a finished download. */
  lemma EntryStep(c: Dfu, e: Event)
    requires c.Wf()
    ensures c.state != DnloadIdle && Step(c, e).state == DnloadIdle ==> Executes(c, e)
    ensures c.state != ManifestSync && Step(c, e).state == ManifestSync
        ==> c.state == DnloadIdle && IsRequest(e, DFU_DNLOAD) && e.setup.wLength == 0
    ensures c.state != ManifestWaitReset && Step(c, e).state == ManifestWaitReset
        ==> c.state == ManifestSync && IsRequest(e, DFU_GETSTATUS)
  {
    if Executes(c, e) {
      ExecuteEnds(c);
    }
  }

  /**
    MANIFEST_WAIT_RESET is only ever reached through an execution that succeeded
    (event i), an empty DNLOAD with nothing but DNLOAD_IDLE in between (event j),
    and a GETSTATUS with nothing but MANIFEST_SYNC in between (event k).
   */
  lemma ManifestationOrigin(c: Dfu, events: seq<Event>) returns (i: nat, j: nat, k: nat)
    requires c.Wf() && c.state == DfuIdle && Run(c, events).state == ManifestWaitReset
    ensures EnteredAt(c, events, k, ManifestWaitReset) && IsRequest(events[k], DFU_GETSTATUS)
    ensures EnteredAt(c, events[..k], j, ManifestSync)
    ensures IsRequest(events[j], DFU_DNLOAD) && events[j].setup.wLength == 0
    ensures EnteredAt(c, events[..j], i, DnloadIdle) && Executes(Run(c, events[..i]), events[i])
  {
    k := LastEntry(c, events, ManifestWaitReset);
    EntryOfRun(c, events, k);
    EntryStep(Run(c, events[..k]), events[k]);
    j := LastEntry(c, events[..k], ManifestSync);
    assert events[..k][..j] == events[..j];
    EntryOfRun(c, events[..k], j);
    EntryStep(Run(c, events[..j]), events[j]);
    i := LastEntry(c, events[..j], DnloadIdle);
    assert events[..j][..i] == events[..i];
    EntryOfRun(c, events[..j], i);
    EntryStep(Run(c, events[..i]), events[i]);
  }

  /** The event ends a download. */
  predicate EndsDownload(e: Event) {
    IsRequest(e, DFU_DNLOAD) && e.setup.wLength == 0
  }

  ghost predicate NeverEnds(events: seq<Event>) {
    forall e :: e in events ==> !EndsDownload(e)
  }

  /** Without an empty DNLOAD there is no manifestation. */
  lemma {:induction false} NoManifestation(c: Dfu, events: seq<Event>)
    requires c.Wf() && c.state != ManifestSync && c.state != ManifestWaitReset && NeverEnds(events)
    ensures Run(c, events).state != ManifestSync && Run(c, events).state != ManifestWaitReset
    decreases |events|
  {
    if events != [] {
      NoManifestation(c, events[..|events| - 1]);
      assert events[|events| - 1] in events;
      EntryStep(Run(c, events[..|events| - 1]), events[|events| - 1]);
    }
  }

  lemma EntryOfRun(c: Dfu, events: seq<Event>, i: nat)
    requires c.Wf() && i < |events|
    ensures Run(c, events[..i + 1]) == Step(Run(c, events[..i]), events[i])
  {
    assert events[..i + 1] == events[..i] + [events[i]];
    RunSnoc(c, events[..i], events[i]);
  }

  // ----- addresses and replies ----------------------------------------------------

  /**
    A block address that lands in the application region was computed without
    wrapping, for every 32-bit pointer and every 16-bit block number.
   */
  lemma NoWrapIntoRegion(pointer: u32, block: u16)
    requires 2 <= block && InRegion(BlockAddress(pointer, block))
    ensures BlockAddress(pointer, block) == pointer + (block - 2) * DFU_XFER_SIZE
  {
  }

  /**
    What a GETSTATUS reply tells the host: an error status exactly in ERROR, and a
    time to wait exactly when the operation has been acknowledged but not yet done.
   */
  lemma StatusReplyMeaning(c: Dfu)
    requires ControlInvariant(c)
    ensures var r := StatusReply(c);
      && (r[0] != 0 <==> r[4] == 10) && (r[1] != 0 <==> r[4] == 4)
      && (r[4] == 4 <==> c.state == DnloadSync)
  {
    RequestKeepsControl(c, Setup(0xA1, DFU_GETSTATUS, 0, 0, 6));
    if c.state == DnBusy {
      ExecuteEnds(c);
    }
  }
}
