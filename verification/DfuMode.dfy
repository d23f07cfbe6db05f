/**
  The main loop of `run_dfu_mode`: poll the bus, and reset once manifestation has
  been observed often enough. Whole downloads and read-backs served by the driver.
 */
module DfuMode {
  import opened Words
  import opened NorFlash
  import opened DfuProtocol
  import opened Polling
  import opened Safety
  import opened Session
  import Download
  import opened Upload
  import opened UsbDfu

  const COUNTDOWN := 50

  // ----- what the loop observes -----------------------------------------------------

  /** The iterations that see MANIFEST_WAIT_RESET. */
  function Observations(c: Dfu, ticks: seq<Tick>): nat
    requires c.Wf()
    decreases |ticks|
  {
    if ticks == [] then 0
    else
      Observations(c, ticks[..|ticks| - 1])
      + if Run(c, EventsOf(ticks)).state == ManifestWaitReset then 1 else 0
  }

  lemma ObservationsSnoc(c: Dfu, ticks: seq<Tick>, t: Tick)
    requires c.Wf()
    ensures Observations(c, ticks + [t]) == Observations(c, ticks)
      + if Run(c, EventsOf(ticks + [t])).state == ManifestWaitReset then 1 else 0
  {
    assert (ticks + [t])[..|ticks|] == ticks;
  }

  lemma {:induction false} ObservationsGrow(c: Dfu, ticks: seq<Tick>, n: nat)
    requires c.Wf() && n <= |ticks|
    ensures Observations(c, ticks[..n]) <= Observations(c, ticks)
    decreases |ticks|
  {
    if n < |ticks| {
      ObservationsGrow(c, ticks[..|ticks| - 1], n);
      assert ticks[..|ticks| - 1][..n] == ticks[..n];
    } else {
      assert ticks[..n] == ticks;
    }
  }

  /** The bytes a tick adds to what the host has uploaded; the completion comes before the reception. */
  function TickAdds(d: Device, uploading: bool, t: Tick): seq<byte> {
    match t
    case Silent => []
    case Bus(e) => Adds(d, uploading, e)
    case Coalesced(_) => Adds(d, uploading, InDone)
  }

  function TicksUploaded(d: Device, ticks: seq<Tick>, descriptors: Descriptors): seq<byte>
    requires d.dfu.Wf()
    decreases |ticks|
  {
    if ticks == [] then []
    else
      var before := ticks[..|ticks| - 1];
      TicksUploaded(d, before, descriptors)
      + TickAdds(TickRun(d, before, descriptors), InUpload(EventsOf(before)), ticks[|ticks| - 1])
  }

  /** A completion is polled together with nothing but the status packet behind it. */
  ghost predicate Orderly(ticks: seq<Tick>) {
    forall t :: t in ticks && t.Coalesced? ==> t.reception == Out([])
  }

  /** A status packet polled together with the last completion might as well have come later. */
  lemma StatusPacketReach(d: Device, front: seq<Event>, r: Device, got: seq<byte>, uploading: bool,
                          descriptors: Descriptors)
    requires Reaches(d, front, r, got, uploading, descriptors)
    ensures Reaches(d, front + [InDone, Out([])], TickStep(r, Coalesced(Out([])), descriptors),
                    got + Adds(r, uploading, InDone), uploading, descriptors)
  {
    var taken := DeviceStep(r, InDone, descriptors);
    ReachesSnoc(d, front, r, got, uploading, InDone, descriptors);
    ReachesSnoc(d, front + [InDone], taken, got + Adds(r, uploading, InDone), uploading, Out([]), descriptors);
    assert front + [InDone] + [Out([])] == front + [InDone, Out([])];
    assert DeviceStep(taken, Out([]), descriptors) == taken == TickStep(r, Coalesced(Out([])), descriptors);
    assert got + Adds(r, uploading, InDone) + [] == got + Adds(r, uploading, InDone);
  }

  /** In an orderly run the polls are the run of the events. */
  lemma {:induction false} TicksReach(d: Device, ticks: seq<Tick>, descriptors: Descriptors)
    requires d.dfu.Wf() && Orderly(ticks)
    ensures Reaches(d, EventsOf(ticks), TickRun(d, ticks, descriptors), TicksUploaded(d, ticks, descriptors),
                    InUpload(EventsOf(ticks)), descriptors)
    decreases |ticks|
  {
    if ticks == [] {
      ReachesNone(d, descriptors);
    } else {
      var m := |ticks| - 1;
      var before, t := ticks[..m], ticks[m];
      assert t in ticks;
      TicksReach(d, before, descriptors);
      var r, got, uploading := TickRun(d, before, descriptors), TicksUploaded(d, before, descriptors),
                               InUpload(EventsOf(before));
      match t
      case Silent =>
        assert EventsOf(ticks) == EventsOf(before);
      case Bus(e) =>
        ReachesSnoc(d, EventsOf(before), r, got, uploading, e, descriptors);
        InUploadSnoc(EventsOf(before), e);
      case Coalesced(_) =>
        StatusPacketReach(d, EventsOf(before), r, got, uploading, descriptors);
        ReachesRun(d, EventsOf(ticks), TickStep(r, t, descriptors), got + Adds(r, uploading, InDone), uploading,
                   descriptors);
    }
  }

  /**
    Serving `ticks` from `start` leads to `d`, with `uploaded` sent and `n` observations
    made; stated so that a proof sees the run only when it names it.
   */
  ghost predicate Serves(start: Device, ticks: seq<Tick>, d: Device, uploaded: seq<byte>, n: nat,
                         descriptors: Descriptors)
  {
    && start.dfu.Wf()
    && forall run :: run == ticks ==>
         && TickRun(start, run, descriptors) == d && TicksUploaded(start, run, descriptors) == uploaded
         && Observations(start.dfu, run) == n
  }

  lemma ServesNone(start: Device, descriptors: Descriptors)
    requires start.dfu.Wf()
    ensures Serves(start, [], start, [], 0, descriptors)
  {
  }

  lemma ServesRun(start: Device, ticks: seq<Tick>, d: Device, uploaded: seq<byte>, n: nat, descriptors: Descriptors)
    requires Serves(start, ticks, d, uploaded, n, descriptors)
    ensures TickRun(start, ticks, descriptors) == d && TicksUploaded(start, ticks, descriptors) == uploaded
    ensures Observations(start.dfu, ticks) == n
    ensures SameOutsideRegion(start.dfu.flash.mem, d.dfu.flash.mem)
  {
    FlashConfined(start.dfu, EventsOf(ticks));
  }

  lemma ServesSnoc(start: Device, ticks: seq<Tick>, d: Device, uploaded: seq<byte>, n: nat, t: Tick, e: Device,
                   descriptors: Descriptors)
    requires Serves(start, ticks, d, uploaded, n, descriptors) && d.dfu.Wf() && e == TickStep(d, t, descriptors)
    ensures Serves(start, ticks + [t], e, uploaded + TickAdds(d, InUpload(EventsOf(ticks)), t),
                   n + if e.dfu.state == ManifestWaitReset then 1 else 0, descriptors)
  {
    assert (ticks + [t])[..|ticks|] == ticks;
    ServesRun(start, ticks, d, uploaded, n, descriptors);
    assert TickRun(start, ticks + [t], descriptors) == e;
  }

  // ----- the loop ---------------------------------------------------------------------

  /** `reset_countdown` after `n` observations. */
  function CountdownAt(n: nat): int {
    if n == 0 then 0 else COUNTDOWN + 1 - n
  }

  /** The reset countdown of one iteration. */
  method Observe(resetCountdown: int, ghost n: nat) returns (next: int, resets: bool)
    requires n < COUNTDOWN && resetCountdown == CountdownAt(n)
    ensures resets <==> n + 1 == COUNTDOWN
    ensures next == CountdownAt(n + 1)
  {
    next, resets := resetCountdown, false;
    if next == 0 {
      next := COUNTDOWN;
    } else {
      next := next - 1;
      if next == 1 {
        resets := true;
      }
    }
  }

  /** The poll of one iteration, told in terms of the whole run. */
  method ServeNext(driver: DfuDriver, tick: Tick, ghost start: Device, ghost before: seq<Tick>,
                   ghost uploaded: seq<byte>, ghost n: nat)
      returns (ghost uploaded': seq<byte>, ghost n': nat)
    requires driver.Valid() && driver.usb.Ready() && tick.Deliverable()
    requires Serves(start, before, driver.View(), uploaded, n, driver.descriptors)
    modifies driver, driver.ep0, driver.usb, driver.usb.pma, driver.ep0.reply, driver.dfuBuffer, driver.flash
    ensures driver.Valid() && driver.usb.Ready()
    ensures Serves(start, before + [tick], driver.View(), uploaded', n', driver.descriptors)
    ensures n' == n + if driver.state == ManifestWaitReset then 1 else 0
  {
    ghost var d := driver.View();
    driver.ServeTick(tick);
    ServesSnoc(start, before, d, uploaded, n, tick, driver.View(), driver.descriptors);
    uploaded' := uploaded + TickAdds(d, InUpload(EventsOf(before)), tick);
    n' := n + if driver.state == ManifestWaitReset then 1 else 0;
  }

  /** One iteration: the poll, and the countdown if it observes MANIFEST_WAIT_RESET. */
  method Iterate(driver: DfuDriver, tick: Tick, resetCountdown: int, ghost start: Device, ghost before: seq<Tick>,
                 ghost uploaded: seq<byte>, ghost n: nat)
      returns (next: int, resets: bool, ghost uploaded': seq<byte>, ghost n': nat)
    requires driver.Valid() && driver.usb.Ready() && tick.Deliverable()
    requires Serves(start, before, driver.View(), uploaded, n, driver.descriptors)
    requires n < COUNTDOWN && resetCountdown == CountdownAt(n)
    modifies driver, driver.ep0, driver.usb, driver.usb.pma, driver.ep0.reply, driver.dfuBuffer, driver.flash
    ensures driver.Valid() && driver.usb.Ready()
    ensures Serves(start, before + [tick], driver.View(), uploaded', n', driver.descriptors)
    ensures n' <= COUNTDOWN && next == CountdownAt(n') && (resets <==> n' == COUNTDOWN)
    ensures resets ==> driver.state == ManifestWaitReset
  {
    uploaded', n' := ServeNext(driver, tick, start, before, uploaded, n);
    next, resets := resetCountdown, false;
    if driver.state == ManifestWaitReset {
      next, resets := Observe(resetCountdown, n);
    }
  }

  /**
    The loop over the given ticks. It asks for a reset in exactly the iteration that
    observes MANIFEST_WAIT_RESET for the 50th time; up to there every tick was served
    as the protocol says, and `uploaded` is what the controller sent of the uploads.
   */
  method RunLoop(driver: DfuDriver, ticks: seq<Tick>) returns (resets: bool, served: nat, ghost uploaded: seq<byte>)
    requires driver.Valid() && driver.usb.Ready() && AllDeliverable(ticks)
    modifies driver, driver.ep0, driver.usb, driver.usb.pma, driver.ep0.reply, driver.dfuBuffer, driver.flash
    ensures driver.Valid() && driver.usb.Ready() && served <= |ticks|
    ensures driver.View() == TickRun(old(driver.View()), ticks[..served], driver.descriptors)
    ensures uploaded == TicksUploaded(old(driver.View()), ticks[..served], driver.descriptors)
    ensures SameOutsideRegion(old(driver.flash.mem), driver.flash.mem)
    ensures resets ==> served > 0 && driver.state == ManifestWaitReset
    ensures resets ==> Observations(old(driver.Context()), ticks[..served]) == 50
    ensures !resets ==> served == |ticks| && Observations(old(driver.Context()), ticks) < 50
  {
    ghost var start, n: nat := driver.View(), 0;
    var resetCountdown := 0;
    resets, served, uploaded := false, 0, [];
    ServesNone(start, driver.descriptors);
    while served < |ticks| && !resets
      invariant served <= |ticks| && driver.Valid() && driver.usb.Ready()
      invariant Serves(start, ticks[..served], driver.View(), uploaded, n, driver.descriptors)
      invariant resets ==> served > 0 && driver.state == ManifestWaitReset
      invariant n <= COUNTDOWN && resetCountdown == CountdownAt(n) && (resets <==> n == COUNTDOWN)
      decreases |ticks| - served
    {
      var tick := ticks[served];
      assert ticks[..served + 1] == ticks[..served] + [tick] && tick in ticks;
      resetCountdown, resets, uploaded, n :=
        Iterate(driver, tick, resetCountdown, start, ticks[..served], uploaded, n);
      served := served + 1;
    }
    assert !resets ==> ticks[..served] == ticks;
    ServesRun(start, ticks[..served], driver.View(), uploaded, n, driver.descriptors);
  }

  // ----- loops that go on ---------------------------------------------------------------

  lemma {:induction false} NeverEndsPrefix(ticks: seq<Tick>, n: nat)
    requires n <= |ticks| && NeverEnds(EventsOf(ticks))
    ensures NeverEnds(EventsOf(ticks[..n]))
    decreases |ticks|
  {
    if n < |ticks| {
      var before := ticks[..|ticks| - 1];
      assert forall e :: e in EventsOf(before) ==> e in EventsOf(ticks);
      NeverEndsPrefix(before, n);
      assert before[..n] == ticks[..n];
    } else {
      assert ticks[..n] == ticks;
    }
  }

  /** Without an empty DNLOAD no iteration observes MANIFEST_WAIT_RESET, and the loop goes on. */
  lemma NeverObserved(c: Dfu, ticks: seq<Tick>, n: nat)
    requires c.Wf() && c.state != ManifestSync && c.state != ManifestWaitReset
    requires n <= |ticks| && NeverEnds(EventsOf(ticks))
    ensures Run(c, EventsOf(ticks[..n])).state != ManifestWaitReset
  {
    NeverEndsPrefix(ticks, n);
    NoManifestation(c, EventsOf(ticks[..n]));
  }

  /**
    A download served by the driver, coalesced packets and all: when the loop goes on
    the image is in flash, or the driver is in ERROR with nothing changed outside the
    pages of the image, depending on what the controller granted.
   */
  method ServeDownload(driver: DfuDriver, ticks: seq<Tick>,
                       ghost base: u32, ghost image: seq<byte>, ghost plan: Download.Plan)
    requires driver.Valid() && driver.usb.Ready() && AllDeliverable(ticks)
    requires Download.Ready(driver.Context()) && Download.Fits(base, image) && plan.For(base, image)
    requires Visible(EventsOf(ticks)) == plan.Events(base, image)
    modifies driver, driver.ep0, driver.usb, driver.usb.pma, driver.ep0.reply, driver.dfuBuffer, driver.flash
    ensures driver.Valid() && driver.usb.Ready()
    ensures Download.Downloaded(old(driver.Context()), driver.Context(), base, image)
  {
    ghost var c := driver.Context();
    var resets, served, _ := RunLoop(driver, ticks);
    Download.SessionGoesOn(base, image, plan, EventsOf(ticks));
    NeverObserved(c, ticks, served);
    assert ticks[..|ticks|] == ticks;
    Download.DownloadWritesImage(c, base, image, plan, EventsOf(ticks));
  }

  /**
    A read-back served by the driver: the controller sent the host exactly the flash
    from the pointer on. Status packets may be polled together with the last completion.
   */
  method ServeReadBack(driver: DfuDriver, ticks: seq<Tick>, ghost uploads: seq<BlockRead>)
      returns (ghost uploaded: seq<byte>)
    requires driver.Valid() && driver.usb.Ready() && AllDeliverable(ticks) && Orderly(ticks)
    requires UploadReady(driver.Context()) && InRegion(driver.addressPtr)
    requires ReadBack(driver.View(), uploads, driver.descriptors)
    requires |uploads| == Download.BlockCount(Available(driver.addressPtr)) + 1 && |uploads| + 2 <= 0x1_0000
    requires EventsOf(ticks) == TraceOf(uploads)
    modifies driver, driver.ep0, driver.usb, driver.usb.pma, driver.ep0.reply, driver.dfuBuffer, driver.flash
    ensures driver.Valid() && driver.usb.Ready()
    ensures uploaded == old(driver.flash.mem[Offset(driver.addressPtr)..Offset(APP_FLASH_END) + 1])
    ensures driver.Context() == old(driver.Context()).(state := DfuIdle)
  {
    ghost var d := driver.View();
    var resets, served;
    resets, served, uploaded := RunLoop(driver, ticks);
    TraceNeverEnds(d, uploads, driver.descriptors);
    NeverObserved(d.dfu, ticks, served);
    assert ticks[..|ticks|] == ticks;
    TicksReach(d, ticks, driver.descriptors);
    ghost var r, still := ReadBackGivesRegion(d, uploads, driver.descriptors);
    ReachesRun(d, TraceOf(uploads), r, d.dfu.flash.mem[Offset(d.dfu.pointer)..Offset(APP_FLASH_END) + 1], still,
               driver.descriptors);
  }

  /** Download, ABORT and read-back served by the driver: the controller sent the host its image back. */
  method ServeRoundTrip(driver: DfuDriver, ticks: seq<Tick>, ghost base: u32, ghost image: seq<byte>,
                        ghost plan: Download.Plan, ghost download: seq<Event>, ghost settle: seq<Event>,
                        ghost uploads: seq<BlockRead>)
      returns (ghost uploaded: seq<byte>)
    requires driver.Valid() && driver.usb.Ready() && AllDeliverable(ticks) && Orderly(ticks)
    requires Download.Ready(driver.Context()) && Download.Fits(base, image) && plan.For(base, image)
    requires DownloadsAndReadsBack(driver.View(), base, image, plan, download, settle, uploads, driver.descriptors)
    requires |uploads| + 2 <= 0x1_0000
    requires EventsOf(ticks) == download + [ABORT_EVENT] + settle + TraceOf(uploads)
    modifies driver, driver.ep0, driver.usb, driver.usb.pma, driver.ep0.reply, driver.dfuBuffer, driver.flash
    ensures driver.Valid() && driver.usb.Ready()
    ensures ReadsImage(uploaded, old(driver.flash.mem), base, image,
                       old(driver.flash.View()).Granted(Download.Operations(|image|)))
  {
    ghost var d := driver.View();
    var resets, served;
    resets, served, uploaded := RunLoop(driver, ticks);
    RoundTripNeverEnds(d, base, image, plan, download, settle, uploads, driver.descriptors);
    NeverObserved(d.dfu, ticks, served);
    assert ticks[..|ticks|] == ticks;
    TicksReach(d, ticks, driver.descriptors);
    RoundTrip(d, base, image, plan, download, settle, uploads, driver.descriptors);
    ReachesRun(d, EventsOf(ticks), driver.View(), uploaded, InUpload(EventsOf(ticks)), driver.descriptors);
  }
}
