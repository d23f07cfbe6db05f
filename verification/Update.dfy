/**
  A whole firmware update: the download, the empty DNLOAD and GETSTATUS that end it,
  the countdown and reset of the main loop, and the boot behind the reset.
 */
module Update {
  import opened Words
  import opened NorFlash
  import opened DfuProtocol
  import opened Polling
  import opened Safety
  import opened Session
  import Download
  import opened UsbDfu
  import opened DfuMode
  import opened Boot

  // ----- ticks the DFU context does not see ------------------------------------------

  predicate QuietTick(t: Tick) {
    match t
    case Silent => true
    case Bus(e) => Invisible(e)
    case Coalesced(e) => Invisible(e)
  }

  ghost predicate Quiet(ticks: seq<Tick>) {
    forall t :: t in ticks ==> QuietTick(t)
  }

  lemma QuietStep(c: Dfu, t: Tick)
    requires c.Wf() && QuietTick(t)
    ensures Run(c, t.Events()) == c
  {
    match t
    case Silent =>
    case Bus(e) => RunOne(c, e);
    case Coalesced(e) => RunPair(c, InDone, e);
  }

  /**
    The ticks from `c` lead to the context `d`, with `n` observations made; stated so
    that a proof sees the run only when it names it.
   */
  ghost predicate Observes(c: Dfu, ticks: seq<Tick>, d: Dfu, n: nat) {
    c.Wf() && forall run :: run == ticks ==> Run(c, EventsOf(run)) == d && Observations(c, run) == n
  }

  /** What `n` iterations that find the context `c` observe. */
  function Sees(c: Dfu, n: nat): nat {
    if c.state == ManifestWaitReset then n else 0
  }

  lemma ObservesSnoc(c: Dfu, ticks: seq<Tick>, d: Dfu, n: nat, t: Tick, e: Dfu)
    requires Observes(c, ticks, d, n) && d.Wf() && Run(d, t.Events()) == e
    ensures Observes(c, ticks + [t], e, n + Sees(e, 1))
  {
    assert (ticks + [t])[..|ticks|] == ticks;
    assert EventsOf(ticks + [t]) == EventsOf(ticks) + t.Events();
    RunAppend(c, EventsOf(ticks), t.Events());
    ObservationsSnoc(c, ticks, t);
  }

  lemma QuietSnoc(c: Dfu, ticks: seq<Tick>, d: Dfu, n: nat, t: Tick)
    requires Observes(c, ticks, d, n) && d.Wf() && QuietTick(t)
    ensures Observes(c, ticks + [t], d, n + Sees(d, 1))
  {
    QuietStep(d, t);
    ObservesSnoc(c, ticks, d, n, t, d);
  }

  lemma {:induction false} QuietObserves(c: Dfu, ticks: seq<Tick>, d: Dfu, n: nat, quiet: seq<Tick>)
    requires Observes(c, ticks, d, n) && d.Wf() && Quiet(quiet)
    ensures Observes(c, ticks + quiet, d, n + Sees(d, |quiet|))
    decreases |quiet|
  {
    if quiet == [] {
      assert ticks + quiet == ticks;
    } else {
      var m := |quiet| - 1;
      assert quiet[m] in quiet;
      QuietObserves(c, ticks, d, n, quiet[..m]);
      QuietSnoc(c, ticks + quiet[..m], d, n + Sees(d, m), quiet[m]);
      assert ticks + quiet[..m] + [quiet[m]] == ticks + quiet;
    }
  }

  /** Without an empty DNLOAD nothing is observed. */
  lemma {:induction false} NothingObserved(c: Dfu, ticks: seq<Tick>)
    requires c.Wf() && c.state != ManifestSync && c.state != ManifestWaitReset && NeverEnds(EventsOf(ticks))
    ensures Observes(c, ticks, Run(c, EventsOf(ticks)), 0)
    decreases |ticks|
  {
    if ticks != [] {
      var m := |ticks| - 1;
      NeverEndsPrefix(ticks, m);
      NothingObserved(c, ticks[..m]);
      NoManifestation(c, EventsOf(ticks));
    }
  }

  // ----- the update ---------------------------------------------------------------------

  function EmptyDnload(block: u16): Event {
    ClassSetup(DFU_DNLOAD, block, 0)
  }

  /**
    An update on the bus: a download session, the empty DNLOAD, its status stage, a
    GETSTATUS, and then whatever does not concern the DFU state until the countdown is over.
   */
  datatype Exchange = Exchange(
    session: seq<Tick>, block: u16, acknowledge: seq<Tick>, countdown: seq<Tick>)
  {
    ghost predicate For(base: u32, image: seq<byte>, plan: Download.Plan)
      requires Download.Fits(base, image) && plan.For(base, image)
    {
      && Visible(EventsOf(session)) == plan.Events(base, image)
      && Quiet(acknowledge) && Quiet(countdown) && |countdown| == COUNTDOWN - 1
    }

    function Ticks(): seq<Tick> {
      session + [Bus(EmptyDnload(block))] + acknowledge + [Bus(GETSTATUS_EVENT)] + countdown
    }
  }

  /** The ticks that bring the events one by one. */
  function OneByOne(events: seq<Event>): (ticks: seq<Tick>)
    ensures EventsOf(ticks) == events
    ensures forall t :: t in ticks ==> t.Bus? && t.event in events
  {
    if events == [] then []
    else
      assert events == events[..|events| - 1] + [events[|events| - 1]];
      OneByOne(events[..|events| - 1]) + [Bus(events[|events| - 1])]
  }

  lemma OneByOneDeliverable(events: seq<Event>)
    requires Download.AllOfSession(events)
    ensures AllDeliverable(OneByOne(events))
  {
    forall t | t in OneByOne(events)
      ensures t.Deliverable()
    {
      assert Download.OfSession(t.event);
    }
  }

  lemma TicksDeliverable(x: Exchange)
    requires AllDeliverable(x.session) && AllDeliverable(x.acknowledge) && AllDeliverable(x.countdown)
    ensures AllDeliverable(x.Ticks())
  {
    forall t | t in x.Ticks()
      ensures t.Deliverable()
    {
      assert t in x.session || t in x.acknowledge || t in x.countdown
        || t == Bus(EmptyDnload(x.block)) || t == Bus(GETSTATUS_EVENT);
    }
  }

  /** For every image that fits there is an update. */
  lemma UpdateExists(base: u32, image: seq<byte>) returns (plan: Download.Plan, x: Exchange)
    requires Download.Fits(base, image)
    ensures plan.For(base, image) && x.For(base, image, plan) && AllDeliverable(x.Ticks())
  {
    var events;
    plan, events := Download.SessionExists(base, image);
    x := Exchange(OneByOne(events), 2, [Bus(InDone)], seq(COUNTDOWN - 1, _ => Silent));
    OneByOneDeliverable(events);
    TicksDeliverable(x);
  }

  /** One event observed. */
  lemma EventObserves(c: Dfu, ticks: seq<Tick>, d: Dfu, n: nat, e: Event, r: Dfu)
    requires Observes(c, ticks, d, n) && d.Wf() && Step(d, e) == r
    ensures Observes(c, ticks + [Bus(e)], r, n + Sees(r, 1))
  {
    RunOne(d, e);
    ObservesSnoc(c, ticks, d, n, Bus(e), r);
  }

  /** What the two requests that end an update make of the context. */
  lemma EndSteps(c: Dfu, block: u16)
    requires c.Wf()
    ensures c.state == DnloadIdle ==> Step(c, EmptyDnload(block)) == c.(state := ManifestSync)
    ensures c.state == ManifestSync ==> Step(c, GETSTATUS_EVENT) == c.(state := ManifestWaitReset)
    ensures c.state == DfuError ==> Step(c, EmptyDnload(block)) == c && Step(c, GETSTATUS_EVENT) == c
  {
  }

  /** An update whose operations are granted makes exactly fifty observations, the last one at its last tick. */
  lemma UpdateObserves(c: Dfu, base: u32, image: seq<byte>, plan: Download.Plan, x: Exchange) returns (d: Dfu)
    requires Download.Ready(c) && Download.Fits(base, image) && plan.For(base, image) && x.For(base, image, plan)
    ensures d.flash == Run(c, EventsOf(x.session)).flash
    ensures Download.Downloaded(c, Run(c, EventsOf(x.session)), base, image)
    ensures if c.flash.Granted(Download.Operations(|image|)) then
        Observes(c, x.Ticks(), d, COUNTDOWN) && Observes(c, x.Ticks()[..|x.Ticks()| - 1], d, COUNTDOWN - 1)
      else
        Observes(c, x.Ticks(), d, 0) && d.state == DfuError
  {
    var loaded := Run(c, EventsOf(x.session));
    Download.SessionGoesOn(base, image, plan, EventsOf(x.session));
    Download.DownloadWritesImage(c, base, image, plan, EventsOf(x.session));
    NothingObserved(c, x.session);
    if loaded.state == DfuError {
      d := loaded;
      ErrorObserves(c, x, d);
    } else {
      d := EndObserves(c, x, loaded);
    }
  }

  /** The end of an update, from the downloaded image on. */
  lemma EndObserves(c: Dfu, x: Exchange, loaded: Dfu) returns (d: Dfu)
    requires Observes(c, x.session, loaded, 0) && loaded.Wf() && loaded.state == DnloadIdle
    requires Quiet(x.acknowledge) && Quiet(x.countdown) && |x.countdown| == COUNTDOWN - 1
    ensures Observes(c, x.Ticks(), d, COUNTDOWN)
    ensures Observes(c, x.Ticks()[..|x.Ticks()| - 1], d, COUNTDOWN - 1)
    ensures d.flash == loaded.flash
  {
    var sync, end := loaded.(state := ManifestSync), Bus(EmptyDnload(x.block));
    d := loaded.(state := ManifestWaitReset);
    var ended := x.session + [end] + x.acknowledge;
    EndSteps(loaded, x.block);
    EndSteps(sync, x.block);
    EventObserves(c, x.session, loaded, 0, EmptyDnload(x.block), sync);
    QuietObserves(c, x.session + [end], sync, 0, x.acknowledge);
    EventObserves(c, ended, sync, 0, GETSTATUS_EVENT, d);
    QuietObserves(c, ended + [Bus(GETSTATUS_EVENT)], d, 1, x.countdown);
    QuietObserves(c, ended + [Bus(GETSTATUS_EVENT)], d, 1, x.countdown[..COUNTDOWN - 2]);
    assert x.Ticks()[..|x.Ticks()| - 1] == ended + [Bus(GETSTATUS_EVENT)] + x.countdown[..COUNTDOWN - 2];
  }

  /** From ERROR on the end of an update does nothing. */
  lemma ErrorObserves(c: Dfu, x: Exchange, d: Dfu)
    requires Observes(c, x.session, d, 0) && d.Wf() && d.state == DfuError
    requires Quiet(x.acknowledge) && Quiet(x.countdown)
    ensures Observes(c, x.Ticks(), d, 0)
  {
    var end := Bus(EmptyDnload(x.block));
    var ended := x.session + [end] + x.acknowledge;
    EndSteps(d, x.block);
    EventObserves(c, x.session, d, 0, EmptyDnload(x.block), d);
    QuietObserves(c, x.session + [end], d, 0, x.acknowledge);
    EventObserves(c, ended, d, 0, GETSTATUS_EVENT, d);
    QuietObserves(c, ended + [Bus(GETSTATUS_EVENT)], d, 0, x.countdown);
  }

  /** No part of a run makes more observations than the run. */
  lemma EarlierObserves(c: Dfu, ticks: seq<Tick>, d: Dfu, n: nat, served: nat)
    requires Observes(c, ticks, d, n) && served <= |ticks|
    ensures Observations(c, ticks[..served]) <= n
  {
    ObservationsGrow(c, ticks, served);
    assert Observations(c, ticks) == n;
  }

  /** A run with fifty observations, the last one at its end, is served to its end. */
  lemma ServedToTheEnd(c: Dfu, ticks: seq<Tick>, d: Dfu, served: nat)
    requires ticks != [] && served <= |ticks|
    requires Observes(c, ticks[..|ticks| - 1], d, COUNTDOWN - 1)
    requires Observations(c, ticks[..served]) == COUNTDOWN
    ensures served == |ticks|
  {
    if served < |ticks| {
      assert ticks[..|ticks| - 1][..served] == ticks[..served];
      EarlierObserves(c, ticks[..|ticks| - 1], d, COUNTDOWN - 1, served);
    }
  }

  /** What the loop's result comes to for an update: `served` of its ticks, and then `r`. */
  lemma UpdateOutcome(c: Dfu, base: u32, image: seq<byte>, plan: Download.Plan, x: Exchange,
                      resets: bool, served: nat, r: Dfu)
    requires Download.Ready(c) && Download.Fits(base, image) && plan.For(base, image) && x.For(base, image, plan)
    requires served <= |x.Ticks()| && r == Run(c, EventsOf(x.Ticks()[..served]))
    requires if resets then Observations(c, x.Ticks()[..served]) == COUNTDOWN
             else served == |x.Ticks()| && Observations(c, x.Ticks()) < COUNTDOWN
    ensures resets <==> c.flash.Granted(Download.Operations(|image|))
    ensures r.flash == Run(c, EventsOf(x.session)).flash && (!resets ==> r.state == DfuError)
    ensures Download.Downloaded(c, Run(c, EventsOf(x.session)), base, image)
  {
    var ticks := x.Ticks();
    var d := UpdateObserves(c, base, image, plan, x);
    if c.flash.Granted(Download.Operations(|image|)) {
      assert Observations(c, ticks) == COUNTDOWN;
      ServedToTheEnd(c, ticks, d, served);
    } else {
      EarlierObserves(c, ticks, d, 0, served);
    }
    assert ticks[..served] == ticks;
  }

  /**
    The driver serves an update. It resets exactly when the controller grants every
    operation of the download, and then the image is in flash; otherwise it stays in
    ERROR, and outside the pages of the image nothing changed.
   */
  method Install(driver: DfuDriver, x: Exchange, ghost base: u32, ghost image: seq<byte>,
                 ghost plan: Download.Plan)
      returns (resets: bool)
    requires driver.Valid() && driver.usb.Ready() && AllDeliverable(x.Ticks())
    requires Download.Ready(driver.Context()) && Download.Fits(base, image) && plan.For(base, image)
    requires x.For(base, image, plan)
    modifies driver, driver.ep0, driver.usb, driver.usb.pma, driver.ep0.reply, driver.dfuBuffer, driver.flash
    ensures driver.Valid()
    ensures resets <==> old(driver.flash.View()).Granted(Download.Operations(|image|))
    ensures if resets then
        driver.flash.mem == Download.WithImage(old(driver.flash.mem), base, image)
      else
        driver.state == DfuError && SameOutside(old(driver.flash.mem), driver.flash.mem, Offset(base),
          Offset(base) + Download.PageCount(|image|) * FLASH_PAGE_SIZE)
  {
    ghost var c := driver.Context();
    var served;
    ghost var uploaded;
    resets, served, uploaded := RunLoop(driver, x.Ticks());
    UpdateOutcome(c, base, image, plan, x, resets, served, driver.Context());
  }

  // ----- the boot behind it ---------------------------------------------------------------

  /** The first eight bytes of an image are a plausible vector table. */
  predicate StartsWithVectors(image: seq<byte>) {
    && 8 <= |image|
    && 0x2000_0000 <= Le32(image[..4]) <= 0x2000_C000
    && 0x0800_3000 <= Le32(image[4..8]) <= 0x0804_0000
  }

  /** What was downloaded to the region start passes for an application exactly when it starts with vectors. */
  lemma InstalledIsPlausible(mem: seq<byte>, image: seq<byte>)
    requires |mem| == FLASH_SIZE && Download.Fits(APP_ADDRESS, image)
    ensures VectorsPlausible(Download.WithImage(mem, APP_ADDRESS, image)) <==> StartsWithVectors(image)
  {
    var after, o := Download.WithImage(mem, APP_ADDRESS, image), Offset(APP_ADDRESS);
    Download.WithImageBytes(mem, APP_ADDRESS, image, o + 7);
    if 8 <= |image| {
      assert after[o..o + 4] == image[..4] && after[o + 4..o + 8] == image[4..8];
    } else {
      assert after[o + 4..o + 8][3] == 0xFF;
    }
  }

  /** Without F1 and the magic word a boot ends in the application exactly when it passes for one. */
  lemma PlainBoot(p: Persistent, clockOk: bool)
    requires p.Wf() && p.magic != DFU_MAGIC_VALUE
    ensures BootOnce(p, false, clockOk).outcome == JumpToApp <==> VectorsPlausible(p.flash.mem)
  {
  }

  /**
    A firmware update from the bus to the boot behind it. If the controller grants
    the download, the loop resets and the board then starts the new application
    exactly when the image begins with a plausible vector table. If not, there is no
    reset: the loop goes on.
   */
  method InstallAndBoot(board: Board, driver: DfuDriver, x: Exchange, ghost image: seq<byte>,
                        ghost plan: Download.Plan)
      returns (resets: bool, outcome: Outcome)
    requires board.Valid() && driver.Valid() && board.flash == driver.flash && driver.usb.Ready()
    requires board.magic != DFU_MAGIC_VALUE && AllDeliverable(x.Ticks())
    requires Download.Ready(driver.Context()) && Download.Fits(APP_ADDRESS, image) && plan.For(APP_ADDRESS, image)
    requires x.For(APP_ADDRESS, image, plan)
    modifies board, board.rcc
    modifies driver, driver.ep0, driver.usb, driver.usb.pma, driver.ep0.reply, driver.dfuBuffer, driver.flash
    ensures board.Valid()
    ensures resets <==> old(driver.flash.View()).Granted(Download.Operations(|image|))
    ensures resets ==> board.flash.mem == Download.WithImage(old(driver.flash.mem), APP_ADDRESS, image)
    ensures if resets then outcome == JumpToApp <==> StartsWithVectors(image) else outcome == DfuLoop
  {
    ghost var mem := driver.flash.mem;
    resets := Install(driver, x, APP_ADDRESS, image, plan);
    if !resets {
      return resets, DfuLoop;
    }
    ghost var p := board.View();
    InstalledIsPlausible(mem, image);
    ghost var clockOk;
    outcome, clockOk := board.BootBoard(false);
    PlainBoot(p, clockOk);
  }
}
