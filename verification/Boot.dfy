/**
  The boot decision of src/main.c over any number of resets, with the
  write-protection reset in it, and what a torn download leaves to boot.
 */
module Boot {
  import opened Words
  import opened NorFlash
  import opened OptionBytes
  import opened FlashController
  import opened Clock

  const RAM_BASE: u32 := 0x2000_0000
  const ESTACK: u32 := 0x2000_C000
  const APP_ADDRESS: u32 := APP_FLASH_START
  const RESET_VECTOR_LIMIT: u32 := 0x0804_0000
  const DFU_MAGIC_VALUE: u32 := 0x424C

  /** Where a boot ends. The jump and the stop are final; the DFU loop is DfuMode.RunLoop. */
  datatype Outcome = JumpToApp | StopForever | SystemReset | DfuLoop

  function WordAt(mem: seq<byte>, address: u32): u32
    requires |mem| == FLASH_SIZE && FLASH_BASE <= address && Offset(address) + 4 <= FLASH_SIZE
  {
    Le32(mem[Offset(address)..Offset(address) + 4])
  }

  /** The vector table is plausible: stack pointer in RAM, reset vector in flash. */
  predicate VectorsPlausible(mem: seq<byte>)
    requires |mem| == FLASH_SIZE
  {
    && RAM_BASE <= WordAt(mem, APP_ADDRESS) <= ESTACK
    && APP_ADDRESS <= WordAt(mem, APP_ADDRESS + 4) <= RESET_VECTOR_LIMIT
  }

  /** The check of the vector table, in numbers: 48 KB of RAM, and the reset vector from the region start on. */
  lemma PlausibleVectors(mem: seq<byte>)
    requires |mem| == FLASH_SIZE
    ensures VectorsPlausible(mem) <==>
      && 0x2000_0000 <= Le32(mem[0x3000..0x3004]) <= 0x2000_C000
      && 0x0800_3000 <= Le32(mem[0x3004..0x3008]) <= 0x0804_0000
  {
  }

  /** The reset vector a memory starts the application with. */
  function ResetVector(mem: seq<byte>): u32
    requires |mem| == FLASH_SIZE
  {
    WordAt(mem, APP_ADDRESS + 4)
  }

  /** From the region start to the end of the array. */
  predicate InFlash(address: u32) {
    APP_ADDRESS <= address < FLASH_BASE + FLASH_SIZE
  }

  /**
    A plausible reset vector lies in the application's part of flash, up to the last
    byte of the array, exactly when it is not the limit itself, one byte further.
   */
  lemma ResetVectorInFlash(mem: seq<byte>)
    requires |mem| == FLASH_SIZE && VectorsPlausible(mem)
    ensures InFlash(ResetVector(mem)) <==> ResetVector(mem) != RESET_VECTOR_LIMIT
  {
  }

  /** A memory that passes for an application with its reset vector behind the end of flash. */
  lemma VectorBehindFlashAccepted() returns (mem: seq<byte>)
    ensures |mem| == FLASH_SIZE && VectorsPlausible(mem)
    ensures ResetVector(mem) == 0x0804_0000 && !InFlash(ResetVector(mem))
  {
    var o := Offset(APP_ADDRESS);
    mem := Splice(Fill(FLASH_SIZE, 0xFF), o, Bytes32(RAM_BASE) + Bytes32(RESET_VECTOR_LIMIT));
    assert mem[o..o + 4] == Bytes32(RAM_BASE) && mem[o + 4..o + 8] == Bytes32(RESET_VECTOR_LIMIT);
    Le32OfBytes32(RAM_BASE);
    Le32OfBytes32(RESET_VECTOR_LIMIT);
  }

  // ----- the boot as a function ---------------------------------------------------

  /** What survives a reset: flash, option bytes, the magic word. */
  datatype Persistent = Persistent(flash: Flash, ob: seq<OptionByte>, magic: u32) {
    ghost predicate Wf() {
      flash.Wf() && |ob| == OB_COUNT
    }
  }

  datatype BootResult = BootResult(after: Persistent, outcome: Outcome)

  predicate EntersDfu(p: Persistent, f1: bool)
    requires p.Wf()
  {
    f1 || p.magic == DFU_MAGIC_VALUE || !VectorsPlausible(p.flash.mem)
  }

  /** `run_dfu_mode` up to its main loop, given whether the clock came up. */
  ghost function DfuEntry(p: Persistent, clockOk: bool): (r: BootResult)
    requires p.Wf()
    ensures r.after.Wf() && r.after.flash.mem == p.flash.mem
  {
    if !clockOk then BootResult(p, if VectorsPlausible(p.flash.mem) then JumpToApp else StopForever)
    else
      var w := ClearWrp(p.ob, p.flash.faults, p.flash.ops);
      var after := p.(ob := w.ob, flash := p.flash.(ops := p.flash.ops + OpsUsed(p.ob)));
      if w.reset then BootResult(after.(magic := DFU_MAGIC_VALUE), SystemReset) else BootResult(after, DfuLoop)
  }

  ghost function BootOnce(p: Persistent, f1: bool, clockOk: bool): (r: BootResult)
    requires p.Wf()
    ensures r.after.Wf() && r.after.flash.mem == p.flash.mem
  {
    var q := if p.magic == DFU_MAGIC_VALUE then p.(magic := 0) else p;
    if EntersDfu(p, f1) then DfuEntry(q, clockOk) else BootResult(q, JumpToApp)
  }

  /** Some page is write-protected. */
  predicate SomeProtected(ob: seq<OptionByte>)
    requires |ob| == OB_COUNT
  {
    exists i :: 4 <= i <= 7 && ob[i].Value() != 0xFF
  }

  /**
    Where a boot ends and what it leaves. DFU mode is entered for the F1 button, for
    the magic word, and for want of an application, and for nothing else. With a
    working clock it ends in the DFU loop, behind a reset if write protection could
    be lifted; with a dead one, button or not, in the application if there is one.
   */
  lemma BootEnds(p: Persistent, f1: bool, clockOk: bool)
    requires p.Wf()
    ensures var r, app := BootOnce(p, f1, clockOk), VectorsPlausible(p.flash.mem);
      var enters := f1 || p.magic == 0x424C || !app;
      var lifts := SomeProtected(p.ob) && !p.flash.faults(p.flash.ops);
      && (r.outcome == JumpToApp <==> app && (!enters || !clockOk))
      && (r.outcome == StopForever <==> !app && !clockOk)
      && (r.outcome == SystemReset <==> enters && clockOk && lifts)
      && (r.outcome == DfuLoop <==> enters && clockOk && !lifts)
      && r.after.magic == (if r.outcome == SystemReset then 0x424C else if p.magic == 0x424C then 0 else p.magic)
      && r.after.flash.mem == p.flash.mem
  {
    ResetExactlyWhenCleared(p.ob, p.flash.faults, p.flash.ops);
  }

  /** One boot after the other as long as each ends in a reset. */
  ghost function Boots(p: Persistent, buttons: seq<bool>, clocks: seq<bool>): (r: BootResult)
    requires p.Wf() && |buttons| == |clocks| && buttons != []
    ensures r.after.Wf()
    decreases |buttons|
  {
    var first := BootOnce(p, buttons[0], clocks[0]);
    if |buttons| == 1 || first.outcome != SystemReset then first
    else Boots(first.after, buttons[1..], clocks[1..])
  }

  /**
    The boot behind a write-protection reset enters DFU mode whatever the button and
    the application say, never asks for another reset, and with a working clock
    reaches the DFU loop with no page protected.
   */
  lemma ResetLeadsToDfu(p: Persistent, f1: bool, clockOk: bool, f1Next: bool, clockNext: bool)
    requires p.Wf() && BootOnce(p, f1, clockOk).outcome == SystemReset
    ensures var q := BootOnce(p, f1, clockOk).after;
      && WrpClear(q.ob) && EntersDfu(q, f1Next)
      && BootOnce(q, f1Next, clockNext).outcome != SystemReset
      && (clockNext ==> BootOnce(q, f1Next, clockNext).outcome == DfuLoop)
      && BootOnce(q, f1Next, clockNext).after.magic != DFU_MAGIC_VALUE
  {
    ResetExactlyWhenCleared(p.ob, p.flash.faults, p.flash.ops);
  }

  /** F1 held and the clock running, the board is in DFU mode, at once or behind one reset, whatever is in flash. */
  lemma ButtonEntersDfu(p: Persistent, buttons: seq<bool>, clocks: seq<bool>)
    requires p.Wf() && |buttons| == |clocks| == 2 && buttons[0] && clocks[0] && clocks[1]
    ensures BootOnce(p, true, true).outcome in {DfuLoop, SystemReset}
    ensures Boots(p, buttons, clocks).outcome == DfuLoop
  {
    BootEnds(p, true, true);
    if BootOnce(p, true, true).outcome == SystemReset {
      ResetLeadsToDfu(p, true, true, buttons[1], true);
    }
  }

  /** However often the board may reset, two boots settle it, whatever the flash faults. */
  lemma AtMostOneReset(p: Persistent, buttons: seq<bool>, clocks: seq<bool>)
    requires p.Wf() && |buttons| == |clocks| && 2 <= |buttons|
    ensures Boots(p, buttons, clocks).outcome != SystemReset
    ensures Boots(p, buttons, clocks) == Boots(p, buttons[..2], clocks[..2])
  {
    var first := BootOnce(p, buttons[0], clocks[0]);
    if first.outcome == SystemReset {
      ResetLeadsToDfu(p, buttons[0], clocks[0], buttons[1], clocks[1]);
    }
  }

  // ----- torn downloads -------------------------------------------------------------

  /** Memory when the power fails after `k` half-words of `data` went in at the start of the region. */
  function Torn(mem: seq<byte>, data: seq<byte>, k: nat): seq<byte>
    requires |mem| == FLASH_SIZE && 2 * k <= |Padded(data)| <= REGION_SIZE
  {
    Splice(mem, Offset(APP_FLASH_START), Padded(data)[..2 * k])
  }

  /**
    With the first page erased, an interrupted download passes for an application
    exactly when its whole vector table went in and is plausible.
   */
  lemma TornDownload(mem: seq<byte>, data: seq<byte>, k: nat)
    requires |mem| == FLASH_SIZE && 2 * k <= |Padded(data)| <= REGION_SIZE
    requires forall i :: Offset(APP_FLASH_START) <= i < Offset(APP_FLASH_START) + 8 ==> mem[i] == 0xFF
    ensures VectorsPlausible(Torn(mem, data, k))
       <==> 4 <= k && VectorsPlausible(Torn(mem, data, |Padded(data)| / 2))
  {
    var o := Offset(APP_FLASH_START);
    var torn, whole := Torn(mem, data, k), Torn(mem, data, |Padded(data)| / 2);
    if 4 <= k {
      assert torn[o..o + 4] == whole[o..o + 4];
      assert torn[o + 4..o + 8] == whole[o + 4..o + 8];
    } else {
      assert torn[o + 4..o + 8][2] == 0xFF && torn[o + 4..o + 8][3] == 0xFF;
    }
  }

  /** So after a power failure within the vector table the next boot takes the DFU branch. */
  lemma TornDownloadEntersDfu(p: Persistent, data: seq<byte>, k: nat, f1: bool)
    requires p.Wf() && 2 * k <= |Padded(data)| <= REGION_SIZE && k < 4
    requires forall i :: Offset(APP_FLASH_START) <= i < Offset(APP_FLASH_START) + 8 ==> p.flash.mem[i] == 0xFF
    ensures var torn := p.(flash := p.flash.(mem := Torn(p.flash.mem, data, k)));
      EntersDfu(torn, f1) && forall clockOk :: BootOnce(torn, f1, clockOk).outcome != JumpToApp
  {
    TornDownload(p.flash.mem, data, k);
  }

  // ----- src/main.c -----------------------------------------------------------------

  class Board {
    const flash: FlashUnit
    const rcc: Rcc
    var magic: u32

    ghost predicate Valid()
      reads this, flash
    {
      flash.Valid()
    }

    ghost function View(): Persistent
      reads this, flash
    {
      Persistent(flash.View(), flash.ob, magic)
    }

    constructor (flash: FlashUnit, rcc: Rcc, magic: u32)
      requires flash.Valid()
      ensures Valid() && this.flash == flash && this.rcc == rcc && this.magic == magic
    {
      this.flash, this.rcc, this.magic := flash, rcc, magic;
    }

    predicate AppValid()
      requires |flash.mem| == FLASH_SIZE
      reads this, flash
    {
      var sp := WordAt(flash.mem, APP_ADDRESS);
      var reset := WordAt(flash.mem, APP_ADDRESS + 4);
      if sp < RAM_BASE || sp > ESTACK then false
      else if reset < APP_ADDRESS || reset > RESET_VECTOR_LIMIT then false
      else true
    }

    method BootAppOrStop() returns (outcome: Outcome)
      requires Valid()
      ensures outcome == if VectorsPlausible(flash.mem) then JumpToApp else StopForever
    {
      if AppValid() {
        return JumpToApp;
      }
      return StopForever;
    }

    method RunDfuMode() returns (outcome: Outcome, ghost clockOk: bool)
      requires Valid()
      modifies this, flash, rcc
      ensures Valid() && clockOk == BringUp(rcc.bits, old(rcc.pollsMade)).ok
      ensures BootResult(View(), outcome) == DfuEntry(old(View()), clockOk)
    {
      var ok := rcc.ClockInit();
      clockOk := ok;
      if !ok {
        outcome := BootAppOrStop();
        return;
      }
      var reset := flash.DisableWriteProtection();
      if reset {
        magic := DFU_MAGIC_VALUE;
        return SystemReset, clockOk;
      }
      return DfuLoop, clockOk;
    }

    /** One boot, from the button sample to where it ends. */
    method BootBoard(f1: bool) returns (outcome: Outcome, ghost clockOk: bool)
      requires Valid()
      modifies this, flash, rcc
      ensures Valid() && clockOk == BringUp(rcc.bits, old(rcc.pollsMade)).ok
      ensures BootResult(View(), outcome) == BootOnce(old(View()), f1, clockOk)
    {
      var enterDfu := false;
      if f1 {
        enterDfu := true;
      }
      if magic == DFU_MAGIC_VALUE {
        magic := 0;
        enterDfu := true;
      }
      if !AppValid() {
        enterDfu := true;
      }
      if enterDfu {
        outcome, clockOk := RunDfuMode();
      } else {
        var ok := rcc.ClockInit();
        clockOk := ok;
        outcome := JumpToApp;
      }
    }
  }
}
