/**
  The flash controller as the driver sees it (key, control and status registers,
  main array, option bytes) and the driver of src/flash_if.c on top of it.
 */
module FlashController {
  import opened Words
  import opened NorFlash
  import opened OptionBytes

  const FLASH_KEY1: u32 := 0x4567_0123
  const FLASH_KEY2: u32 := 0xCDEF_89AB

  /** The bits of FLASH_CR the driver uses. */
  datatype Control = Control(pg: bool, per: bool, optpg: bool, opter: bool, strt: bool, lock: bool, optwre: bool)

  /** The error and completion bits of FLASH_SR. BSY is clear whenever `flash_wait` returns. */
  datatype FlashStatus = FlashStatus(pgerr: bool, wrprterr: bool, eop: bool) {
    predicate Failed() {
      pgerr || wrprterr
    }
  }

  const NO_ERRORS := FlashStatus(false, false, false)

  /** What FLASH_CR reads between driver calls, OPTWRE aside. */
  predicate Resting(cr: Control) {
    cr.lock && !cr.pg && !cr.per && !cr.optpg && !cr.opter && !cr.strt
  }

  /** The flash after the first `k` half-words of `p` went in at `at`. */
  ghost function Progress(f: Flash, at: nat, p: seq<byte>, k: nat): (g: Flash)
    requires at + |p| <= |f.mem| && 2 * k <= |p|
  {
    f.(mem := Splice(f.mem, at, p[..2 * k]), ops := f.ops + k)
  }

  /** A half-word is refused, or not, whatever the earlier ones did. */
  lemma RefusedBehind(f: Flash, at: nat, p: seq<byte>, k: nat)
    requires at + |p| <= |f.mem| && 2 * k + 1 < |p|
    ensures Refused(Progress(f, at, p, k), at + 2 * k, [p[2 * k], p[2 * k + 1]], 0) <==> Refused(f, at, p, k)
  {
    var g := Progress(f, at, p, k);
    assert g.mem[at + 2 * k] == f.mem[at + 2 * k] && g.mem[at + 2 * k + 1] == f.mem[at + 2 * k + 1];
    assert g.ops + 0 == f.ops + k;
  }

  lemma AcceptedOneMore(f: Flash, at: nat, p: seq<byte>, k: nat)
    requires at + |p| <= |f.mem| && 2 * k + 1 < |p|
    requires Accepted(f, at, p, k) && !Refused(f, at, p, k)
    ensures Accepted(f, at, p, k + 1)
  {
  }

  /** One half-word more. */
  lemma ProgressStep(f: Flash, at: nat, p: seq<byte>, k: nat)
    requires at + |p| <= |f.mem| && 2 * k + 1 < |p|
    ensures Splice(Progress(f, at, p, k).mem, at + 2 * k, [p[2 * k], p[2 * k + 1]]) == Progress(f, at, p, k + 1).mem
  {
    var h := [p[2 * k], p[2 * k + 1]];
    SpliceAppend(f.mem, at, p[..2 * k], h);
    assert p[..2 * k] + h == p[..2 * (k + 1)];
  }

  /** What the driver's write comes to when half-word `k` is the first one refused, or there is none. */
  lemma WriteOutcome(f: Flash, address: u32, data: seq<byte>, k: nat)
    requires f.Wf() && 0 < |data| <= MAX_WRITE && RangeValid(address, |data|)
    requires Offset(address) + |Padded(data)| <= |f.mem| && 2 * k <= |Padded(data)|
    requires Accepted(f, Offset(address), Padded(data), k)
    requires 2 * k < |Padded(data)| ==> Refused(f, Offset(address), Padded(data), k)
    ensures var g, done := Progress(f, Offset(address), Padded(data), k), 2 * k == |Padded(data)|;
      NorFlash.Write(f, address, data) == FlashResult(done, if done then g else g.(ops := g.ops + 1))
  {
    FirstRefusedUnique(f, Offset(address), Padded(data), k);
  }

  class FlashUnit {
    var mem: seq<byte>
    var ob: seq<OptionByte>
    var cr: Control
    var sr: FlashStatus
    var ar: u32
    var keysAccepted: nat
    var optKeysAccepted: nat
    var ops: nat
    const faults: nat -> bool

    ghost predicate Valid()
      reads this
    {
      |mem| == FLASH_SIZE && |ob| == OB_COUNT && Resting(cr) && keysAccepted == 0 && optKeysAccepted == 0
    }

    ghost function View(): (f: Flash)
      reads this
    {
      Flash(mem, ops, faults)
    }

    constructor (mem: seq<byte>, ob: seq<OptionByte>, faults: nat -> bool)
      requires |mem| == FLASH_SIZE && |ob| == OB_COUNT
      ensures Valid() && View() == Flash(mem, 0, faults) && this.ob == ob
    {
      this.mem, this.ob, this.faults := mem, ob, faults;
      cr := Control(false, false, false, false, false, true, false);
      sr := NO_ERRORS;
      ar := 0;
      keysAccepted, optKeysAccepted, ops := 0, 0, 0;
    }

    // ----- hardware -------------------------------------------------------

    /** A write to FLASH_KEYR: the two keys in order clear LOCK. */
    method WriteKeyr(key: u32)
      modifies this`cr, this`keysAccepted
      ensures old(cr.lock) && old(keysAccepted) == 0 && key == FLASH_KEY1 ==> keysAccepted == 1 && cr == old(cr)
      ensures old(cr.lock) && old(keysAccepted) == 1 && key == FLASH_KEY2
          ==> keysAccepted == 0 && cr == old(cr).(lock := false)
    {
      if keysAccepted == 0 && key == FLASH_KEY1 {
        keysAccepted := 1;
      } else if keysAccepted == 1 && key == FLASH_KEY2 {
        keysAccepted := 0;
        cr := cr.(lock := false);
      } else {
        keysAccepted := 2; // locked until the next reset
      }
    }

    /** A write to FLASH_OPTKEYR: the two keys in order set OPTWRE. */
    method WriteOptKeyr(key: u32)
      modifies this`cr, this`optKeysAccepted
      ensures old(optKeysAccepted) == 0 && key == FLASH_KEY1 ==> optKeysAccepted == 1 && cr == old(cr)
      ensures old(optKeysAccepted) == 1 && key == FLASH_KEY2
          ==> optKeysAccepted == 0 && cr == old(cr).(optwre := true)
    {
      if optKeysAccepted == 0 && key == FLASH_KEY1 {
        optKeysAccepted := 1;
      } else if optKeysAccepted == 1 && key == FLASH_KEY2 {
        optKeysAccepted := 0;
        cr := cr.(optwre := true);
      } else {
        optKeysAccepted := 2;
      }
    }

    /** A write to FLASH_CR that leaves STRT clear. Ignored while locked. */
    method WriteCr(v: Control)
      requires !v.strt && !cr.strt
      modifies this`cr
      ensures cr == if old(cr.lock) then old(cr) else v
    {
      if !cr.lock {
        cr := v;
      }
    }

    /** A write that sets STRT while PER is set: the page at FLASH_AR is erased. */
    method StartPageErase()
      requires cr.per && !cr.lock && |mem| == FLASH_SIZE
      requires AddressValid(ar) && ar % FLASH_PAGE_SIZE == 0
      modifies this`mem, this`sr, this`ops
      ensures ops == old(ops) + 1
      ensures faults(old(ops)) ==> mem == old(mem) && sr == old(sr).(wrprterr := true)
      ensures !faults(old(ops)) ==> sr == old(sr).(eop := true)
      ensures !faults(old(ops)) ==> mem == Splice(old(mem), Offset(ar), Fill(FLASH_PAGE_SIZE, 0xFF))
    {
      if faults(ops) {
        sr := sr.(wrprterr := true);
      } else {
        mem := Splice(mem, Offset(ar), Fill(FLASH_PAGE_SIZE, 0xFF));
        sr := sr.(eop := true);
      }
      ops := ops + 1;
    }

    /** A write that sets STRT while OPTER is set: the whole option block is erased. */
    method StartOptionErase()
      requires cr.opter && cr.optwre && !cr.lock
      modifies this`ob, this`ops
      ensures ops == old(ops) + 1
      ensures ob == if faults(old(ops)) then old(ob) else ERASED_BLOCK
    {
      if !faults(ops) {
        ob := ERASED_BLOCK;
      }
      ops := ops + 1;
    }

    /** A write of ones to the error bits of FLASH_SR clears them. */
    method ClearSr()
      modifies this`sr
      ensures sr == NO_ERRORS
    {
      sr := NO_ERRORS;
    }

    /** A half-word store to the main array while PG is set. */
    method StoreHalf(address: u32, lo: byte, hi: byte)
      requires |mem| == FLASH_SIZE && 0 <= Offset(address) < FLASH_SIZE - 1
      requires cr.pg && !cr.lock && !sr.Failed()
      modifies this`mem, this`sr, this`ops
      ensures ops == old(ops) + 1
      ensures sr.Failed() <==> Refused(old(View()), Offset(address), [lo, hi], 0)
      ensures mem == if sr.Failed() then old(mem) else Splice(old(mem), Offset(address), [lo, hi])
    {
      var o := Offset(address);
      if faults(ops) {
        sr := sr.(wrprterr := true);
      } else if address % 2 == 1 || ((mem[o] != 0xFF || mem[o + 1] != 0xFF) && (lo != 0 || hi != 0)) {
        sr := sr.(pgerr := true);
      } else {
        mem := mem[o := lo][o + 1 := hi];
        sr := sr.(eop := true);
      }
      ops := ops + 1;
    }

    /** A half-word store to option byte `i` while OPTPG is set; only its low byte matters. */
    method StoreOption(i: nat, value: byte)
      requires i < |ob| && cr.optpg && cr.optwre && !cr.lock
      modifies this`ob, this`sr, this`ops
      ensures ops == old(ops) + 1
      ensures ob == old(ob)[i := Programmed(old(ob)[i], value, faults(old(ops)))]
    {
      if faults(ops) {
        sr := sr.(wrprterr := true);
      } else if ob[i] != Erased {
        sr := sr.(pgerr := true);
      } else {
        ob := ob[i := Holds(value)];
      }
      ops := ops + 1;
    }

    // ----- src/flash_if.c -------------------------------------------------

    method Unlock()
      requires keysAccepted == 0
      modifies this`cr, this`keysAccepted
      ensures cr == old(cr).(lock := false) && keysAccepted == 0
    {
      if cr.lock {
        WriteKeyr(FLASH_KEY1);
        WriteKeyr(FLASH_KEY2);
      }
    }

    method Lock()
      requires !cr.strt
      modifies this`cr
      ensures cr == old(cr).(lock := true)
    {
      WriteCr(cr.(lock := true));
    }

    function IsAddressValid(address: u32): (valid: bool)
      ensures valid <==> AddressValid(address)
    {
      if address >= BOOTLOADER_START && address <= BOOTLOADER_END then false
      else if address < APP_FLASH_START || address > APP_FLASH_END then false
      else true
    }

    /** Returns true where the C function returns 0. */
    method ErasePage(address: u32) returns (ok: bool)
      requires Valid()
      modifies this
      ensures Valid() && ob == old(ob)
      ensures FlashResult(ok, View()) == Erase(old(View()), address)
    {
      if !IsAddressValid(address) {
        return false;
      }
      Unlock();
      ClearSr();
      WriteCr(cr.(per := true));
      PageStaysInRegion(address);
      ar := PageStart(address);
      StartPageErase();
      WriteCr(cr.(per := false));
      Lock();
      ok := !sr.Failed();
    }

    /** Returns true where the C function returns 0. */
    method Write(address: u32, data: seq<byte>) returns (ok: bool)
      requires Valid() && CheckSuffices(address, data)
      modifies this
      ensures Valid() && ob == old(ob)
      ensures FlashResult(ok, View()) == NorFlash.Write(old(View()), address, data)
    {
      if |data| == 0 {
        return true;
      }
      if !IsAddressValid(address) {
        return false;
      }
      if !IsAddressValid(Wrap32(address + |data| - 1)) {
        return false;
      }
      PaddedStaysInRegion(address, data);
      ghost var f, k := View(), 0;
      Unlock();
      ClearSr();
      WriteCr(cr.(pg := true));
      ok, k := StoreAll(address, data);
      WriteOutcome(f, address, data, k);
    }

    /** The store of half-word `k` of `p`, told in terms of the whole write. */
    method StoreNext(dst: u32, lo: byte, hi: byte, ghost f: Flash, ghost at: nat, ghost p: seq<byte>, ghost k: nat)
      requires at + |p| <= |f.mem| == FLASH_SIZE && 2 * k + 1 < |p|
      requires Offset(dst) == at + 2 * k && lo == p[2 * k] && hi == p[2 * k + 1]
      requires View() == Progress(f, at, p, k) && Accepted(f, at, p, k)
      requires cr.pg && !cr.lock && !sr.Failed()
      modifies this`mem, this`sr, this`ops
      ensures sr.Failed() <==> Refused(f, at, p, k)
      ensures sr.Failed() ==> View() == Progress(f, at, p, k).(ops := f.ops + k + 1)
      ensures !sr.Failed() ==> View() == Progress(f, at, p, k + 1) && Accepted(f, at, p, k + 1)
    {
      ProgressStep(f, at, p, k);
      RefusedBehind(f, at, p, k);
      StoreHalf(dst, lo, hi);
      if !sr.Failed() {
        AcceptedOneMore(f, at, p, k);
      }
    }

    /**
      The programming loop and the two exits of the C function behind it; `k`
      half-words went in.
     */
    method StoreAll(address: u32, data: seq<byte>) returns (ok: bool, ghost k: nat)
      requires View().Wf() && 0 <= Offset(address) && Offset(address) + |Padded(data)| <= FLASH_SIZE
      requires cr.pg && !cr.strt && !cr.lock && !sr.Failed()
      modifies this`mem, this`sr, this`ops, this`cr
      ensures cr == old(cr).(pg := false, lock := true)
      ensures 2 * k <= |Padded(data)| && (ok <==> 2 * k == |Padded(data)|)
      ensures Accepted(old(View()), Offset(address), Padded(data), k)
      ensures !ok ==> Refused(old(View()), Offset(address), Padded(data), k)
      ensures var g := Progress(old(View()), Offset(address), Padded(data), k);
        View() == if ok then g else g.(ops := g.ops + 1)
    {
      ghost var f, o, p := View(), Offset(address), Padded(data);
      var i := 0;
      k := 0;
      while i < |data|
        invariant i == 2 * k <= |p|
        invariant cr == old(cr) && !sr.Failed()
        invariant View() == Progress(f, o, p, k)
        invariant Accepted(f, o, p, k)
      {
        var lo := data[i];
        var hi := if i + 1 < |data| then data[i + 1] else 0xFF;
        StoreNext(address + i, lo, hi, f, o, p, k);
        if sr.Failed() {
          WriteCr(cr.(pg := false));
          Lock();
          return false, k;
        }
        i := i + 2;
        k := k + 1;
      }
      WriteCr(cr.(pg := false));
      Lock();
      ok := true;
    }

    predicate WrpIsClear()
      requires |ob| == OB_COUNT
      reads this
    {
      && ob[WRP0].Value() == 0xFF && ob[WRP1].Value() == 0xFF
      && ob[WRP2].Value() == 0xFF && ob[WRP3].Value() == 0xFF
    }

    /** The write of option `i` behind RDP, told in terms of the whole write-back. */
    method Restore(i: nat, value: byte, ghost was: seq<OptionByte>, ghost base: nat)
      requires |was| == OB_COUNT && USER <= i < OB_COUNT && value == WriteBack(was, i)
      requires ob == WrittenBack(was, faults, base, i) && ops == base + OpOf(i, !ReadProtected(was))
      requires cr.optpg && cr.optwre && !cr.lock
      modifies this`ob, this`sr, this`ops
      ensures ob == WrittenBack(was, faults, base, i + 1) && ops == old(ops) + 1
    {
      WrittenBackStep(was, faults, base, i);
      StoreOption(i, value);
    }

    /** From the unlocking of the option bytes to their programming mode: the block is erased. */
    method OpenOptions()
      requires Valid()
      modifies this`ob, this`cr, this`sr, this`ops, this`keysAccepted, this`optKeysAccepted
      ensures keysAccepted == 0 && optKeysAccepted == 0 && ops == old(ops) + 1
      ensures cr == Control(false, false, true, false, false, false, true)
      ensures ob == WrittenBack(old(ob), faults, old(ops), 0)
    {
      Unlock();
      WriteOptKeyr(FLASH_KEY1);
      WriteOptKeyr(FLASH_KEY2);
      ClearSr();
      WriteCr(cr.(opter := true));
      StartOptionErase();
      WriteCr(cr.(opter := false));
      WriteCr(cr.(optpg := true));
    }

    /** The write-back of the options other than RDP. */
    method RestoreRest(user: byte, data0: byte, data1: byte, ghost was: seq<OptionByte>, ghost base: nat)
      requires |was| == OB_COUNT
      requires user == was[USER].Value() && data0 == was[DATA0].Value() && data1 == was[DATA1].Value()
      requires ob == WrittenBack(was, faults, base, USER) && ops == base + OpOf(USER, !ReadProtected(was))
      requires cr.optpg && cr.optwre && !cr.lock
      modifies this`ob, this`sr, this`ops
      ensures ob == WrittenBack(was, faults, base, OB_COUNT)
      ensures ops == base + OpOf(OB_COUNT, !ReadProtected(was))
    {
      Restore(USER, user, was, base);
      Restore(DATA0, data0, was, base);
      Restore(DATA1, data1, was, base);
      Restore(WRP0, OB_WRP_NONE, was, base);
      Restore(WRP1, OB_WRP_NONE, was, base);
      Restore(WRP2, OB_WRP_NONE, was, base);
      Restore(WRP3, OB_WRP_NONE, was, base);
    }

    /** Returns true where the C function returns 1: the caller must reset. */
    method DisableWriteProtection() returns (reset: bool)
      requires Valid()
      modifies this`ob, this`cr, this`sr, this`ops, this`keysAccepted, this`optKeysAccepted
      ensures Valid() && ops == old(ops) + OpsUsed(old(ob))
      ensures Reprogram(ob, reset) == ClearWrp(old(ob), faults, old(ops))
    {
      if WrpIsClear() {
        return false;
      }
      var rdp := ob[RDP].Value();
      var user := ob[USER].Value();
      var data0 := ob[DATA0].Value();
      var data1 := ob[DATA1].Value();
      ghost var was, base := ob, ops;

      OpenOptions();
      if rdp == OB_RDP_UNLOCK {
        WrittenBackStep(was, faults, base, RDP);
        StoreOption(RDP, OB_RDP_UNLOCK);
      }
      assert ob == WrittenBack(was, faults, base, USER);
      RestoreRest(user, data0, data1, was, base);
      WriteCr(cr.(optpg := false));
      Lock();
      reset := WrpIsClear();
    }
  }
}
