/**
  Option bytes: each is a half-word holding a value and its complement. The
  write-protection reset as a function on the option block, and what it keeps.
 */
module OptionBytes {
  import opened Words

  const OB_COUNT := 8
  const RDP := 0
  const USER := 1
  const DATA0 := 2
  const DATA1 := 3
  const WRP0 := 4
  const WRP1 := 5
  const WRP2 := 6
  const WRP3 := 7

  const OB_RDP_UNLOCK: byte := 0xA5
  const OB_WRP_NONE: byte := 0xFF

  /** A half-word of the option block; programming adds the complement of the value. */
  datatype OptionByte = Erased | Holds(value: byte) {
    /** The low byte it reads as. */
    function Value(): byte {
      if Erased? then 0xFF else value
    }
  }

  const ERASED_BLOCK: seq<OptionByte> := [Erased, Erased, Erased, Erased, Erased, Erased, Erased, Erased]

  /** Programming takes unless there is a fault or the half-word is not erased. */
  function Programmed(half: OptionByte, value: byte, fault: bool): OptionByte {
    if fault || half != Erased then half else Holds(value)
  }

  predicate WrpClear(ob: seq<OptionByte>)
    requires |ob| == OB_COUNT
  {
    forall i :: WRP0 <= i <= WRP3 ==> ob[i].Value() == 0xFF
  }

  /** Read protection is off exactly when RDP holds the unlock code. */
  predicate ReadProtected(ob: seq<OptionByte>)
    requires |ob| == OB_COUNT
  {
    ob[RDP].Value() != OB_RDP_UNLOCK
  }

  /** Number of the controller operation that programs option `i`, counted from the erase. */
  function OpOf(i: nat, unlocked: bool): nat {
    if i == RDP then 1 else i + if unlocked then 1 else 0
  }

  /** Controller operations the write-protection reset takes. */
  function OpsUsed(ob: seq<OptionByte>): nat
    requires |ob| == OB_COUNT
  {
    if WrpClear(ob) then 0 else OpOf(OB_COUNT, !ReadProtected(ob))
  }

  /** The value written back to option `i` of the snapshot `ob`. */
  function WriteBack(ob: seq<OptionByte>, i: nat): byte
    requires |ob| == OB_COUNT && i < OB_COUNT
  {
    if i < WRP0 then ob[i].Value() else OB_WRP_NONE
  }

  /** Option `i` once the block was erased. */
  function Blank(ob: seq<OptionByte>, faults: nat -> bool, base: nat, i: nat): OptionByte
    requires |ob| == OB_COUNT && i < OB_COUNT
  {
    if faults(base) then ob[i] else Erased
  }

  /** Option `i` once it was written back from the snapshot `ob`; a locked RDP stays erased. */
  function Restored(ob: seq<OptionByte>, faults: nat -> bool, base: nat, i: nat): OptionByte
    requires |ob| == OB_COUNT && i < OB_COUNT
  {
    var unlocked := !ReadProtected(ob);
    if i == RDP && !unlocked then Blank(ob, faults, base, i)
    else Programmed(Blank(ob, faults, base, i), WriteBack(ob, i), faults(base + OpOf(i, unlocked)))
  }

  /** The erased option block with its first `n` options written back. */
  function WrittenBack(ob: seq<OptionByte>, faults: nat -> bool, base: nat, n: nat): (r: seq<OptionByte>)
    requires |ob| == OB_COUNT
    ensures |r| == OB_COUNT
    ensures forall i :: 0 <= i < OB_COUNT ==>
      r[i] == if i < n then Restored(ob, faults, base, i) else Blank(ob, faults, base, i)
  {
    seq(OB_COUNT, i requires 0 <= i < OB_COUNT =>
      if i < n then Restored(ob, faults, base, i) else Blank(ob, faults, base, i))
  }

  lemma WrittenBackStep(ob: seq<OptionByte>, faults: nat -> bool, base: nat, n: nat)
    requires |ob| == OB_COUNT && n < OB_COUNT
    ensures WrittenBack(ob, faults, base, n + 1) == WrittenBack(ob, faults, base, n)[n := Restored(ob, faults, base, n)]
  {
  }

  datatype Reprogram = Reprogram(ob: seq<OptionByte>, reset: bool)

  /** The write-protection reset; `reset` is the request to reboot. */
  function ClearWrp(ob: seq<OptionByte>, faults: nat -> bool, base: nat): (r: Reprogram)
    requires |ob| == OB_COUNT
    ensures |r.ob| == OB_COUNT
  {
    if WrpClear(ob) then
      Reprogram(ob, false)
    else
      var after := WrittenBack(ob, faults, base, OB_COUNT);
      Reprogram(after, WrpClear(after))
  }

  /**
    A reboot is asked for exactly when some page was protected and the erase took,
    and then no page is protected any more. Without a reboot no value changed.
   */
  lemma ResetExactlyWhenCleared(ob: seq<OptionByte>, faults: nat -> bool, base: nat)
    requires |ob| == OB_COUNT
    ensures ClearWrp(ob, faults, base).reset <==> !WrpClear(ob) && !faults(base)
    ensures ClearWrp(ob, faults, base).reset ==> WrpClear(ClearWrp(ob, faults, base).ob)
    ensures !ClearWrp(ob, faults, base).reset
        ==> forall i :: 0 <= i < OB_COUNT ==> ClearWrp(ob, faults, base).ob[i].Value() == ob[i].Value()
  {
    var after := WrittenBack(ob, faults, base, OB_COUNT);
    if !WrpClear(ob) {
      var p :| WRP0 <= p <= WRP3 && ob[p].Value() != 0xFF;
      assert faults(base) ==> after[p].Value() != 0xFF;
    }
  }

  /** No outcome of the faults ever lifts read protection, which would mass-erase the part. */
  lemma NeverLiftsReadProtection(ob: seq<OptionByte>, faults: nat -> bool, base: nat)
    requires |ob| == OB_COUNT
    ensures ClearWrp(ob, faults, base).ob[0].Value() == 0xA5 ==> ob[0].Value() == 0xA5
  {
  }

  /**
    What a reboot request keeps. The return value only looks at WRP, so the other
    options survive exactly when their own write took (or had nothing to write).
   */
  lemma ResetKeepsOptions(ob: seq<OptionByte>, faults: nat -> bool, base: nat)
    requires |ob| == OB_COUNT && ClearWrp(ob, faults, base).reset
    ensures var r := ClearWrp(ob, faults, base).ob[0].Value();
      && (r == 0xA5 <==> ob[0].Value() == 0xA5 && !faults(base + 1)) && (r != 0xA5 ==> r == 0xFF)
    ensures forall i :: USER <= i <= DATA1 ==>
      (ClearWrp(ob, faults, base).ob[i].Value() == ob[i].Value()
      <==>
      ob[i].Value() == 0xFF || !faults(base + OpOf(i, !ReadProtected(ob))))
  {
    ResetExactlyWhenCleared(ob, faults, base);
  }

  /** When all the programming succeeds, only the WRP values change. */
  lemma FaultFreeReset(ob: seq<OptionByte>, faults: nat -> bool, base: nat)
    requires |ob| == OB_COUNT && !WrpClear(ob) && forall k: nat :: !faults(k)
    ensures ClearWrp(ob, faults, base).reset && WrpClear(ClearWrp(ob, faults, base).ob)
    ensures forall i :: USER <= i <= DATA1 ==> ClearWrp(ob, faults, base).ob[i].Value() == ob[i].Value()
    ensures ReadProtected(ClearWrp(ob, faults, base).ob) == ReadProtected(ob)
  {
    ResetExactlyWhenCleared(ob, faults, base);
    ResetKeepsOptions(ob, faults, base);
  }
}
