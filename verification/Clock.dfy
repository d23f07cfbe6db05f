/**
  Clock bring-up of src/main.c: three bounded waits on ready bits, and one way back
  to the internal oscillator.
 */
module Clock {

  const RCC_TIMEOUT := 200000
  const SW_PLL: bv32 := 0x02
  const PLLSRC_HSE: bv32 := 0x0001_0000
  const PLLMULL9: bv32 := 0x001C_0000
  const PPRE1_DIV2: bv32 := 0x0400

  /** What one read of the clock registers shows of the hardware. */
  datatype ReadyBits = ReadyBits(hse: bool, pll: bool, pllSelected: bool)

  datatype Flag = HseReady | PllReady | PllSelected

  predicate Shows(bits: ReadyBits, flag: Flag) {
    match flag
    case HseReady => bits.hse
    case PllReady => bits.pll
    case PllSelected => bits.pllSelected
  }

  /** The first read from `i` on that shows the flag, or `limit`. */
  function FirstRead(bits: nat -> ReadyBits, flag: Flag, i: nat, limit: nat): (k: nat)
    requires i <= limit
    ensures i <= k <= limit
    ensures forall j :: i <= j < k ==> !Shows(bits(j), flag)
    ensures k < limit ==> Shows(bits(k), flag)
    decreases limit - i
  {
    if i == limit || Shows(bits(i), flag) then i else FirstRead(bits, flag, i + 1, limit)
  }

  /** Reads made when a wait that starts with read `i` ends, and whether it succeeded. */
  datatype WaitResult = WaitResult(ok: bool, polls: nat)

  function Wait(bits: nat -> ReadyBits, flag: Flag, i: nat): (r: WaitResult)
    ensures i < r.polls <= i + RCC_TIMEOUT
    ensures r.ok <==> exists j :: i <= j < i + RCC_TIMEOUT && Shows(bits(j), flag)
  {
    var k := FirstRead(bits, flag, i, i + RCC_TIMEOUT);
    if k < i + RCC_TIMEOUT then WaitResult(true, k + 1) else WaitResult(false, k)
  }

  /** The three waits one behind the other. */
  function BringUp(bits: nat -> ReadyBits, i: nat): (r: WaitResult)
    ensures i < r.polls <= i + 3 * RCC_TIMEOUT
    ensures r.ok ==> exists j :: i <= j < r.polls && bits(j).pllSelected
  {
    var hse := Wait(bits, HseReady, i);
    if !hse.ok then hse
    else
      var pll := Wait(bits, PllReady, hse.polls);
      if !pll.ok then pll else Wait(bits, PllSelected, pll.polls)
  }

  /** The flag shows in one of the 200000 reads from `i` on. */
  ghost predicate ShowsWithin(bits: nat -> ReadyBits, flag: Flag, i: nat) {
    exists j :: i <= j < i + 200000 && Shows(bits(j), flag)
  }

  /** Read `j` is the first of those from `i` on that shows the flag, and in time. */
  ghost predicate FirstSeen(bits: nat -> ReadyBits, flag: Flag, i: nat, j: nat) {
    i <= j < i + 200000 && Shows(bits(j), flag) && forall k :: i <= k < j ==> !Shows(bits(k), flag)
  }

  /** A wait ends behind the first read that shows the flag, or after 200000 of them. */
  lemma WaitSees(bits: nat -> ReadyBits, flag: Flag, i: nat)
    ensures var w := Wait(bits, flag, i);
      && (w.ok <==> ShowsWithin(bits, flag, i))
      && if w.ok then FirstSeen(bits, flag, i, w.polls - 1) else w.polls == i + 200000
  {
  }

  /** Reads `hse`, `pll` and `selected` are the ones the three waits end with, one behind the other. */
  ghost predicate SeenInOrder(bits: nat -> ReadyBits, i: nat, hse: nat, pll: nat, selected: nat) {
    && FirstSeen(bits, HseReady, i, hse) && FirstSeen(bits, PllReady, hse + 1, pll)
    && FirstSeen(bits, PllSelected, pll + 1, selected)
    && bits(hse).hse && bits(pll).pll && bits(selected).pllSelected
  }

  lemma WaitEnds(bits: nat -> ReadyBits, flag: Flag, i: nat) returns (j: nat)
    requires Wait(bits, flag, i).ok
    ensures FirstSeen(bits, flag, i, j) && Wait(bits, flag, i) == WaitResult(true, j + 1)
  {
    WaitSees(bits, flag, i);
    j := Wait(bits, flag, i).polls - 1;
  }

  lemma FirstSeenUnique(bits: nat -> ReadyBits, flag: Flag, i: nat, j: nat, k: nat)
    requires FirstSeen(bits, flag, i, j) && FirstSeen(bits, flag, i, k)
    ensures j == k
  {
    assert j < k ==> !Shows(bits(j), flag);
  }

  lemma WaitEndsAt(bits: nat -> ReadyBits, flag: Flag, i: nat, j: nat)
    requires FirstSeen(bits, flag, i, j)
    ensures Wait(bits, flag, i) == WaitResult(true, j + 1)
  {
    WaitSees(bits, flag, i);
    var k := WaitEnds(bits, flag, i);
    FirstSeenUnique(bits, flag, i, j, k);
  }

  /** When the clock comes up, crystal, PLL and selection were seen in this order. */
  lemma UpSeesInOrder(bits: nat -> ReadyBits, i: nat) returns (hse: nat, pll: nat, selected: nat)
    requires BringUp(bits, i).ok
    ensures SeenInOrder(bits, i, hse, pll, selected) && BringUp(bits, i).polls == selected + 1
  {
    hse := WaitEnds(bits, HseReady, i);
    pll := WaitEnds(bits, PllReady, hse + 1);
    selected := WaitEnds(bits, PllSelected, pll + 1);
  }

  lemma InOrderComesUp(bits: nat -> ReadyBits, i: nat, hse: nat, pll: nat, selected: nat)
    requires SeenInOrder(bits, i, hse, pll, selected)
    ensures BringUp(bits, i).ok
  {
    WaitEndsAt(bits, HseReady, i, hse);
    WaitEndsAt(bits, PllReady, hse + 1, pll);
    WaitEndsAt(bits, PllSelected, pll + 1, selected);
  }

  /** The clock comes up exactly when the three flags can be seen in this order, each in time. */
  lemma UpExactlyInOrder(bits: nat -> ReadyBits, i: nat)
    ensures BringUp(bits, i).ok
      <==> exists hse: nat, pll: nat, selected: nat :: SeenInOrder(bits, i, hse, pll, selected)
  {
    if BringUp(bits, i).ok {
      var hse, pll, selected := UpSeesInOrder(bits, i);
    } else {
      forall hse: nat, pll: nat, selected: nat
        ensures !SeenInOrder(bits, i, hse, pll, selected)
      {
        if SeenInOrder(bits, i, hse, pll, selected) {
          InOrderComesUp(bits, i, hse, pll, selected);
        }
      }
    }
  }

  class Rcc {
    var hseOn: bool
    var pllOn: bool
    var cfgr: bv32
    var acr: bv32
    var pollsMade: nat
    const bits: nat -> ReadyBits

    /** The registers after a reset. */
    constructor (bits: nat -> ReadyBits)
      ensures !hseOn && !pllOn && cfgr == 0 && pollsMade == 0 && this.bits == bits
    {
      hseOn, pllOn, cfgr, acr, pollsMade := false, false, 0, 0x30, 0;
      this.bits := bits;
    }

    method RccWait(flag: Flag) returns (ok: bool)
      modifies `pollsMade
      ensures WaitResult(ok, pollsMade) == Wait(bits, flag, old(pollsMade))
    {
      ghost var start := pollsMade;
      var i := 0;
      while i < RCC_TIMEOUT
        invariant 0 <= i <= RCC_TIMEOUT && pollsMade == start + i
        invariant FirstRead(bits, flag, start, start + RCC_TIMEOUT) >= start + i
      {
        var now := bits(pollsMade);
        pollsMade := pollsMade + 1;
        if Shows(now, flag) {
          return true;
        }
        i := i + 1;
      }
      return false;
    }

    method ClockFallbackHsi()
      modifies `hseOn, `pllOn, `cfgr, `acr
      ensures !hseOn && !pllOn && cfgr == 0 && acr == 0x30
    {
      cfgr := 0;
      pllOn, hseOn := false, false;
      acr := 0x30;
    }

    /**
      Ends within three timeouts whatever the ready bits do. On failure the settings
      the application inherits are the same whichever wait failed; on success the PLL
      is running, selected, and was seen to be.
     */
    method ClockInit() returns (ok: bool)
      modifies this
      ensures WaitResult(ok, pollsMade) == BringUp(bits, old(pollsMade))
      ensures !ok ==> !hseOn && !pllOn && cfgr == 0 && acr == 0x30
      ensures ok ==> hseOn && pllOn && cfgr == 0x001D_0402 && acr == 0x32
    {
      acr := 0x32;
      hseOn := true;
      ok := RccWait(HseReady);
      if !ok {
        ClockFallbackHsi();
        return;
      }
      cfgr := PLLSRC_HSE | PLLMULL9 | PPRE1_DIV2;
      pllOn := true;
      ok := RccWait(PllReady);
      if !ok {
        ClockFallbackHsi();
        return;
      }
      cfgr := cfgr | SW_PLL;
      ok := RccWait(PllSelected);
      if !ok {
        ClockFallbackHsi();
      }
    }
  }
}
