/**
  What erasing and programming do to NOR flash, and the flash driver's two
  operations as functions on the memory contents.
 */
module NorFlash {
  import opened Words

  const FLASH_BASE: u32 := 0x0800_0000
  const FLASH_SIZE := 0x4_0000
  const FLASH_PAGE_SIZE := 2048
  const BOOTLOADER_START: u32 := 0x0800_0000
  const BOOTLOADER_END: u32 := 0x0800_2FFF
  const APP_FLASH_START: u32 := 0x0800_3000
  const APP_SETTINGS_RESERVE := FLASH_PAGE_SIZE
  const APP_FLASH_END: u32 := 0x0803_FFFF - APP_SETTINGS_RESERVE
  const REGION_SIZE := APP_FLASH_END - APP_FLASH_START + 1

  /** Longest write for which checking both ends of the range checks all of it. */
  const MAX_WRITE := 0x1_0000_0000 - REGION_SIZE

  /**
    The main flash array. `faults(k)` says whether the controller refuses the
    k-th operation it is asked for (a write-protected page, say); `ops` counts
    the operations so far. Quantifying over `faults` covers every fault pattern.
   */
  datatype Flash = Flash(mem: seq<byte>, ops: nat, faults: nat -> bool) {
    ghost predicate Wf() {
      |mem| == FLASH_SIZE
    }

    /** The controller refuses none of its next `n` operations. */
    ghost predicate Granted(n: nat) {
      forall k :: ops <= k < ops + n ==> !faults(k)
    }
  }

  lemma GrantedSplit(f: Flash, n: nat, m: nat)
    ensures f.Granted(n + m) <==> f.Granted(n) && f.(ops := f.ops + n).Granted(m)
  {
    var g := f.(ops := f.ops + n);
    if f.Granted(n) && g.Granted(m) {
      forall k | f.ops <= k < f.ops + (n + m)
        ensures !f.faults(k)
      {
        assert k >= f.ops + n ==> !g.faults(k);
      }
    }
  }

  datatype FlashResult = FlashResult(ok: bool, flash: Flash)

  predicate InRegion(a: int) {
    APP_FLASH_START <= a <= APP_FLASH_END
  }

  predicate AddressValid(address: u32) {
    InRegion(address)
  }

  /** Offset into the array of a flash address. */
  function Offset(address: u32): int {
    address - FLASH_BASE
  }

  function PageStart(address: u32): (p: u32)
    ensures p <= address < p + FLASH_PAGE_SIZE && p % FLASH_PAGE_SIZE == 0
  {
    address - address % FLASH_PAGE_SIZE
  }

  /** The page of a valid address lies wholly inside the application region. */
  lemma PageStaysInRegion(address: u32)
    requires AddressValid(address)
    ensures APP_FLASH_START <= PageStart(address)
    ensures PageStart(address) + FLASH_PAGE_SIZE - 1 <= APP_FLASH_END
  {
  }

  function Erase(f: Flash, address: u32): (r: FlashResult)
    requires f.Wf()
    ensures r.flash.Wf()
  {
    if !AddressValid(address) then
      FlashResult(false, f)
    else if f.faults(f.ops) then
      FlashResult(false, f.(ops := f.ops + 1))
    else
      PageStaysInRegion(address);
      var page := Splice(f.mem, Offset(PageStart(address)), Fill(FLASH_PAGE_SIZE, 0xFF));
      FlashResult(true, f.(mem := page, ops := f.ops + 1))
  }

  /** `data` padded to whole half-words with the erased value. */
  function Padded(data: seq<byte>): (p: seq<byte>)
    ensures |p| % 2 == 0 && |data| <= |p| <= |data| + 1 && p[..|data|] == data
  {
    if |data| % 2 == 0 then data else data + [0xFF]
  }

  /** The controller refuses to program half-word `i` of `p` at `at + 2 * i`. */
  predicate Refused(f: Flash, at: int, p: seq<byte>, i: nat)
    requires 2 * i + 1 < |p| && 0 <= at && at + |p| <= |f.mem|
  {
    || f.faults(f.ops + i)
    || at % 2 == 1
    || ((f.mem[at + 2 * i] != 0xFF || f.mem[at + 2 * i + 1] != 0xFF)
        && (p[2 * i] != 0 || p[2 * i + 1] != 0))
  }

  /** The first half-word from `i` on that is refused, or the number of half-words. */
  function FirstRefused(f: Flash, at: int, p: seq<byte>, i: nat): (k: nat)
    requires |p| % 2 == 0 && 0 <= at && at + |p| <= |f.mem| && i <= |p| / 2
    ensures i <= k <= |p| / 2
    ensures forall j :: i <= j < k ==> !Refused(f, at, p, j)
    ensures k < |p| / 2 ==> Refused(f, at, p, k)
    decreases |p| / 2 - i
  {
    if i == |p| / 2 || Refused(f, at, p, i) then i else FirstRefused(f, at, p, i + 1)
  }

  /** None of the first `k` half-words is refused. */
  ghost predicate Accepted(f: Flash, at: int, p: seq<byte>, k: nat)
    requires 2 * k <= |p| && 0 <= at && at + |p| <= |f.mem|
  {
    forall j :: 0 <= j < k ==> !Refused(f, at, p, j)
  }

  lemma FirstRefusedUnique(f: Flash, at: int, p: seq<byte>, k: nat)
    requires |p| % 2 == 0 && 0 <= at && at + |p| <= |f.mem| && k <= |p| / 2
    requires Accepted(f, at, p, k)
    requires k < |p| / 2 ==> Refused(f, at, p, k)
    ensures FirstRefused(f, at, p, 0) == k
  {
    var m := FirstRefused(f, at, p, 0);
    assert m < |p| / 2 ==> Refused(f, at, p, m);
    assert k < |p| / 2 ==> Refused(f, at, p, k);
  }

  /** Both ends of the write are valid, in the driver's wrapping arithmetic. */
  predicate RangeValid(address: u32, len: int)
    requires 0 < len
  {
    AddressValid(address) && AddressValid(Wrap32(address + len - 1))
  }

  /**
    Checking only the two ends is sound exactly for lengths up to the region
    size: for anything longer the sum wraps and the range leaves the region.
   */
  lemma EndpointCheckSound(address: u32, len: u32)
    requires 0 < len && RangeValid(address, len)
    ensures (forall a: int :: address <= a < address + len ==> InRegion(a)) <==> len <= REGION_SIZE
    ensures len <= REGION_SIZE <==> len <= MAX_WRITE
    ensures len <= REGION_SIZE ==> address + len - 1 <= APP_FLASH_END
  {
    var last := address as int + len as int - 1;
    if last < 0x1_0000_0000 {
      assert Wrap32(last) == last;
    } else {
      assert Wrap32(last) == last - 0x1_0000_0000;
      assert !InRegion(APP_FLASH_END + 1);
    }
  }

  /** The bytes actually programmed never leave the region, the odd tail included. */
  lemma PaddedStaysInRegion(address: u32, data: seq<byte>)
    requires 0 < |data| <= MAX_WRITE && RangeValid(address, |data|)
    ensures address + |data| - 1 <= APP_FLASH_END
    ensures address % 2 == 0 ==> address + |Padded(data)| - 1 <= APP_FLASH_END
    ensures Offset(address) + |Padded(data)| <= FLASH_SIZE
  {
    EndpointCheckSound(address, |data|);
  }

  /**
    The check of both ends is sound for the write: it is short enough, or refused. Any
    other write runs on through the end of flash into whatever lies behind it.
   */
  predicate CheckSuffices(address: u32, data: seq<byte>) {
    |data| <= MAX_WRITE || !RangeValid(address, |data|)
  }

  function Write(f: Flash, address: u32, data: seq<byte>): (r: FlashResult)
    requires f.Wf() && CheckSuffices(address, data)
    ensures r.flash.Wf()
  {
    if data == [] then
      FlashResult(true, f)
    else if !RangeValid(address, |data|) then
      FlashResult(false, f)
    else
      PaddedStaysInRegion(address, data);
      var p := Padded(data);
      var k := FirstRefused(f, Offset(address), p, 0);
      var ops := f.ops + Min(k + 1, |p| / 2);
      FlashResult(k == |p| / 2, f.(mem := Splice(f.mem, Offset(address), p[..2 * k]), ops := ops))
  }

  /** `a` and `b` agree outside the offsets from `lo` up to `hi`. */
  ghost predicate SameOutside(a: seq<byte>, b: seq<byte>, lo: int, hi: int) {
    |a| == |b| && forall i :: 0 <= i < |a| && !(lo <= i < hi) ==> a[i] == b[i]
  }

  /** `a` and `b` agree outside the application region. */
  ghost predicate SameOutsideRegion(a: seq<byte>, b: seq<byte>) {
    && |a| == |b| == FLASH_SIZE
    && forall i :: 0 <= i < FLASH_SIZE && !(Offset(APP_FLASH_START) <= i <= Offset(APP_FLASH_END)) ==> a[i] == b[i]
  }

  lemma EraseConfined(f: Flash, address: u32)
    requires f.Wf()
    ensures SameOutsideRegion(f.mem, Erase(f, address).flash.mem)
  {
    if AddressValid(address) {
      PageStaysInRegion(address);
    }
  }

  /** At an odd address the very first store is refused, so nothing changes. */
  lemma OddWriteRefused(f: Flash, address: u32, data: seq<byte>)
    requires f.Wf() && data != [] && CheckSuffices(address, data) && address % 2 == 1
    ensures !Write(f, address, data).ok && Write(f, address, data).flash.mem == f.mem
  {
    if RangeValid(address, |data|) {
      PaddedStaysInRegion(address, data);
      FirstRefusedUnique(f, Offset(address), Padded(data), 0);
    }
  }

  lemma WriteConfined(f: Flash, address: u32, data: seq<byte>)
    requires f.Wf() && CheckSuffices(address, data)
    ensures SameOutsideRegion(f.mem, Write(f, address, data).flash.mem)
  {
    if data != [] && RangeValid(address, |data|) {
      if address % 2 == 1 {
        OddWriteRefused(f, address, data);
      } else {
        PaddedStaysInRegion(address, data);
      }
    }
  }

  /**
    On erased cells at an even address a write succeeds exactly when the controller
    grants every half-word, and then leaves exactly the data. Refused or not, nothing
    changes outside the padded range.
   */
  lemma WriteToErased(f: Flash, address: u32, data: seq<byte>)
    requires f.Wf() && 0 < |data| <= MAX_WRITE && RangeValid(address, |data|) && address % 2 == 0
    requires Offset(address) + |Padded(data)| <= |f.mem|
    requires forall i :: Offset(address) <= i < Offset(address) + |Padded(data)| ==> f.mem[i] == 0xFF
    ensures var w, o, n := Write(f, address, data), Offset(address), |Padded(data)| / 2;
      && (w.ok <==> f.Granted(n))
      && (w.ok ==> w.flash == f.(mem := Splice(f.mem, o, data), ops := f.ops + n))
      && w.flash.faults == f.faults && SameOutside(f.mem, w.flash.mem, o, o + |Padded(data)|)
  {
    var o, p := Offset(address), Padded(data);
    var k := FirstRefused(f, o, p, 0);
    assert forall i :: 0 <= i < |p| / 2 ==> (Refused(f, o, p, i) <==> f.faults(f.ops + i));
    if k < |p| / 2 {
      assert f.faults(f.ops + k);
    } else {
      forall j | f.ops <= j < f.ops + |p| / 2
        ensures !f.faults(j)
      {
        assert !Refused(f, o, p, j - f.ops);
      }
      assert p[..2 * k] == p;
      assert Splice(f.mem, o, p) == Splice(f.mem, o, data);
    }
  }

  // ----- the two operations, byte by byte -----------------------------------------

  /** The addresses the driver accepts, as numbers. */
  lemma ValidAddresses(address: u32)
    ensures AddressValid(address) <==> 0x0800_3000 <= address <= 0x0803_F7FF
  {
  }

  /**
    An erase at any valid address, page-aligned or not, succeeds exactly when the
    controller grants it and then erases the 2 KB page around the address and nothing
    else; at any other address it fails and changes nothing.
   */
  lemma ErasesPageAround(f: Flash, address: u32, i: nat)
    requires f.Wf() && i < FLASH_SIZE
    ensures var r, valid := Erase(f, address), 0x0800_3000 <= address <= 0x0803_F7FF;
      && (r.ok <==> valid && !f.faults(f.ops))
      && r.flash.mem[i] == (if r.ok && i / 2048 == (address - 0x0800_0000) / 2048 then 0xFF else f.mem[i])
      && r.flash == f.(mem := r.flash.mem, ops := f.ops + if valid then 1 else 0)
  {
    if AddressValid(address) {
      PageStaysInRegion(address);
      PageOffset(address);
    }
  }

  lemma PageOffset(address: u32)
    requires FLASH_BASE <= address
    ensures Offset(PageStart(address)) == 2048 * ((address - 0x0800_0000) / 2048)
  {
  }

  /** The controller takes half-word `j` of the data: granted, and onto an erased cell unless it is zero. */
  predicate Takes(f: Flash, o: nat, data: seq<byte>, j: nat)
    requires 2 * j < |data| && o + |data| <= |f.mem| && (|data| % 2 == 1 ==> o + |data| < |f.mem|)
  {
    var hi := if 2 * j + 1 < |data| then data[2 * j + 1] else 0xFF;
    && !f.faults(f.ops + j)
    && ((f.mem[o + 2 * j] == 0xFF && f.mem[o + 2 * j + 1] == 0xFF) || (data[2 * j] == 0 && hi == 0))
  }

  /** Half-words before number `k` are all taken. */
  ghost predicate TakesFirst(f: Flash, o: nat, data: seq<byte>, k: nat)
    requires 2 * k <= |data| + 1 && o + |data| <= |f.mem| && (|data| % 2 == 1 ==> o + |data| < |f.mem|)
  {
    forall j :: 0 <= j < k ==> Takes(f, o, data, j)
  }

  /** `after` is `before` with the first `k` half-words of the data at `o`, an odd tail padded. */
  ghost predicate WrittenUpTo(before: seq<byte>, after: seq<byte>, o: nat, data: seq<byte>, k: nat) {
    && |after| == |before|
    && forall i :: 0 <= i < |before| ==> (
         after[i] == if o <= i < o + 2 * k then (if i - o < |data| then data[i - o] else 0xFF) else before[i])
  }

  /** How far a write over anything comes: up to the first half-word the controller does not take. */
  lemma TakenPrefix(f: Flash, o: nat, data: seq<byte>) returns (k: nat)
    requires f.Wf() && o % 2 == 0 && o + |Padded(data)| <= FLASH_SIZE
    ensures k == FirstRefused(f, o, Padded(data), 0) <= (|data| + 1) / 2
    ensures TakesFirst(f, o, data, k) && (k < (|data| + 1) / 2 ==> !Takes(f, o, data, k))
    ensures WrittenUpTo(f.mem, Splice(f.mem, o, Padded(data)[..2 * k]), o, data, k)
  {
    var p := Padded(data);
    k := FirstRefused(f, o, p, 0);
    forall j | 0 <= j < |p| / 2
      ensures Takes(f, o, data, j) <==> !Refused(f, o, p, j)
    {
      TakesUnlessRefused(f, o, data, j);
    }
  }

  /**
    A write over anything, erased or not. At an even address with both ends in the
    region half-word after half-word goes in, an odd tail padded with 0xFF, up to the
    first one the controller does not take; the write succeeds exactly when there is
    none. Where an end lies outside it fails and changes nothing.
   */
  lemma WritesHalfWords(f: Flash, address: u32, data: seq<byte>) returns (k: nat)
    requires f.Wf() && 0 < |data| <= REGION_SIZE && address % 2 == 0
    ensures var r, last := Write(f, address, data), address + |data| - 1;
      if 0x0800_3000 <= address && last <= 0x0803_F7FF then
        var o := address - 0x0800_0000;
        && k <= (|data| + 1) / 2 && TakesFirst(f, o, data, k) && WrittenUpTo(f.mem, r.flash.mem, o, data, k)
        && (r.ok <==> k == (|data| + 1) / 2) && (!r.ok ==> !Takes(f, o, data, k))
      else
        !r.ok && r.flash == f
  {
    k := 0;
    RangeInRegion(address, |data|);
    if RangeValid(address, |data|) {
      PaddedStaysInRegion(address, data);
      k := TakenPrefix(f, Offset(address), data);
    }
  }

  lemma TakesUnlessRefused(f: Flash, o: nat, data: seq<byte>, j: nat)
    requires 2 * j < |data| && o + |Padded(data)| <= |f.mem| && o % 2 == 0
    ensures Takes(f, o, data, j) <==> !Refused(f, o, Padded(data), j)
  {
  }

  /** A range that fits with both ends is one both ends of which pass the check. */
  lemma RangeInRegion(address: u32, len: nat)
    requires 0 < len <= REGION_SIZE
    ensures RangeValid(address, len) <==> 0x0800_3000 <= address && address + len - 1 <= 0x0803_F7FF
  {
    if AddressValid(address) {
      assert Wrap32(address + len - 1) == address + len - 1;
    }
  }

  /** Nothing to write is success. */
  lemma EmptyWrite(f: Flash, address: u32)
    requires f.Wf()
    ensures Write(f, address, []) == FlashResult(true, f)
  {
  }
}
