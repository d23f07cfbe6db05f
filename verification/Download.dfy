/**
  The download session: erase every page the image covers, set the address, send
  the image in blocks. It ends with the image in flash and nothing else changed, or,
  when the controller refuses an operation, in ERROR with nothing changed elsewhere.
 */
module Download {
  import opened Words
  import opened NorFlash
  import opened DfuProtocol
  import opened Safety
  import opened Session

  /** Idle without an error or a command left over. */
  ghost predicate Ready(c: Dfu) {
    c.Wf() && Idle(c) && c.status == StatusOk && c.pending == 0
  }

  function Command(op: byte, address: u32): seq<byte> {
    [op] + Bytes32(address)
  }

  /** A page-aligned base and an image that fits from there to the end of the region. */
  predicate Fits(base: u32, image: seq<byte>) {
    && base % FLASH_PAGE_SIZE == 0 && APP_FLASH_START <= base
    && 1 <= |image| && base + |image| - 1 <= APP_FLASH_END
  }

  function PageCount(n: nat): nat {
    (n + FLASH_PAGE_SIZE - 1) / FLASH_PAGE_SIZE
  }

  function BlockCount(n: nat): nat {
    (n + DFU_XFER_SIZE - 1) / DFU_XFER_SIZE
  }

  /** The part of the image that block `2 + j` carries. */
  function Slice(image: seq<byte>, j: nat): seq<byte>
    requires j < BlockCount(|image|)
  {
    image[j * DFU_XFER_SIZE..Min((j + 1) * DFU_XFER_SIZE, |image|)]
  }

  predicate ErasesPage(t: Transfer, base: u32, i: nat) {
    && t.Wf() && t.block == 0 && base + i * FLASH_PAGE_SIZE < 0x1_0000_0000
    && t.Payload() == Command(CMD_ERASE_PAGE, base + i * FLASH_PAGE_SIZE)
  }

  predicate SendsBlock(t: Transfer, image: seq<byte>, j: nat) {
    t.Wf() && t.block == 2 + j && j < BlockCount(|image|) && t.Payload() == Slice(image, j)
  }

  predicate ErasesPages(ts: seq<Transfer>, base: u32) {
    forall i :: 0 <= i < |ts| ==> ErasesPage(ts[i], base, i)
  }

  predicate SendsBlocks(ts: seq<Transfer>, image: seq<byte>) {
    forall j :: 0 <= j < |ts| ==> SendsBlock(ts[j], image, j)
  }

  predicate AllWf(ts: seq<Transfer>) {
    forall i :: 0 <= i < |ts| ==> ts[i].Wf()
  }

  function EventsOf(ts: seq<Transfer>): seq<Event>
    requires AllWf(ts)
    decreases |ts|
  {
    if ts == [] then [] else EventsOf(ts[..|ts| - 1]) + ts[|ts| - 1].Events()
  }

  // ----- how a part of the session ends ------------------------------------------

  /** In ERROR, with flash changed between the offsets `lo` and `hi` at most. */
  ghost predicate Failed(c: Dfu, r: Dfu, lo: int, hi: int) {
    r.state == DfuError && r.status != StatusOk && SameOutside(c.flash.mem, r.flash.mem, lo, hi)
  }

  /** Ready for the next transfer, `n` flash operations later, with the given memory and pointer. */
  ghost predicate Continues(c: Dfu, r: Dfu, n: nat, mem: seq<byte>, pointer: u32) {
    Ready(r) && r.flash == c.flash.(mem := mem, ops := c.flash.ops + n) && r.pointer == pointer
  }

  /**
    A part of the session that takes `n` flash operations from `c` to `r` continues
    with `mem` and `pointer` exactly when the controller grants them all, and has
    failed otherwise.
   */
  ghost predicate Ends(c: Dfu, r: Dfu, n: nat, mem: seq<byte>, pointer: u32, lo: int, hi: int) {
    && c.Wf() && r.Wf() && r.flash.faults == c.flash.faults
    && if c.flash.Granted(n) then Continues(c, r, n, mem, pointer) else Failed(c, r, lo, hi)
  }

  /** A part of the session and the next one are a longer part; once in ERROR, the next one does nothing. */
  lemma Chain(c: Dfu, d: Dfu, r: Dfu, n: nat, m: nat, mid: seq<byte>, at: u32,
              mem: seq<byte>, pointer: u32, lo: int, hi: int)
    requires Ends(c, d, n, mid, at, lo, hi) && SameOutside(c.flash.mem, mid, lo, hi)
    requires if d.state == DfuError then r == d else Ends(d, r, m, mem, pointer, lo, hi)
    ensures Ends(c, r, n + m, mem, pointer, lo, hi)
  {
    GrantedSplit(c.flash, n, m);
    if c.flash.Granted(n) {
      assert d.flash.Granted(m) <==> c.flash.(ops := c.flash.ops + n).Granted(m);
    }
  }

  /** No operation, nothing changed. */
  lemma EndsNothing(c: Dfu, lo: int, hi: int)
    requires Ready(c)
    ensures Leads(c, [], c) && Ends(c, c, 0, c.flash.mem, c.pointer, lo, hi)
  {
  }

  /** Less changed is also less than more changed. */
  lemma EndsWider(c: Dfu, r: Dfu, n: nat, mem: seq<byte>, pointer: u32, lo: int, hi: int, lo': int, hi': int)
    requires Ends(c, r, n, mem, pointer, lo, hi) && lo' <= lo && hi <= hi'
    ensures Ends(c, r, n, mem, pointer, lo', hi')
  {
  }

  lemma {:induction false} OutsIgnored(c: Dfu, packets: seq<seq<byte>>)
    requires c.Wf() && c.state != DnloadSync
    ensures Leads(c, Outs(packets), c)
    decreases |packets|
  {
    if packets != [] {
      OutsIgnored(c, packets[..|packets| - 1]);
      LeadsSnoc(c, Outs(packets[..|packets| - 1]), c, Out(packets[|packets| - 1]));
    }
  }

  /** In ERROR a transfer does nothing. */
  lemma TransferInError(c: Dfu, t: Transfer)
    requires c.Wf() && c.state == DfuError && t.Wf()
    ensures Leads(c, t.Events(), c)
  {
    var setup := ClassSetup(DFU_DNLOAD, t.block, |t.Payload()|);
    LeadsOne(c, setup);
    OutsIgnored(c, t.packets);
    LeadsAppend(c, [setup], c, Outs(t.packets), c);
    LeadsSnoc(c, [setup] + Outs(t.packets), c, GETSTATUS_EVENT);
    LeadsSnoc(c, [setup] + Outs(t.packets) + [GETSTATUS_EVENT], c, GETSTATUS_EVENT);
    assert [setup] + Outs(t.packets) + [GETSTATUS_EVENT] + [GETSTATUS_EVENT] == t.Events();
  }

  // ----- the three kinds of transfer ------------------------------------------

  lemma CommandOperand(op: byte, address: u32)
    ensures Command(op, address)[0] == op && Le32(Command(op, address)[1..5]) == address
  {
    assert Command(op, address)[1..5] == Bytes32(address);
    Le32OfBytes32(address);
  }

  lemma EraseTransfer(c: Dfu, t: Transfer, page: u32) returns (r: Dfu)
    requires Ready(c) && t.Wf() && t.block == 0 && t.Payload() == Command(CMD_ERASE_PAGE, page)
    requires AddressValid(page) && page % FLASH_PAGE_SIZE == 0
    ensures 0 <= Offset(page) && Offset(page) + FLASH_PAGE_SIZE <= FLASH_SIZE
    ensures Leads(c, t.Events(), r) && (r.state == DnloadIdle || r.state == DfuError)
    ensures var erased := Splice(c.flash.mem, Offset(page), Fill(FLASH_PAGE_SIZE, 0xFF));
      Ends(c, r, 1, erased, c.pointer, Offset(page), Offset(page) + FLASH_PAGE_SIZE)
  {
    PageStaysInRegion(page);
    TransferExecutesBlock(c, t);
    var loaded := Loaded(c, t.block, t.Payload());
    r := Execute(loaded);
    CommandOperand(CMD_ERASE_PAGE, page);
    assert PageStart(page) == page;
    assert c.flash.Granted(1) <==> !c.flash.faults(c.flash.ops);
    assert r.flash == Erase(c.flash, page).flash;
  }

  lemma SetAddressTransfer(c: Dfu, t: Transfer, address: u32) returns (r: Dfu)
    requires Ready(c) && t.Wf() && t.block == 0 && t.Payload() == Command(CMD_SET_ADDRESS, address)
    ensures Leads(c, t.Events(), r) && r.state == DnloadIdle
    ensures Continues(c, r, 0, c.flash.mem, address)
  {
    TransferExecutesBlock(c, t);
    r := Execute(Loaded(c, t.block, t.Payload()));
    CommandOperand(CMD_SET_ADDRESS, address);
  }

  lemma DataTransfer(c: Dfu, t: Transfer) returns (r: Dfu)
    requires Ready(c) && t.Wf() && 2 <= t.block
    requires var a, n := BlockAddress(c.pointer, t.block), |Padded(t.Payload())|;
      && RangeValid(a, |t.Payload()|) && a % 2 == 0 && Offset(a) + n <= FLASH_SIZE
      && forall i :: Offset(a) <= i < Offset(a) + n ==> c.flash.mem[i] == 0xFF
    ensures Leads(c, t.Events(), r) && (r.state == DnloadIdle || r.state == DfuError)
    ensures var o, n := Offset(BlockAddress(c.pointer, t.block)), |Padded(t.Payload())|;
      Ends(c, r, n / 2, Splice(c.flash.mem, o, t.Payload()), c.pointer, o, o + n)
  {
    TransferExecutesBlock(c, t);
    r := Execute(Loaded(c, t.block, t.Payload()));
    WriteToErased(c.flash, BlockAddress(c.pointer, t.block), t.Payload());
  }

  // ----- the phases -------------------------------------------------------------

  lemma PageOfBase(base: u32, m: nat)
    requires base % FLASH_PAGE_SIZE == 0 && APP_FLASH_START <= base
    requires base + (m + 1) * FLASH_PAGE_SIZE - 1 <= APP_FLASH_END
    ensures AddressValid(base + m * FLASH_PAGE_SIZE)
    ensures (base + m * FLASH_PAGE_SIZE) % FLASH_PAGE_SIZE == 0
  {
  }

  /** Memory with `m` pages erased from `base` on. */
  function Erased(mem: seq<byte>, base: u32, m: nat): seq<byte>
    requires FLASH_BASE <= base && Offset(base) + m * FLASH_PAGE_SIZE <= |mem|
  {
    Splice(mem, Offset(base), Fill(m * FLASH_PAGE_SIZE, 0xFF))
  }

  lemma OneMorePage(mem: seq<byte>, base: u32, m: nat)
    requires FLASH_BASE <= base && Offset(base) + (m + 1) * FLASH_PAGE_SIZE <= |mem|
    ensures Splice(Erased(mem, base, m), Offset(base) + m * FLASH_PAGE_SIZE, Fill(FLASH_PAGE_SIZE, 0xFF))
         == Erased(mem, base, m + 1)
  {
  }

  lemma ErasedFrame(mem: seq<byte>, base: u32, m: nat, pages: nat)
    requires FLASH_BASE <= base && Offset(base) + pages * FLASH_PAGE_SIZE <= |mem| && m <= pages
    ensures SameOutside(mem, Erased(mem, base, m), Offset(base), Offset(base) + pages * FLASH_PAGE_SIZE)
  {
  }

  /** Erasing page `m` of the `pages` pages the session covers, behind those before it. */
  lemma EraseStep(c: Dfu, t: Transfer, mem: seq<byte>, base: u32, m: nat, pages: nat) returns (r: Dfu)
    requires base % FLASH_PAGE_SIZE == 0 && APP_FLASH_START <= base && |mem| == FLASH_SIZE
    requires m < pages && base + pages * FLASH_PAGE_SIZE - 1 <= APP_FLASH_END
    requires Ready(c) && c.flash.mem == Erased(mem, base, m) && ErasesPage(t, base, m)
    ensures Leads(c, t.Events(), r) && (r.state == DnloadIdle || r.state == DfuError)
    ensures Ends(c, r, 1, Erased(mem, base, m + 1), c.pointer,
                 Offset(base), Offset(base) + pages * FLASH_PAGE_SIZE)
  {
    var o := Offset(base) + m * FLASH_PAGE_SIZE;
    PageOfBase(base, m);
    r := EraseTransfer(c, t, base + m * FLASH_PAGE_SIZE);
    OneMorePage(mem, base, m);
    EndsWider(c, r, 1, Erased(mem, base, m + 1), c.pointer, o, o + FLASH_PAGE_SIZE,
              Offset(base), Offset(base) + pages * FLASH_PAGE_SIZE);
  }

  /** Erasing the first `|ts|` of the `pages` pages the session covers. */
  lemma {:induction false} ErasePhase(c: Dfu, ts: seq<Transfer>, base: u32, pages: nat) returns (r: Dfu)
    requires Ready(c) && AllWf(ts) && ErasesPages(ts, base) && |ts| <= pages
    requires base % FLASH_PAGE_SIZE == 0 && APP_FLASH_START <= base
    requires base + pages * FLASH_PAGE_SIZE - 1 <= APP_FLASH_END
    ensures Leads(c, EventsOf(ts), r)
    ensures Ends(c, r, |ts|, Erased(c.flash.mem, base, |ts|), c.pointer,
                 Offset(base), Offset(base) + pages * FLASH_PAGE_SIZE)
    decreases |ts|
  {
    if ts == [] {
      r := c;
      assert Erased(c.flash.mem, base, 0) == c.flash.mem;
      EndsNothing(c, Offset(base), Offset(base) + pages * FLASH_PAGE_SIZE);
    } else {
      var m := |ts| - 1;
      assert ErasesPages(ts[..m], base) && AllWf(ts[..m]) && ErasesPage(ts[m], base, m);
      var d := ErasePhase(c, ts[..m], base, pages);
      r := ErasePhaseStep(c, d, ts[m], base, m, pages);
      LeadsAppend(c, EventsOf(ts[..m]), d, ts[m].Events(), r);
    }
  }

  lemma ErasePhaseStep(c: Dfu, d: Dfu, t: Transfer, base: u32, m: nat, pages: nat) returns (r: Dfu)
    requires base % FLASH_PAGE_SIZE == 0 && APP_FLASH_START <= base
    requires m < pages && base + pages * FLASH_PAGE_SIZE - 1 <= APP_FLASH_END
    requires c.Wf() && ErasesPage(t, base, m)
    requires Ends(c, d, m, Erased(c.flash.mem, base, m), c.pointer,
                  Offset(base), Offset(base) + pages * FLASH_PAGE_SIZE)
    ensures Leads(d, t.Events(), r)
    ensures Ends(c, r, m + 1, Erased(c.flash.mem, base, m + 1), c.pointer,
                 Offset(base), Offset(base) + pages * FLASH_PAGE_SIZE)
  {
    var mem := c.flash.mem;
    if d.state == DfuError {
      r := d;
      TransferInError(d, t);
    } else {
      r := EraseStep(d, t, mem, base, m, pages);
    }
    ErasedFrame(mem, base, m, pages);
    Chain(c, d, r, m, 1, Erased(mem, base, m), c.pointer, Erased(mem, base, m + 1), c.pointer,
          Offset(base), Offset(base) + pages * FLASH_PAGE_SIZE);
  }

  lemma BlockStarts(n: nat, j: nat)
    ensures j < BlockCount(n) <==> j * DFU_XFER_SIZE < n
    ensures n <= PageCount(n) * FLASH_PAGE_SIZE
  {
  }

  /** Where block `2 + j` goes; the sum does not wrap. */
  lemma BlockOffset(base: u32, j: nat)
    requires base + j * DFU_XFER_SIZE <= APP_FLASH_END
    ensures APP_FLASH_START <= base ==> 2 + j < 0x1_0000
    ensures 2 + j < 0x1_0000 ==> BlockAddress(base, 2 + j) == base + j * DFU_XFER_SIZE
  {
  }

  lemma BlockLength(image: seq<byte>, j: nat)
    requires j < BlockCount(|image|)
    ensures 0 < |Slice(image, j)| <= DFU_XFER_SIZE && j * DFU_XFER_SIZE + |Slice(image, j)| <= |image|
    ensures j * DFU_XFER_SIZE + |Padded(Slice(image, j))| <= PageCount(|image|) * FLASH_PAGE_SIZE
  {
    var n, s := |image|, |Slice(image, j)|;
    BlockStarts(n, j);
    assert s == Min((j + 1) * DFU_XFER_SIZE, n) - j * DFU_XFER_SIZE;
    PadFits(512 * j, Slice(image, j), 1024 * PageCount(n));
  }

  /** An odd tail never sticks out of an even range. */
  lemma PadFits(k: nat, data: seq<byte>, m: nat)
    requires 2 * k + |data| <= 2 * m
    ensures 2 * k + |Padded(data)| <= 2 * m
  {
  }

  /** A range inside the region passes the driver's check; even offsets from a page start are even. */
  lemma RangeInside(base: u32, k: nat, n: nat)
    requires base % FLASH_PAGE_SIZE == 0 && APP_FLASH_START <= base
    requires 0 < n && base + 2 * k + n - 1 <= APP_FLASH_END
    ensures RangeValid(base + 2 * k, n) && (base + 2 * k) % 2 == 0
  {
    assert Wrap32(base + 2 * k + n - 1) == base + 2 * k + n - 1;
    assert base == 2 * (1024 * (base / FLASH_PAGE_SIZE));
  }

  lemma BlockRange(base: u32, image: seq<byte>, j: nat)
    requires Fits(base, image) && j < BlockCount(|image|)
    ensures 2 + j < 0x1_0000
    ensures BlockAddress(base, 2 + j) == base + j * DFU_XFER_SIZE
    ensures RangeValid(base + j * DFU_XFER_SIZE, |Slice(image, j)|)
    ensures (base + j * DFU_XFER_SIZE) % 2 == 0
    ensures j * DFU_XFER_SIZE + |Padded(Slice(image, j))| <= PageCount(|image|) * FLASH_PAGE_SIZE
  {
    BlockLength(image, j);
    BlockOffset(base, j);
    RangeInside(base, 512 * j, |Slice(image, j)|);
  }

  lemma SliceAppend(image: seq<byte>, j: nat)
    requires j < BlockCount(|image|)
    ensures image[..j * DFU_XFER_SIZE] + Slice(image, j) == image[..Min((j + 1) * DFU_XFER_SIZE, |image|)]
  {
  }

  /** The covering pages are erased. */
  ghost predicate PagesErased(mem: seq<byte>, base: u32, image: seq<byte>)
    requires Fits(base, image)
  {
    && |mem| == FLASH_SIZE
    && Offset(base) + PageCount(|image|) * FLASH_PAGE_SIZE <= FLASH_SIZE
    && forall i :: Offset(base) <= i < Offset(base) + PageCount(|image|) * FLASH_PAGE_SIZE ==> mem[i] == 0xFF
  }

  lemma ErasePhaseErases(mem: seq<byte>, base: u32, image: seq<byte>)
    requires |mem| == FLASH_SIZE && Fits(base, image)
    ensures base + PageCount(|image|) * FLASH_PAGE_SIZE - 1 <= APP_FLASH_END
    ensures PagesErased(Erased(mem, base, PageCount(|image|)), base, image)
  {
  }

  /** What the phase has written so far. */
  function Written(mem: seq<byte>, base: u32, image: seq<byte>, j: nat): seq<byte>
    requires |mem| == FLASH_SIZE && Fits(base, image)
  {
    Splice(mem, Offset(base), image[..Min(j * DFU_XFER_SIZE, |image|)])
  }

  lemma OneMoreBlock(mem: seq<byte>, base: u32, image: seq<byte>, j: nat)
    requires Fits(base, image) && j < BlockCount(|image|) && PagesErased(mem, base, image)
    ensures var w, o := Written(mem, base, image, j), Offset(base) + j * DFU_XFER_SIZE;
      && o + |Padded(Slice(image, j))| <= FLASH_SIZE
      && Splice(w, o, Slice(image, j)) == Written(mem, base, image, j + 1)
      && forall i :: o <= i < o + |Padded(Slice(image, j))| ==> w[i] == 0xFF
  {
    BlockRange(base, image, j);
    SpliceAppend(mem, Offset(base), image[..j * DFU_XFER_SIZE], Slice(image, j));
    SliceAppend(image, j);
  }

  /** Half-words that `n` bytes take. */
  function HalfWords(n: nat): nat {
    (n + 1) / 2
  }

  /** Bytes of the image in its first `j` blocks. */
  function Sent(image: seq<byte>, j: nat): nat {
    Min(j * DFU_XFER_SIZE, |image|)
  }

  lemma HalfWordsAppend(image: seq<byte>, j: nat)
    requires j < BlockCount(|image|)
    ensures HalfWords(Sent(image, j + 1)) == HalfWords(Sent(image, j)) + |Padded(Slice(image, j))| / 2
  {
    BlockStarts(|image|, j);
    var n := |Slice(image, j)|;
    assert Sent(image, j) == 2 * (512 * j) && Sent(image, j + 1) == 2 * (512 * j) + n;
    HalfWordsSum(512 * j, n);
  }

  lemma HalfWordsSum(k: nat, n: nat)
    ensures HalfWords(2 * k) == k && HalfWords(2 * k + n) == k + HalfWords(n)
  {
  }

  lemma WriteStep(c: Dfu, t: Transfer, mem: seq<byte>, base: u32, image: seq<byte>, j: nat) returns (r: Dfu)
    requires Fits(base, image) && PagesErased(mem, base, image) && SendsBlock(t, image, j)
    requires Ready(c) && c.flash.mem == Written(mem, base, image, j) && c.pointer == base
    ensures Leads(c, t.Events(), r) && (r.state == DnloadIdle || r.state == DfuError)
    ensures Ends(c, r, |Padded(Slice(image, j))| / 2, Written(mem, base, image, j + 1), base,
                 Offset(base), Offset(base) + PageCount(|image|) * FLASH_PAGE_SIZE)
  {
    var o, data := Offset(base) + j * DFU_XFER_SIZE, Slice(image, j);
    BlockRange(base, image, j);
    OneMoreBlock(mem, base, image, j);
    r := DataTransfer(c, t);
    EndsWider(c, r, |Padded(data)| / 2, Splice(c.flash.mem, o, data), base, o, o + |Padded(data)|,
              Offset(base), Offset(base) + PageCount(|image|) * FLASH_PAGE_SIZE);
  }

  lemma WrittenFrame(mem: seq<byte>, base: u32, image: seq<byte>, j: nat)
    requires |mem| == FLASH_SIZE && Fits(base, image)
    ensures SameOutside(mem, Written(mem, base, image, j),
                        Offset(base), Offset(base) + PageCount(|image|) * FLASH_PAGE_SIZE)
  {
    BlockStarts(|image|, 0);
  }

  lemma {:induction false} WritePhase(c: Dfu, ts: seq<Transfer>, base: u32, image: seq<byte>) returns (r: Dfu)
    requires Ready(c) && c.pointer == base && Fits(base, image) && AllWf(ts) && SendsBlocks(ts, image)
    requires PagesErased(c.flash.mem, base, image)
    ensures Leads(c, EventsOf(ts), r) && (ts != [] ==> r.state == DnloadIdle || r.state == DfuError)
    ensures Ends(c, r, HalfWords(Sent(image, |ts|)), Written(c.flash.mem, base, image, |ts|), base,
                 Offset(base), Offset(base) + PageCount(|image|) * FLASH_PAGE_SIZE)
    decreases |ts|
  {
    if ts == [] {
      r := c;
      assert Written(c.flash.mem, base, image, 0) == c.flash.mem;
      EndsNothing(c, Offset(base), Offset(base) + PageCount(|image|) * FLASH_PAGE_SIZE);
    } else {
      var m := |ts| - 1;
      assert SendsBlocks(ts[..m], image) && AllWf(ts[..m]) && SendsBlock(ts[m], image, m);
      var d := WritePhase(c, ts[..m], base, image);
      r := WritePhaseStep(c, d, ts[m], base, image, m);
      LeadsAppend(c, EventsOf(ts[..m]), d, ts[m].Events(), r);
    }
  }

  lemma WritePhaseStep(c: Dfu, d: Dfu, t: Transfer, base: u32, image: seq<byte>, m: nat) returns (r: Dfu)
    requires c.Wf() && Fits(base, image) && PagesErased(c.flash.mem, base, image) && SendsBlock(t, image, m)
    requires Ends(c, d, HalfWords(Sent(image, m)), Written(c.flash.mem, base, image, m), base,
                  Offset(base), Offset(base) + PageCount(|image|) * FLASH_PAGE_SIZE)
    ensures Leads(d, t.Events(), r) && (r.state == DnloadIdle || r.state == DfuError)
    ensures Ends(c, r, HalfWords(Sent(image, m + 1)), Written(c.flash.mem, base, image, m + 1), base,
                 Offset(base), Offset(base) + PageCount(|image|) * FLASH_PAGE_SIZE)
  {
    var mem := c.flash.mem;
    if d.state == DfuError {
      r := d;
      TransferInError(d, t);
    } else {
      r := WriteStep(d, t, mem, base, image, m);
    }
    WrittenFrame(mem, base, image, m);
    HalfWordsAppend(image, m);
    Chain(c, d, r, HalfWords(Sent(image, m)), |Padded(Slice(image, m))| / 2,
          Written(mem, base, image, m), base, Written(mem, base, image, m + 1), base,
          Offset(base), Offset(base) + PageCount(|image|) * FLASH_PAGE_SIZE);
  }

  // ----- the session --------------------------------------------------------------

  datatype Plan = Plan(erases: seq<Transfer>, setAddress: Transfer, blocks: seq<Transfer>) {
    /** The transfers a host makes to download `image` to `base`. */
    predicate For(base: u32, image: seq<byte>) {
      && AllWf(erases) && AllWf(blocks)
      && |erases| == PageCount(|image|) && ErasesPages(erases, base)
      && setAddress.Wf() && setAddress.block == 0 && setAddress.Payload() == Command(CMD_SET_ADDRESS, base)
      && |blocks| == BlockCount(|image|) && SendsBlocks(blocks, image)
    }

    function Events(base: u32, image: seq<byte>): seq<Event>
      requires For(base, image)
    {
      EventsOf(erases) + setAddress.Events() + EventsOf(blocks)
    }
  }

  /** Memory with the covering pages erased and the image in them. */
  function WithImage(mem: seq<byte>, base: u32, image: seq<byte>): seq<byte>
    requires |mem| == FLASH_SIZE && Fits(base, image)
  {
    Splice(Erased(mem, base, PageCount(|image|)), Offset(base), image)
  }

  /** Flash operations the session takes for `n` bytes: one a page, one a half-word. */
  function Operations(n: nat): nat {
    PageCount(n) + HalfWords(n)
  }

  /** How a session ends: with the image in flash if every operation was granted, else in ERROR. */
  ghost predicate Downloaded(c: Dfu, r: Dfu, base: u32, image: seq<byte>)
    requires c.Wf() && Fits(base, image)
  {
    && (r.state == DnloadIdle || r.state == DfuError)
    && Ends(c, r, Operations(|image|), WithImage(c.flash.mem, base, image), base,
            Offset(base), Offset(base) + PageCount(|image|) * FLASH_PAGE_SIZE)
  }

  /** The last two phases, from erased pages on. */
  lemma AddressAndBlocks(c: Dfu, base: u32, image: seq<byte>, plan: Plan) returns (r: Dfu)
    requires Ready(c) && Fits(base, image) && plan.For(base, image) && PagesErased(c.flash.mem, base, image)
    ensures Leads(c, plan.setAddress.Events() + EventsOf(plan.blocks), r)
    ensures r.state == DnloadIdle || r.state == DfuError
    ensures Ends(c, r, HalfWords(|image|), Splice(c.flash.mem, Offset(base), image), base,
                 Offset(base), Offset(base) + PageCount(|image|) * FLASH_PAGE_SIZE)
  {
    var addressed := SetAddressTransfer(c, plan.setAddress, base);
    r := WritePhase(addressed, plan.blocks, base, image);
    LeadsAppend(c, plan.setAddress.Events(), addressed, EventsOf(plan.blocks), r);
    assert image[..|image|] == image;
    assert addressed.flash == c.flash;
  }

  lemma {:induction false} TransfersInError(c: Dfu, ts: seq<Transfer>)
    requires c.Wf() && c.state == DfuError && AllWf(ts)
    ensures Leads(c, EventsOf(ts), c)
    decreases |ts|
  {
    if ts != [] {
      var m := |ts| - 1;
      TransfersInError(c, ts[..m]);
      TransferInError(c, ts[m]);
      LeadsAppend(c, EventsOf(ts[..m]), c, ts[m].Events(), c);
    }
  }

  /** Behind the erase phase, whether it failed or not. */
  lemma RestOfPlan(c: Dfu, d: Dfu, base: u32, image: seq<byte>, plan: Plan) returns (r: Dfu)
    requires c.Wf() && Fits(base, image) && plan.For(base, image)
    requires var pages := PageCount(|image|);
      Ends(c, d, pages, Erased(c.flash.mem, base, pages), c.pointer,
           Offset(base), Offset(base) + pages * FLASH_PAGE_SIZE)
    ensures Leads(d, plan.setAddress.Events() + EventsOf(plan.blocks), r)
    ensures Downloaded(c, r, base, image)
  {
    var mem, pages, lo := c.flash.mem, PageCount(|image|), Offset(base);
    ErasePhaseErases(mem, base, image);
    if d.state == DfuError {
      r := d;
      TransferInError(d, plan.setAddress);
      TransfersInError(d, plan.blocks);
      LeadsAppend(d, plan.setAddress.Events(), d, EventsOf(plan.blocks), d);
    } else {
      r := AddressAndBlocks(d, base, image, plan);
    }
    ErasedFrame(mem, base, pages, pages);
    Chain(c, d, r, pages, HalfWords(|image|), Erased(mem, base, pages), c.pointer,
          WithImage(mem, base, image), base, lo, lo + pages * FLASH_PAGE_SIZE);
  }

  lemma PlanWritesImage(c: Dfu, base: u32, image: seq<byte>, plan: Plan) returns (r: Dfu)
    requires Ready(c) && Fits(base, image) && plan.For(base, image)
    ensures Leads(c, plan.Events(base, image), r) && Downloaded(c, r, base, image)
  {
    ErasePhaseErases(c.flash.mem, base, image);
    var d := ErasePhase(c, plan.erases, base, PageCount(|image|));
    r := RestOfPlan(c, d, base, image, plan);
    LeadsAppend(c, EventsOf(plan.erases), d, plan.setAddress.Events() + EventsOf(plan.blocks), r);
    assert plan.Events(base, image)
      == EventsOf(plan.erases) + (plan.setAddress.Events() + EventsOf(plan.blocks));
  }

  /**
    Any download of an image that fits, in any packet split and with any status
    stages in between, and whatever the controller refuses. It ends in DNLOAD_IDLE
    exactly when every page erase and half-word was granted: then flash holds the
    image, the rest of its pages is erased and every other byte is as it was. Else it
    ends in ERROR, and outside the pages of the image nothing changed.
   */
  lemma DownloadWritesImage(c: Dfu, base: u32, image: seq<byte>, plan: Plan, events: seq<Event>)
    requires Ready(c) && Fits(base, image) && plan.For(base, image)
    requires Visible(events) == plan.Events(base, image)
    ensures Downloaded(c, Run(c, events), base, image)
  {
    OnlyVisibleEventsMatter(c, events);
    var r := PlanWritesImage(c, base, image, plan);
    LeadsTo(c, plan.Events(base, image), r);
  }

  /** The session's memory, byte by byte. */
  lemma WithImageBytes(mem: seq<byte>, base: u32, image: seq<byte>, i: nat)
    requires |mem| == FLASH_SIZE && Fits(base, image) && i < FLASH_SIZE
    ensures var o := Offset(base);
      WithImage(mem, base, image)[i] ==
        if o <= i < o + |image| then image[i - o]
        else if o <= i < o + PageCount(|image|) * FLASH_PAGE_SIZE then 0xFF
        else mem[i]
  {
  }

  // ----- what a session is made of -----------------------------------------------

  /** A DNLOAD with data, its packets, GETSTATUS. */
  predicate OfSession(e: Event) {
    || (e.Out? && 1 <= |e.packet| <= 64) || IsRequest(e, DFU_GETSTATUS)
    || (IsRequest(e, DFU_DNLOAD) && e.setup.wLength > 0)
  }

  ghost predicate AllOfSession(events: seq<Event>) {
    forall e :: e in events ==> OfSession(e)
  }

  ghost predicate NeverUploads(events: seq<Event>) {
    forall e :: e in events ==> !IsRequest(e, DFU_UPLOAD)
  }

  lemma {:induction false} OutsOfSession(packets: seq<seq<byte>>)
    requires PacketSplit(packets)
    ensures AllOfSession(Outs(packets))
    decreases |packets|
  {
    if packets != [] {
      assert packets[|packets| - 1] in packets;
      OutsOfSession(packets[..|packets| - 1]);
    }
  }

  lemma TransferOfSession(t: Transfer)
    requires t.Wf()
    ensures AllOfSession(t.Events())
  {
    OutsOfSession(t.packets);
  }

  lemma {:induction false} TransfersOfSession(ts: seq<Transfer>)
    requires AllWf(ts)
    ensures AllOfSession(EventsOf(ts))
    decreases |ts|
  {
    if ts != [] {
      TransfersOfSession(ts[..|ts| - 1]);
      TransferOfSession(ts[|ts| - 1]);
    }
  }

  lemma {:induction false} VisibleOfSession(events: seq<Event>)
    requires AllOfSession(Visible(events))
    ensures forall e :: e in events ==> OfSession(e) || Invisible(e)
    decreases |events|
  {
    if events != [] {
      var before, e := events[..|events| - 1], events[|events| - 1];
      forall f | f in Visible(before)
        ensures OfSession(f)
      {
        assert f in Visible(events);
      }
      VisibleOfSession(before);
      assert !Invisible(e) ==> e in Visible(events);
      assert events == before + [e];
    }
  }

  lemma {:induction false} AllVisible(events: seq<Event>)
    requires AllOfSession(events)
    ensures Visible(events) == events
    decreases |events|
  {
    if events != [] {
      var before, e := events[..|events| - 1], events[|events| - 1];
      assert e in events && OfSession(e);
      AllVisible(before);
      assert events == before + [e];
    }
  }

  lemma PlanOfSession(base: u32, image: seq<byte>, plan: Plan)
    requires Fits(base, image) && plan.For(base, image)
    ensures AllOfSession(plan.Events(base, image))
  {
    TransfersOfSession(plan.erases);
    TransferOfSession(plan.setAddress);
    TransfersOfSession(plan.blocks);
  }

  /** A download session goes on until the host ends it, and uploads nothing. */
  lemma SessionGoesOn(base: u32, image: seq<byte>, plan: Plan, events: seq<Event>)
    requires Fits(base, image) && plan.For(base, image)
    requires Visible(events) == plan.Events(base, image)
    ensures NeverEnds(events) && NeverUploads(events)
  {
    PlanOfSession(base, image, plan);
    VisibleOfSession(events);
    forall e | e in events
      ensures !EndsDownload(e) && !IsRequest(e, DFU_UPLOAD)
    {
      assert OfSession(e) || Invisible(e);
    }
  }

  // ----- every image has a session --------------------------------------------------

  function Split(payload: seq<byte>): (packets: seq<seq<byte>>)
    ensures PacketSplit(packets) && Flatten(packets) == payload
    decreases |payload|
  {
    if payload == [] then []
    else
      var k := Min(|payload|, 64);
      assert payload[..|payload| - k] + payload[|payload| - k..] == payload;
      Split(payload[..|payload| - k]) + [payload[|payload| - k..]]
  }

  function MakeTransfer(block: u16, payload: seq<byte>): (t: Transfer)
    requires block != 1 && 1 <= |payload| <= DFU_XFER_SIZE
    ensures t.Wf() && t.block == block && t.Payload() == payload
  {
    Transfer(block, Split(payload))
  }

  function MakeErase(base: u32, i: nat): (t: Transfer)
    requires base + i * FLASH_PAGE_SIZE < 0x1_0000_0000
    ensures t.Wf() && ErasesPage(t, base, i)
  {
    MakeTransfer(0, Command(CMD_ERASE_PAGE, base + i * FLASH_PAGE_SIZE))
  }

  function MakeBlock(base: u32, image: seq<byte>, j: nat): (t: Transfer)
    requires Fits(base, image) && j < BlockCount(|image|)
    ensures t.Wf() && SendsBlock(t, image, j)
  {
    BlockRange(base, image, j);
    MakeTransfer(2 + j, Slice(image, j))
  }

  function MakeErases(base: u32, n: nat): (ts: seq<Transfer>)
    requires base + n * FLASH_PAGE_SIZE <= 0x1_0000_0000
    ensures |ts| == n && AllWf(ts) && ErasesPages(ts, base)
  {
    seq(n, i requires 0 <= i < n => MakeErase(base, i))
  }

  function MakeBlocks(base: u32, image: seq<byte>): (ts: seq<Transfer>)
    requires Fits(base, image)
    ensures |ts| == BlockCount(|image|) && AllWf(ts) && SendsBlocks(ts, image)
  {
    seq(BlockCount(|image|), j requires 0 <= j < BlockCount(|image|) => MakeBlock(base, image, j))
  }

  /** For every image that fits there is a session that downloads it. */
  function MakePlan(base: u32, image: seq<byte>): (plan: Plan)
    requires Fits(base, image)
    ensures plan.For(base, image)
  {
    ErasePhaseErases(Fill(FLASH_SIZE, 0xFF), base, image);
    Plan(MakeErases(base, PageCount(|image|)),
         MakeTransfer(0, Command(CMD_SET_ADDRESS, base)),
         MakeBlocks(base, image))
  }

  /** And the bus can bring it just so. */
  lemma SessionExists(base: u32, image: seq<byte>) returns (plan: Plan, events: seq<Event>)
    requires Fits(base, image)
    ensures plan.For(base, image) && Visible(events) == plan.Events(base, image) && AllOfSession(events)
  {
    plan := MakePlan(base, image);
    events := plan.Events(base, image);
    PlanOfSession(base, image, plan);
    AllVisible(events);
  }
}
