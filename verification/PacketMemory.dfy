/**
  The USB packet memory: 16-bit words in 32-bit slots, of which the processor
  sees every other half-word. Half-word `o` of the array below is the word the
  USB side calls offset `o`, for even `o`; the odd ones are the gaps.
 */
module PacketMemory {
  import opened Words

  const PMA_SLOTS := 512
  const BTABLE_OFFSET := 0x00
  const EP0_TX_OFFSET := 0x40
  const EP0_RX_OFFSET := 0x80
  const EP0_MAX_SIZE := 64
  const ADDR_TX := BTABLE_OFFSET + 0
  const COUNT_TX := BTABLE_OFFSET + 2
  const ADDR_RX := BTABLE_OFFSET + 4
  const COUNT_RX := BTABLE_OFFSET + 6

  /** Byte `i` of the packet buffer at `offset`. */
  function ByteAt(pma: seq<u16>, offset: nat, i: nat): byte
    requires offset + i < |pma|
  {
    if i % 2 == 0 then pma[offset + i] % 0x100 else pma[offset + i - 1] / 0x100
  }

  /** The first `n` bytes of the packet buffer at `offset`. */
  function Packet(pma: seq<u16>, offset: nat, n: nat): (p: seq<byte>)
    requires offset + n <= |pma|
    ensures |p| == n
    ensures forall i :: 0 <= i < n ==> p[i] == ByteAt(pma, offset, i)
  {
    seq(n, i requires 0 <= i < n => ByteAt(pma, offset, i))
  }

  /** A packet lies in its words two bytes at a time, the first one in the low half. */
  lemma WordsOfPacket(pma: seq<u16>, offset: nat, n: nat, j: nat)
    requires offset + n <= |pma| && 2 * j + 1 < n
    ensures var p := Packet(pma, offset, n);
      pma[offset + 2 * j] == p[2 * j] as int + 0x100 * p[2 * j + 1] as int
  {
  }

  /** `a` and `b` differ at most in the words of the `n` bytes at `offset`; the gaps agree too. */
  predicate SameBut(a: seq<u16>, b: seq<u16>, offset: nat, n: nat) {
    && |a| == |b|
    && forall k :: 0 <= k < |a| && !(offset <= k < offset + n && (k - offset) % 2 == 0) ==> a[k] == b[k]
  }

  /** A write to one buffer leaves every packet in a buffer beside it alone. */
  lemma PacketFrame(a: seq<u16>, b: seq<u16>, at: nat, n: nat, offset: nat, m: nat)
    requires SameBut(a, b, at, n) && offset + m <= |a|
    requires at + n <= offset || offset + m <= at
    ensures Packet(a, offset, m) == Packet(b, offset, m)
  {
  }

  method Write(pma: array<u16>, offset: nat, data: seq<byte>)
    requires offset + |data| <= pma.Length
    modifies pma
    ensures Packet(pma[..], offset, |data|) == data
    ensures SameBut(pma[..], old(pma[..]), offset, |data|)
  {
    var dst, i := offset, 0;
    while i < |data|
      invariant 0 <= i <= |data| + 1 && i % 2 == 0 && dst == offset + i
      invariant forall k :: 0 <= k < i && k < |data| ==> ByteAt(pma[..], offset, k) == data[k]
      invariant SameBut(pma[..], old(pma[..]), offset, i)
    {
      var val: u16 := data[i];
      if i + 1 < |data| {
        val := val + 0x100 * data[i + 1] as int;
      }
      pma[dst] := val;
      dst := dst + 2;
      i := i + 2;
    }
  }

  /** Copies the packet of `len` bytes at `offset` to `data`, from index `at`. */
  method Read(pma: array<u16>, offset: nat, data: array<byte>, at: nat, len: nat)
    requires offset + len <= pma.Length && at + len <= data.Length
    requires (pma as object) != data
    modifies data
    ensures data[..] == Splice(old(data[..]), at, Packet(pma[..], offset, len))
  {
    var src, i := offset, 0;
    while i < len
      invariant 0 <= i <= len + 1 && i % 2 == 0 && src == offset + i
      invariant forall k :: 0 <= k < data.Length ==>
        data[k] == if at <= k < at + i && k < at + len then ByteAt(pma[..], offset, k - at) else old(data[k])
    {
      var val := pma[src];
      src := src + 2;
      data[at + i] := val % 0x100;
      if i + 1 < len {
        data[at + i + 1] := val / 0x100;
      }
      i := i + 2;
    }
  }

  /** A buffer read back after a write returns what was written, odd lengths included. */
  method WriteThenRead(pma: array<u16>, offset: nat, sent: seq<byte>, data: array<byte>)
    requires offset + |sent| <= pma.Length && |sent| <= data.Length && (pma as object) != data
    modifies pma, data
    ensures data[..|sent|] == sent
  {
    Write(pma, offset, sent);
    Read(pma, offset, data, 0, |sent|);
  }
}
