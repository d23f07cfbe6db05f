/**
  The fixed-width integers of the C sources, little-endian words, and a few
  sequence operations that every other module is stated with.
 */
module Words {

  type byte = x: int | 0 <= x < 0x100
  type u16 = x: int | 0 <= x < 0x1_0000
  type u32 = x: int | 0 <= x < 0x1_0000_0000

  /** Reduction of a 32-bit C expression. */
  function Wrap32(x: int): u32 {
    x % 0x1_0000_0000
  }

  function Min(a: int, b: int): int {
    if a < b then a else b
  }

  /** The 32-bit word stored at the four bytes `b`, least significant first. */
  function Le32(b: seq<byte>): u32
    requires |b| == 4
  {
    b[0] as int + 0x100 * b[1] as int + 0x1_0000 * b[2] as int + 0x100_0000 * b[3] as int
  }

  /** The four bytes of `x`, least significant first. */
  function Bytes32(x: u32): (b: seq<byte>)
    ensures |b| == 4
  {
    [x % 0x100, x / 0x100 % 0x100, x / 0x1_0000 % 0x100, x / 0x100_0000]
  }

  lemma Le32OfBytes32(x: u32)
    ensures Le32(Bytes32(x)) == x
  {
    assert x / 0x1_0000 == x / 0x100 / 0x100;
    assert x / 0x100_0000 == x / 0x100 / 0x100 / 0x100;
  }

  /** Byte `k` of a word in memory is its `k`-th digit to base 256. */
  lemma Le32LeastFirst(b: seq<byte>)
    requires |b| == 4
    ensures b[0] == Le32(b) % 0x100 && b[1] == Le32(b) / 0x100 % 0x100
    ensures b[2] == Le32(b) / 0x1_0000 % 0x100 && b[3] == Le32(b) / 0x100_0000
    ensures Bytes32(Le32(b)) == b
  {
    var x := Le32(b);
    var y, z := b[1] as int + 0x100 * b[2] as int + 0x1_0000 * b[3] as int, b[2] as int + 0x100 * b[3] as int;
    LowDigit(x, b[0], y);
    LowDigit(y, b[1], z);
    LowDigit(z, b[2], b[3]);
    assert x / 0x1_0000 == x / 0x100 / 0x100 && x / 0x100_0000 == x / 0x100 / 0x100 / 0x100;
  }

  lemma LowDigit(x: int, low: int, high: int)
    requires 0 <= low < 0x100 && x == low + 0x100 * high
    ensures x % 0x100 == low && x / 0x100 == high
  {
  }

  /** `s` with `d` written over it from index `at`. */
  function Splice<T>(s: seq<T>, at: nat, d: seq<T>): (r: seq<T>)
    requires at + |d| <= |s|
    ensures |r| == |s|
    ensures forall i :: 0 <= i < |s| ==> r[i] == if at <= i < at + |d| then d[i - at] else s[i]
  {
    s[..at] + d + s[at + |d|..]
  }

  /** Writing `d` and then `e` right behind it is one longer write. */
  lemma SpliceAppend<T>(s: seq<T>, at: nat, d: seq<T>, e: seq<T>)
    requires at + |d| + |e| <= |s|
    ensures Splice(Splice(s, at, d), at + |d|, e) == Splice(s, at, d + e)
  {
  }

  /** A slice of a slice. */
  lemma SliceSplit<T>(s: seq<T>, at: nat, n: nat, m: nat)
    requires at + n <= |s| && m <= n
    ensures s[at..at + n][..m] == s[at..at + m]
    ensures s[at..at + n][m..] == s[at + m..at + n]
  {
  }

  function Fill<T>(n: nat, x: T): (r: seq<T>)
    ensures |r| == n && forall i :: 0 <= i < n ==> r[i] == x
  {
    seq(n, _ => x)
  }

  function Flatten<T>(ps: seq<seq<T>>): seq<T> {
    if ps == [] then [] else Flatten(ps[..|ps| - 1]) + ps[|ps| - 1]
  }
}
