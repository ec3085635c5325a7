/**
 * Fixed-width integers and their byte encodings, as a little-endian,
 * LP64 host lays them out in memory, plus the error results of the library.
 */
module Bytes {

  /** An unsigned char. */
  type byte = x: int | 0 <= x < 0x100

  /** C's uint32_t and uint64_t. */
  type uint32 = x: int | 0 <= x < 0x1_0000_0000
  type uint64 = x: int | 0 <= x < 0x1_0000_0000_0000_0000

  const UINT32_MAX: int := 0xFFFF_FFFF

  /** The errno values the library returns. */
  datatype Errno = EINVAL | ENOMEM

  datatype Option<+T> = None | Some(value: T)

  datatype Result<+T> = Ok(value: T) | Err(error: Errno)

  /** A uint32_t as the host stores it: least significant byte first. */
  function Le32(x: uint32): (bs: seq<byte>)
    ensures |bs| == 4
  {
    var q1 := x / 0x100;
    var q2 := q1 / 0x100;
    [x % 0x100, q1 % 0x100, q2 % 0x100, q2 / 0x100]
  }

  /** Reads a native uint32_t from four bytes. */
  function Le32Decode(bs: seq<byte>): (x: uint32)
    requires |bs| == 4
  {
    bs[0] as int + 0x100 * (bs[1] as int + 0x100 * (bs[2] as int + 0x100 * bs[3] as int))
  }

  lemma Le32RoundTrip(x: uint32)
    ensures Le32Decode(Le32(x)) == x
  {
    var q1 := x / 0x100;
    var q2 := q1 / 0x100;
    DivMod(x);
    DivMod(q1);
    DivMod(q2);
  }

  lemma DivMod(x: nat)
    ensures x == x % 0x100 + 0x100 * (x / 0x100)
  {
  }

  lemma Le32DecodeRoundTrip(bs: seq<byte>)
    requires |bs| == 4
    ensures Le32(Le32Decode(bs)) == bs
  {
    var x := Le32Decode(bs);
    var hi2 := bs[2] as int + 0x100 * bs[3] as int;
    var hi1 := bs[1] as int + 0x100 * hi2;
    ByteSplit(bs[0], hi1);
    ByteSplit(bs[1], hi2);
    ByteSplit(bs[2], bs[3]);
    assert x / 0x100 == hi1;
    assert hi1 / 0x100 == hi2;
  }

  lemma ByteSplit(lo: byte, hi: nat)
    ensures (lo + 0x100 * hi) % 0x100 == lo
    ensures (lo + 0x100 * hi) / 0x100 == hi
  {
  }

  /** A uint32_t in network byte order: most significant byte first. */
  function Be32(x: uint32): (bs: seq<byte>)
    ensures |bs| == 4
  {
    [x / 0x100_0000, (x / 0x1_0000) % 0x100, (x / 0x100) % 0x100, x % 0x100]
  }

  /**
   * htonl() on a little-endian host: the native value whose in-memory
   * bytes are the network-order bytes of x.
   */
  function Htonl(x: uint32): (y: uint32)
    ensures Le32(y) == Be32(x)
  {
    var y := Le32Decode(Be32(x));
    Le32DecodeRoundTrip(Be32(x));
    y
  }

  /** A uint64_t as the host stores it: the low word first. */
  function Le64(x: uint64): (bs: seq<byte>)
    ensures |bs| == 8
  {
    Le32(x % 0x1_0000_0000) + Le32(x / 0x1_0000_0000)
  }

  function Le64Decode(bs: seq<byte>): (x: uint64)
    requires |bs| == 8
  {
    Le32Decode(bs[..4]) + 0x1_0000_0000 * Le32Decode(bs[4..])
  }

  lemma Le64RoundTrip(x: uint64)
    ensures Le64Decode(Le64(x)) == x
  {
    var bs := Le64(x);
    assert bs[..4] == Le32(x % 0x1_0000_0000);
    assert bs[4..] == Le32(x / 0x1_0000_0000);
    Le32RoundTrip(x % 0x1_0000_0000);
    Le32RoundTrip(x / 0x1_0000_0000);
  }

  function Zeros(n: nat): (z: seq<byte>)
    ensures |z| == n
    ensures forall j :: 0 <= j < n ==> z[j] == 0
  {
    seq(n, _ => 0)
  }

  function Max(a: int, b: int): int
  {
    if a < b then b else a
  }

  /**
   * The contents of a regular file after writing b at position p: the
   * bytes in [p, p + |b|) become b, a gap between the old end and p reads
   * as zeros, and every other byte keeps its old value.
   */
  function WriteAt(d: seq<byte>, p: nat, b: seq<byte>): (r: seq<byte>)
    ensures |r| == Max(|d|, p + |b|)
    ensures forall j :: 0 <= j < |r| ==>
              r[j] == (if p <= j < p + |b| then b[j - p] else if j < |d| then d[j] else 0)
  {
    var before := if p <= |d| then d[..p] else d + Zeros(p - |d|);
    var after := if p + |b| < |d| then d[p + |b|..] else [];
    before + b + after
  }

  /** Writing a then b right after it is writing a + b. */
  lemma WriteAtConcat(d: seq<byte>, p: nat, a: seq<byte>, b: seq<byte>)
    ensures WriteAt(WriteAt(d, p, a), p + |a|, b) == WriteAt(d, p, a + b)
  {
    var l := WriteAt(WriteAt(d, p, a), p + |a|, b);
    var r := WriteAt(d, p, a + b);
    assert |l| == |r|;
    forall j | 0 <= j < |l| ensures l[j] == r[j] {
      if p + |a| <= j < p + |a| + |b| {
        assert (a + b)[j - p] == b[j - (p + |a|)];
      } else if p <= j < p + |a| {
        assert (a + b)[j - p] == a[j - p];
      }
    }
  }

  /** A write leaves every slice that lies before or after it, inside the old contents, untouched. */
  lemma WriteAtKeeps(d: seq<byte>, p: nat, b: seq<byte>, lo: nat, hi: nat)
    requires lo <= hi <= |d|
    requires hi <= p || p + |b| <= lo
    ensures WriteAt(d, p, b)[lo..hi] == d[lo..hi]
  {
    var r := WriteAt(d, p, b);
    assert forall j :: lo <= j < hi ==> r[j] == d[j];
  }

  /** What was written is read back. */
  lemma WriteAtReads(d: seq<byte>, p: nat, b: seq<byte>)
    ensures WriteAt(d, p, b)[p..p + |b|] == b
  {
    var r := WriteAt(d, p, b);
    assert forall j :: p <= j < p + |b| ==> r[j] == b[j - p];
  }
}
