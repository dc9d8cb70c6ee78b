/** Bytes and little-endian words shared by the on-disk formats. */
module Bytes {
  type Byte = b: int | 0 <= b < 256

  const U32 := 0x1_0000_0000

  function Le16(x: nat): (b: seq<Byte>)
    requires x < 0x1_0000
    ensures |b| == 2 && Word16(b) == x
  {
    [x % 256, x / 256]
  }

  function Word16(b: seq<Byte>): (x: nat)
    requires |b| == 2
    ensures x < 0x1_0000
  {
    var b0: int, b1: int := b[0], b[1];
    b0 + 0x100 * b1
  }

  function Le32(x: nat): (b: seq<Byte>)
    requires x < U32
    ensures |b| == 4 && Word32(b) == x
  {
    var q1 := x / 0x100;
    var q2 := q1 / 0x100;
    [x % 0x100, q1 % 0x100, q2 % 0x100, q2 / 0x100]
  }

  function Word32(b: seq<Byte>): (x: nat)
    requires |b| == 4
    ensures x < U32
  {
    var b0: int, b1: int, b2: int, b3: int := b[0], b[1], b[2], b[3];
    b0 + 0x100 * b1 + 0x1_0000 * b2 + 0x100_0000 * b3
  }

  function Zeros(n: nat): (z: seq<Byte>)
    ensures |z| == n
  {
    seq(n, _ => 0)
  }

  /** `data` written over `s` from `offset`. */
  function Overwrite(s: seq<Byte>, offset: nat, data: seq<Byte>): (r: seq<Byte>)
    requires offset + |data| <= |s|
    ensures |r| == |s|
    ensures forall k :: 0 <= k < |s| ==> r[k] == if offset <= k < offset + |data| then data[k - offset] else s[k]
  {
    s[..offset] + data + s[offset + |data|..]
  }

  /** `data` laid over `c` from `offset`; a gap is filled with zeros. */
  function Splice(c: seq<Byte>, offset: nat, data: seq<Byte>): (r: seq<Byte>)
    ensures |r| == if offset + |data| > |c| then offset + |data| else |c|
  {
    Overwrite(if offset + |data| > |c| then c + Zeros(offset + |data| - |c|) else c, offset, data)
  }

  /** At most `size` items from `offset`, stopping at the end. */
  function Slice(c: seq<Byte>, offset: nat, size: nat): seq<Byte> {
    if offset >= |c| then [] else if offset + size <= |c| then c[offset..offset + size] else c[offset..]
  }

  /** What a seek counts from. */
  datatype Origin = SeekSet | SeekCur | SeekEnd
}
