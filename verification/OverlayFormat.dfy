/** The binary overlay format: a header with a checksum, then strings, node records, property
    records and array data. What the compiler packs is what the loader reads. */
module OverlayFormat {
  import opened Bytes
  import Crc

  type Text = seq<Byte>

  const HEADER_SIZE := 32
  const RECORD_SIZE := 20
  const MAGIC: seq<Byte> := [82, 65, 68, 79]   // "RADO"
  const VERSION := 1

  datatype NodeRec = NodeRec(path: nat, name: nat, parent: nat, start: nat, count: nat)

  datatype PropRec = PropRec(node: nat, name: nat, kind: nat, value: nat, size: nat)

  /** The four sections of a payload. */
  datatype Image = Image(strings: seq<Byte>, nodes: seq<NodeRec>, props: seq<PropRec>, data: seq<Byte>)

  // ----- records of five words

  datatype Five = Five(a: nat, b: nat, c: nat, d: nat, e: nat)

  function OfNode(r: NodeRec): Five { Five(r.path, r.name, r.parent, r.start, r.count) }

  function OfProp(r: PropRec): Five { Five(r.node, r.name, r.kind, r.value, r.size) }

  predicate WordsFit(r: Five) { r.a < U32 && r.b < U32 && r.c < U32 && r.d < U32 && r.e < U32 }

  function Pack(r: Five): (p: seq<Byte>)
    requires WordsFit(r)
    ensures |p| == RECORD_SIZE
  {
    Le32(r.a) + Le32(r.b) + Le32(r.c) + Le32(r.d) + Le32(r.e)
  }

  function Unpack(b: seq<Byte>, at: nat): Five
    requires at + RECORD_SIZE <= |b|
  {
    Five(Word32(b[at..at + 4]), Word32(b[at + 4..at + 8]), Word32(b[at + 8..at + 12]),
         Word32(b[at + 12..at + 16]), Word32(b[at + 16..at + 20]))
  }

  /** `p` stands in `b` from `at`. */
  predicate Carries(b: seq<Byte>, at: nat, p: seq<Byte>) {
    at + |p| <= |b| && forall k :: 0 <= k < |p| ==> b[at + k] == p[k]
  }

  lemma WordCarried(x: nat, b: seq<Byte>, at: nat)
    requires x < U32 && Carries(b, at, Le32(x))
    ensures Word32(b[at..at + 4]) == x
  {
    assert b[at..at + 4] == Le32(x);
  }

  lemma PartCarried(b: seq<Byte>, at: nat, p: seq<Byte>, from: nat, q: seq<Byte>)
    requires Carries(b, at, p) && Carries(p, from, q)
    ensures Carries(b, at + from, q)
  {}

  lemma PackParts(r: Five)
    requires WordsFit(r)
    ensures Carries(Pack(r), 0, Le32(r.a)) && Carries(Pack(r), 4, Le32(r.b)) && Carries(Pack(r), 8, Le32(r.c))
    ensures Carries(Pack(r), 12, Le32(r.d)) && Carries(Pack(r), 16, Le32(r.e))
  {}

  lemma UnpackPack(r: Five, b: seq<Byte>, at: nat)
    requires WordsFit(r) && Carries(b, at, Pack(r))
    ensures Unpack(b, at) == r
  {
    hide Carries, Le32, Pack, Word32;
    var p := Pack(r);
    PackParts(r);
    PartCarried(b, at, p, 0, Le32(r.a));
    PartCarried(b, at, p, 4, Le32(r.b));
    PartCarried(b, at, p, 8, Le32(r.c));
    PartCarried(b, at, p, 12, Le32(r.d));
    PartCarried(b, at, p, 16, Le32(r.e));
    CarriedFits(b, at, p);
    WordCarried(r.a, b, at);
    WordCarried(r.b, b, at + 4);
    WordCarried(r.c, b, at + 8);
    WordCarried(r.d, b, at + 12);
    WordCarried(r.e, b, at + 16);
  }

  lemma CarriedFits(b: seq<Byte>, at: nat, p: seq<Byte>)
    requires Carries(b, at, p)
    ensures at + |p| <= |b|
  {}

  predicate AllFit(rs: seq<Five>) { forall i :: 0 <= i < |rs| ==> WordsFit(rs[i]) }

  function PackAll(rs: seq<Five>): (p: seq<Byte>)
    requires AllFit(rs)
    ensures |p| == RECORD_SIZE * |rs|
    decreases |rs|
  {
    if rs == [] then [] else PackAll(rs[..|rs| - 1]) + Pack(rs[|rs| - 1])
  }

  lemma {:induction false} PackAllAt(rs: seq<Five>, i: nat)
    requires AllFit(rs) && i < |rs|
    ensures Carries(PackAll(rs), RECORD_SIZE * i, Pack(rs[i]))
    decreases |rs|
  {
    hide Pack;
    var init := rs[..|rs| - 1];
    if i < |init| { PackAllAt(init, i); }
  }

  function UnpackAll(b: seq<Byte>, at: nat, n: nat): (rs: seq<Five>)
    requires at + RECORD_SIZE * n <= |b|
    ensures |rs| == n
  {
    seq(n, i requires 0 <= i < n => Unpack(b, at + RECORD_SIZE * i))
  }

  lemma UnpackAllPackAll(rs: seq<Five>, b: seq<Byte>, at: nat)
    requires AllFit(rs) && Carries(b, at, PackAll(rs))
    ensures UnpackAll(b, at, |rs|) == rs
  {
    hide Pack, Unpack, Carries, PackAll;
    CarriedFits(b, at, PackAll(rs));
    forall i | 0 <= i < |rs| ensures UnpackAll(b, at, |rs|)[i] == rs[i] {
      PackAllAt(rs, i);
      PartCarried(b, at, PackAll(rs), RECORD_SIZE * i, Pack(rs[i]));
      UnpackPack(rs[i], b, at + RECORD_SIZE * i);
    }
  }

  // ----- the checksum

  // Bytes as numbers and as bit vectors, bit by bit.

  function Odd(x: int): bool { x % 2 == 1 }

  function Bits(b0: bool, b1: bool, b2: bool, b3: bool, b4: bool, b5: bool, b6: bool, b7: bool): bv8 {
    (if b0 then 1 else 0) | (if b1 then 2 else 0) | (if b2 then 4 else 0) | (if b3 then 8 else 0)
    | (if b4 then 16 else 0) | (if b5 then 32 else 0) | (if b6 then 64 else 0) | (if b7 then 128 else 0)
  }

  function ToBits(x: Byte): bv8 {
    Bits(Odd(x), Odd(x / 2), Odd(x / 4), Odd(x / 8), Odd(x / 16), Odd(x / 32), Odd(x / 64), Odd(x / 128))
  }

  function One(b: bool, weight: nat): nat { if b then weight else 0 }

  function OfBits(b: bv8): Byte {
    One(b & 1 != 0, 1) + One(b & 2 != 0, 2) + One(b & 4 != 0, 4) + One(b & 8 != 0, 8)
    + One(b & 16 != 0, 16) + One(b & 32 != 0, 32) + One(b & 64 != 0, 64) + One(b & 128 != 0, 128)
  }

  lemma BitsHold(b0: bool, b1: bool, b2: bool, b3: bool, b4: bool, b5: bool, b6: bool, b7: bool, b: bv8)
    requires b == Bits(b0, b1, b2, b3, b4, b5, b6, b7)
    ensures (b & 1 != 0) == b0 && (b & 2 != 0) == b1 && (b & 4 != 0) == b2 && (b & 8 != 0) == b3
    ensures (b & 16 != 0) == b4 && (b & 32 != 0) == b5 && (b & 64 != 0) == b6 && (b & 128 != 0) == b7
  {}

  lemma OddParts(x: Byte)
    ensures x == One(Odd(x), 1) + One(Odd(x / 2), 2) + One(Odd(x / 4), 4) + One(Odd(x / 8), 8)
                 + One(Odd(x / 16), 16) + One(Odd(x / 32), 32) + One(Odd(x / 64), 64) + One(Odd(x / 128), 128)
  {
    hide One, Odd;
    Halves(x);
    Parts(x, x / 2, x / 4, x / 8, x / 16, x / 32, x / 64, x / 128);
  }

  lemma Parts(x: nat, x1: nat, x2: nat, x3: nat, x4: nat, x5: nat, x6: nat, x7: nat)
    requires x1 == x / 2 && x2 == x1 / 2 && x3 == x2 / 2 && x4 == x3 / 2
    requires x5 == x4 / 2 && x6 == x5 / 2 && x7 == x6 / 2 && x7 / 2 == 0
    ensures x == One(Odd(x), 1) + One(Odd(x1), 2) + One(Odd(x2), 4) + One(Odd(x3), 8)
                 + One(Odd(x4), 16) + One(Odd(x5), 32) + One(Odd(x6), 64) + One(Odd(x7), 128)
  {
    hide Odd;
    HalfStep(x);
    HalfStep(x1);
    HalfStep(x2);
    HalfStep(x3);
    HalfStep(x4);
    HalfStep(x5);
    HalfStep(x6);
    HalfStep(x7);
  }

  lemma HalfStep(x: nat)
    ensures x == One(Odd(x), 1) + 2 * (x / 2)
  {}

  lemma Halves(x: nat)
    ensures x < 256 ==> x / 2 / 2 == x / 4 && x / 4 / 2 == x / 8 && x / 8 / 2 == x / 16 && x / 16 / 2 == x / 32
    ensures x < 256 ==> x / 32 / 2 == x / 64 && x / 64 / 2 == x / 128 && x / 128 / 2 == 0
  {}

  lemma BitsRoundTrip(x: Byte)
    ensures OfBits(ToBits(x)) == x
  {
    hide Bits, Odd;
    OddParts(x);
    BitsHold(Odd(x), Odd(x / 2), Odd(x / 4), Odd(x / 8), Odd(x / 16), Odd(x / 32), Odd(x / 64), Odd(x / 128),
        ToBits(x));
  }

  function AsBits(p: seq<Byte>): (r: seq<bv8>)
    ensures |r| == |p|
  {
    seq(|p|, i requires 0 <= i < |p| => ToBits(p[i]))
  }

  lemma HalfUnique(x: nat, b: bool, half: nat)
    requires x == One(b, 1) + 2 * half
    ensures Odd(x) == b && x / 2 == half
  {}

  lemma SumParts(b0: bool, b1: bool, b2: bool, b3: bool, b4: bool, b5: bool, b6: bool, b7: bool, x: nat)
    requires x == One(b0, 1) + One(b1, 2) + One(b2, 4) + One(b3, 8) + One(b4, 16) + One(b5, 32) + One(b6, 64) +
             One(b7, 128)
    ensures x < 256 && Odd(x) == b0 && Odd(x / 2) == b1 && Odd(x / 4) == b2 && Odd(x / 8) == b3
    ensures Odd(x / 16) == b4 && Odd(x / 32) == b5 && Odd(x / 64) == b6 && Odd(x / 128) == b7
  {
    hide Odd;
    var x7 := One(b7, 1);
    var x6 := One(b6, 1) + 2 * x7;
    var x5 := One(b5, 1) + 2 * x6;
    var x4 := One(b4, 1) + 2 * x5;
    var x3 := One(b3, 1) + 2 * x4;
    var x2 := One(b2, 1) + 2 * x3;
    var x1 := One(b1, 1) + 2 * x2;
    assert x == One(b0, 1) + 2 * x1;
    HalfUnique(x, b0, x1);
    HalfUnique(x1, b1, x2);
    HalfUnique(x2, b2, x3);
    HalfUnique(x3, b3, x4);
    HalfUnique(x4, b4, x5);
    HalfUnique(x5, b5, x6);
    HalfUnique(x6, b6, x7);
    HalfUnique(x7, b7, 0);
    Halves(x);
  }

  lemma BitsAll(b: bv8)
    ensures Bits(b & 1 != 0, b & 2 != 0, b & 4 != 0, b & 8 != 0, b & 16 != 0, b & 32 != 0, b & 64 != 0, b & 128 != 0) ==
            b
  {}

  lemma OfBitsRoundTrip(b: bv8)
    ensures ToBits(OfBits(b)) == b
  {
    hide Bits, Odd, One;
    SumParts(b & 1 != 0, b & 2 != 0, b & 4 != 0, b & 8 != 0, b & 16 != 0, b & 32 != 0, b & 64 != 0, b & 128 != 0,
        OfBits(b));
    BitsAll(b);
  }

  function Piece(c: bv32, k: nat): bv8
    requires k < 4
  {
    if k == 0 then (c & 0xff) as bv8 else if k == 1 then ((c >> 8) & 0xff) as bv8
    else if k == 2 then ((c >> 16) & 0xff) as bv8 else ((c >> 24) & 0xff) as bv8
  }

  lemma PiecesDiffer(a: bv32, b: bv32)
    requires a != b
    ensures Piece(a, 0) != Piece(b, 0) || Piece(a, 1) != Piece(b, 1) || Piece(a, 2) != Piece(b, 2) ||
            Piece(a, 3) != Piece(b, 3)
  {}

  /** The checksum as it stands in the header, low byte first. */
  function CrcBytes(c: bv32): (r: seq<Byte>)
    ensures |r| == 4
  {
    [OfBits(Piece(c, 0)), OfBits(Piece(c, 1)), OfBits(Piece(c, 2)), OfBits(Piece(c, 3))]
  }

  lemma CrcBytesDiffer(a: bv32, b: bv32)
    requires a != b
    ensures CrcBytes(a) != CrcBytes(b)
  {
    hide OfBits, ToBits, Piece;
    PiecesDiffer(a, b);
    SameBits(Piece(a, 0), Piece(b, 0));
    SameBits(Piece(a, 1), Piece(b, 1));
    SameBits(Piece(a, 2), Piece(b, 2));
    SameBits(Piece(a, 3), Piece(b, 3));
    assert CrcBytes(a)[0] == OfBits(Piece(a, 0)) && CrcBytes(b)[0] == OfBits(Piece(b, 0));
    assert CrcBytes(a)[1] == OfBits(Piece(a, 1)) && CrcBytes(b)[1] == OfBits(Piece(b, 1));
    assert CrcBytes(a)[2] == OfBits(Piece(a, 2)) && CrcBytes(b)[2] == OfBits(Piece(b, 2));
    assert CrcBytes(a)[3] == OfBits(Piece(a, 3)) && CrcBytes(b)[3] == OfBits(Piece(b, 3));
  }

  lemma SameBits(x: bv8, y: bv8)
    ensures OfBits(x) == OfBits(y) ==> x == y
  {
    hide OfBits, ToBits;
    OfBitsRoundTrip(x);
    OfBitsRoundTrip(y);
  }

  function Checksum(p: seq<Byte>): (r: seq<Byte>)
    ensures |r| == 4
  {
    CrcBytes(Crc.Update(0, AsBits(p)))
  }

  lemma BitsDiffer(x: Byte, y: Byte)
    requires x != y
    ensures ToBits(x) != ToBits(y)
  {
    hide OfBits, ToBits;
    BitsRoundTrip(x);
    BitsRoundTrip(y);
  }

  /** A change confined to one byte changes the checksum. */
  lemma OneByteChanges(p: seq<Byte>, q: seq<Byte>, i: nat)
    requires |p| == |q| && i < |p| && p[i] != q[i]
    requires forall k :: 0 <= k < |p| && k != i ==> p[k] == q[k]
    ensures Checksum(p) != Checksum(q)
  {
    hide Crc.Update, CrcBytes, ToBits;
    BitsDiffer(p[i], q[i]);
    Crc.OneByteDetected(0, AsBits(p), AsBits(q), i);
    CrcBytesDiffer(Crc.Update(0, AsBits(p)), Crc.Update(0, AsBits(q)));
  }

  /** So does any change confined to four neighbouring bytes. */
  lemma BurstChanges(p: seq<Byte>, q: seq<Byte>, i: nat)
    requires |p| == |q| && i + 4 <= |p| && p != q
    requires forall k :: 0 <= k < |p| && !(i <= k < i + 4) ==> p[k] == q[k]
    ensures Checksum(p) != Checksum(q)
  {
    hide Crc.Update, CrcBytes, ToBits;
    var k :| 0 <= k < |p| && p[k] != q[k];
    BitsDiffer(p[k], q[k]);
    assert AsBits(p)[k] != AsBits(q)[k];
    Crc.BurstDetected(0, AsBits(p), AsBits(q), i);
    CrcBytesDiffer(Crc.Update(0, AsBits(p)), Crc.Update(0, AsBits(q)));
  }

  // ----- whole overlays

  function NodeFives(rs: seq<NodeRec>): (r: seq<Five>)
    ensures |r| == |rs|
  {
    seq(|rs|, i requires 0 <= i < |rs| => OfNode(rs[i]))
  }

  function PropFives(rs: seq<PropRec>): (r: seq<Five>)
    ensures |r| == |rs|
  {
    seq(|rs|, i requires 0 <= i < |rs| => OfProp(rs[i]))
  }

  /** Every number of the image fits its 32-bit word. */
  predicate Packable(m: Image) {
    && |m.strings| < U32 && |m.nodes| < U32 && |m.props| < U32 && |m.data| < U32
    && AllFit(NodeFives(m.nodes)) && AllFit(PropFives(m.props))
  }

  function Payload(m: Image): seq<Byte>
    requires Packable(m)
  {
    m.strings + PackAll(NodeFives(m.nodes)) + PackAll(PropFives(m.props)) + m.data
  }

  function Header(m: Image): (h: seq<Byte>)
    requires Packable(m)
    ensures |h| == HEADER_SIZE
  {
    MAGIC + Le16(VERSION) + Le16(0) + Le32(|m.strings|) + Le32(|m.nodes|) + Le32(|m.props|) + Le32(|m.data|)
    + Le32(0) + Checksum(Payload(m))
  }

  function Blob(m: Image): seq<Byte>
    requires Packable(m)
  {
    Header(m) + Payload(m)
  }

  datatype Option<T> = None | Some(value: T)

  function NodeOf(f: Five): NodeRec { NodeRec(f.a, f.b, f.c, f.d, f.e) }

  function PropOf(f: Five): PropRec { PropRec(f.a, f.b, f.c, f.d, f.e) }

  /** What the loader accepts: magic, version, exact length and checksum. */
  function Parse(b: seq<Byte>): Option<Image> {
    if |b| < HEADER_SIZE || b[..4] != MAGIC || Word16(b[4..6]) != VERSION then None
    else
      var strings, nodes, props, data := Word32(b[8..12]), Word32(b[12..16]), Word32(b[16..20]), Word32(b[20..24]);
      var at1 := HEADER_SIZE + strings;
      var at2 := at1 + RECORD_SIZE * nodes;
      var at3 := at2 + RECORD_SIZE * props;
      if at3 + data != |b| || Checksum(b[HEADER_SIZE..]) != b[28..32] then None
      else
        Some(Image(b[HEADER_SIZE..at1],
                   seq(nodes, i requires 0 <= i < nodes => NodeOf(UnpackAll(b, at1, nodes)[i])),
                   seq(props, i requires 0 <= i < props => PropOf(UnpackAll(b, at2, props)[i])),
                   b[at3..]))
  }

  lemma HeaderParts(m: Image)
    requires Packable(m)
    ensures var h := Header(m);
            && h[..4] == MAGIC && h[4..6] == Le16(VERSION) && h[28..32] == Checksum(Payload(m))
            && Carries(h, 8, Le32(|m.strings|)) && Carries(h, 12, Le32(|m.nodes|))
            && Carries(h, 16, Le32(|m.props|)) && Carries(h, 20, Le32(|m.data|))
  {
    hide Checksum, Payload, Le32, Le16;
  }

  lemma PayloadParts(m: Image)
    requires Packable(m)
    ensures var p := Payload(m);
            var a1 := |m.strings|;
            var a2 := a1 + RECORD_SIZE * |m.nodes|;
            var a3 := a2 + RECORD_SIZE * |m.props|;
            && |p| == a3 + |m.data| && Carries(p, 0, m.strings) && Carries(p, a1, PackAll(NodeFives(m.nodes)))
            && Carries(p, a2, PackAll(PropFives(m.props))) && Carries(p, a3, m.data)
  {
    hide PackAll;
  }

  lemma BlobParts(m: Image)
    requires Packable(m)
    ensures var b := Blob(m);
            && Carries(b, 0, Header(m)) && Carries(b, HEADER_SIZE, Payload(m)) && |b| == HEADER_SIZE + |Payload(m)|
            && b[..4] == Header(m)[..4] && b[4..6] == Header(m)[4..6] && b[28..32] == Header(m)[28..32]
            && b[HEADER_SIZE..] == Payload(m)
  {
    hide Header, Payload;
  }

  lemma SizesRead(m: Image)
    requires Packable(m)
    ensures var b := Blob(m);
            && |b| >= HEADER_SIZE && Word32(b[8..12]) == |m.strings| && Word32(b[12..16]) == |m.nodes|
            && Word32(b[16..20]) == |m.props| && Word32(b[20..24]) == |m.data|
  {
    hide Header, Payload, Carries, Le32, Word32;
    var b, h := Blob(m), Header(m);
    BlobParts(m);
    HeaderParts(m);
    PartCarried(b, 0, h, 8, Le32(|m.strings|));
    PartCarried(b, 0, h, 12, Le32(|m.nodes|));
    PartCarried(b, 0, h, 16, Le32(|m.props|));
    PartCarried(b, 0, h, 20, Le32(|m.data|));
    WordCarried(|m.strings|, b, 8);
    WordCarried(|m.nodes|, b, 12);
    WordCarried(|m.props|, b, 16);
    WordCarried(|m.data|, b, 20);
  }

  lemma RecordsRead(m: Image)
    requires Packable(m)
    ensures var b := Blob(m);
            var a1 := HEADER_SIZE + |m.strings|;
            var a2 := a1 + RECORD_SIZE * |m.nodes|;
            var a3 := a2 + RECORD_SIZE * |m.props|;
            && a3 + |m.data| == |b|
            && UnpackAll(b, a1, |m.nodes|) == NodeFives(m.nodes) && UnpackAll(b, a2, |m.props|) == PropFives(m.props)
            && b[HEADER_SIZE..a1] == m.strings && b[a3..] == m.data
  {
    hide Header, Payload, PackAll, UnpackAll, Carries;
    var b, p := Blob(m), Payload(m);
    var a1 := HEADER_SIZE + |m.strings|;
    var a2 := a1 + RECORD_SIZE * |m.nodes|;
    var a3 := a2 + RECORD_SIZE * |m.props|;
    BlobParts(m);
    PayloadParts(m);
    PartCarried(b, HEADER_SIZE, p, 0, m.strings);
    PartCarried(b, HEADER_SIZE, p, |m.strings|, PackAll(NodeFives(m.nodes)));
    PartCarried(b, HEADER_SIZE, p, a2 - HEADER_SIZE, PackAll(PropFives(m.props)));
    PartCarried(b, HEADER_SIZE, p, a3 - HEADER_SIZE, m.data);
    UnpackAllPackAll(NodeFives(m.nodes), b, a1);
    UnpackAllPackAll(PropFives(m.props), b, a2);
    CarriedSlice(b, HEADER_SIZE, m.strings);
    CarriedSlice(b, a3, m.data);
  }

  lemma CarriedSlice(b: seq<Byte>, at: nat, p: seq<Byte>)
    requires Carries(b, at, p)
    ensures at + |p| <= |b| && b[at..at + |p|] == p
  {}

  /** Packing and parsing are inverse. */
  lemma ParseBlob(m: Image)
    requires Packable(m)
    ensures Parse(Blob(m)) == Some(m)
  {
    hide Blob, Payload, Header, UnpackAll, NodeFives, PropFives, Word32, Checksum, Le16, Word16;
    SizesRead(m);
    RecordsRead(m);
    BlobParts(m);
    HeaderParts(m);
    assert Word16(Le16(VERSION)) == VERSION;
    FivesBack(m);
    var r := Parse(Blob(m)).value;
    assert r.nodes == m.nodes && r.props == m.props;
  }

  lemma FivesBack(m: Image)
    ensures forall i :: 0 <= i < |m.nodes| ==> NodeOf(NodeFives(m.nodes)[i]) == m.nodes[i]
    ensures forall i :: 0 <= i < |m.props| ==> PropOf(PropFives(m.props)[i]) == m.props[i]
  {}

  /** An overlay whose payload was changed within four neighbouring bytes is rejected; in
      particular any change of one byte. */
  lemma TamperedIsRejected(b: seq<Byte>, c: seq<Byte>, i: nat)
    requires Parse(b).Some? && |c| == |b| && b != c && HEADER_SIZE <= i && i + 4 <= |b|
    requires forall k :: 0 <= k < |b| && !(i <= k < i + 4) ==> c[k] == b[k]
    ensures Parse(c).None?
  {
    hide Checksum, UnpackAll, Word32;
    var p, q := b[HEADER_SIZE..], c[HEADER_SIZE..];
    assert b == b[..HEADER_SIZE] + p && c == c[..HEADER_SIZE] + q;
    assert b[..HEADER_SIZE] == c[..HEADER_SIZE];
    BurstChanges(p, q, i - HEADER_SIZE);
    SameHeader(b, c);
  }

  lemma OneByteIsRejected(b: seq<Byte>, c: seq<Byte>, i: nat)
    requires Parse(b).Some? && |c| == |b| && HEADER_SIZE <= i < |b| && b[i] != c[i]
    requires forall k :: 0 <= k < |b| && k != i ==> c[k] == b[k]
    ensures Parse(c).None?
  {
    hide Checksum, UnpackAll, Word32;
    var p, q := b[HEADER_SIZE..], c[HEADER_SIZE..];
    OneByteChanges(p, q, i - HEADER_SIZE);
    SameHeader(b, c);
  }

  lemma SameHeader(b: seq<Byte>, c: seq<Byte>)
    requires |b| == |c| >= HEADER_SIZE && forall k :: 0 <= k < HEADER_SIZE ==> c[k] == b[k]
    ensures b[..4] == c[..4] && b[4..6] == c[4..6] && b[8..12] == c[8..12] && b[12..16] == c[12..16]
    ensures b[16..20] == c[16..20] && b[20..24] == c[20..24] && b[28..32] == c[28..32]
  {}

  // ----- what the loader accepts is what the compiler writes

  lemma WordBack(b: seq<Byte>)
    requires |b| == 4
    ensures Le32(Word32(b)) == b
  {
    var b0: int, b1: int, b2: int, b3: int := b[0], b[1], b[2], b[3];
    LowByte(b0, b1 + 0x100 * b2 + 0x1_0000 * b3);
    LowByte(b1, b2 + 0x100 * b3);
    LowByte(b2, b3);
  }

  lemma LowByte(b: Byte, rest: nat)
    ensures (b + 0x100 * rest) % 0x100 == b && (b + 0x100 * rest) / 0x100 == rest
  {}

  lemma PackUnpack(b: seq<Byte>, at: nat)
    requires at + RECORD_SIZE <= |b|
    ensures WordsFit(Unpack(b, at)) && Pack(Unpack(b, at)) == b[at..at + RECORD_SIZE]
  {
    hide Le32, Word32;
    WordBack(b[at..at + 4]);
    WordBack(b[at + 4..at + 8]);
    WordBack(b[at + 8..at + 12]);
    WordBack(b[at + 12..at + 16]);
    WordBack(b[at + 16..at + 20]);
  }

  lemma {:induction false} PackAllUnpackAll(b: seq<Byte>, at: nat, n: nat)
    requires at + RECORD_SIZE * n <= |b|
    ensures AllFit(UnpackAll(b, at, n)) && PackAll(UnpackAll(b, at, n)) == b[at..at + RECORD_SIZE * n]
    decreases n
  {
    hide Pack, Unpack, WordsFit;
    var rs := UnpackAll(b, at, n);
    if n > 0 {
      PackAllUnpackAll(b, at, n - 1);
      PackUnpack(b, at + RECORD_SIZE * (n - 1));
      var last := at + RECORD_SIZE * (n - 1);
      assert rs[..n - 1] == UnpackAll(b, at, n - 1) && rs[n - 1] == Unpack(b, last);
      assert forall i :: 0 <= i < n - 1 ==> rs[i] == UnpackAll(b, at, n - 1)[i];
      assert b[at..last + RECORD_SIZE] == b[at..last] + b[last..last + RECORD_SIZE];
    }
  }

  /** The bytes that nobody reads: the flags and a reserved word. */
  predicate Unread(k: nat) { 6 <= k < 8 || 24 <= k < 28 }

  predicate SameRead(b: seq<Byte>, c: seq<Byte>) {
    |b| == |c| && forall k :: 0 <= k < |b| && !Unread(k) ==> b[k] == c[k]
  }

  lemma FivesForth(b: seq<Byte>, at1: nat, n: nat, at2: nat, p: nat)
    requires at1 + RECORD_SIZE * n <= |b| && at2 + RECORD_SIZE * p <= |b|
    ensures var ns := seq(n, i requires 0 <= i < n => NodeOf(UnpackAll(b, at1, n)[i]));
            NodeFives(ns) == UnpackAll(b, at1, n)
    ensures var ps := seq(p, i requires 0 <= i < p => PropOf(UnpackAll(b, at2, p)[i]));
            PropFives(ps) == UnpackAll(b, at2, p)
  {}

  /** What was parsed packs to the bytes that were read. */
  lemma ParsedPacks(b: seq<Byte>)
    requires Parse(b).Some?
    ensures Packable(Parse(b).value) && Payload(Parse(b).value) == b[HEADER_SIZE..]
  {
    hide UnpackAll, PackAll, Checksum, Word32, AllFit;
    var m := Parse(b).value;
    var at1 := HEADER_SIZE + |m.strings|;
    var at2 := at1 + RECORD_SIZE * |m.nodes|;
    var at3 := at2 + RECORD_SIZE * |m.props|;
    FivesForth(b, at1, |m.nodes|, at2, |m.props|);
    PackAllUnpackAll(b, at1, |m.nodes|);
    PackAllUnpackAll(b, at2, |m.props|);
    assert b[HEADER_SIZE..] == b[HEADER_SIZE..at1] + b[at1..at2] + b[at2..at3] + b[at3..];
  }

  /** The loader accepts a text exactly when it is a packed image, but for the bytes it does not read. */
  lemma ParseIff(b: seq<Byte>, m: Image)
    ensures Parse(b) == Some(m) <==> Packable(m) && SameRead(b, Blob(m))
  {
    hide Payload, Header, Blob, Packable, Parse;
    if Parse(b) == Some(m) { ParsedIsBlob(b, m); }
    if Packable(m) && SameRead(b, Blob(m)) {
      BlobParts(m);
      ParseBlob(m);
      SameParse(b, Blob(m));
    }
  }

  lemma ParsedIsBlob(b: seq<Byte>, m: Image)
    requires Parse(b) == Some(m)
    ensures Packable(m) && SameRead(b, Blob(m))
  {
    hide Payload, Packable, Checksum, UnpackAll;
    ParsedPacks(b);
    BlobParts(m);
    WordBack(b[8..12]);
    WordBack(b[12..16]);
    WordBack(b[16..20]);
    WordBack(b[20..24]);
    HeaderIs(b, m);
  }

  /** The header's fields, byte for byte. */
  lemma HeaderIs(b: seq<Byte>, m: Image)
    requires Packable(m) && |b| == HEADER_SIZE + |Payload(m)| && b[HEADER_SIZE..] == Payload(m)
    requires b[..4] == MAGIC && Word16(b[4..6]) == VERSION && b[28..32] == Checksum(Payload(m))
    requires b[8..12] == Le32(|m.strings|) && b[12..16] == Le32(|m.nodes|)
    requires b[16..20] == Le32(|m.props|) && b[20..24] == Le32(|m.data|)
    ensures SameRead(b, Blob(m))
  {
    hide Payload, Packable, Checksum, Le32;
    var h, v := Header(m), b[4..6];
    assert v[0] == 1 && v[1] == 0;
    assert h == MAGIC + [1, 0] + Le16(0) + b[8..12] + b[12..16] + b[16..20] + b[20..24] + Le32(0) + b[28..32];
    forall k | 0 <= k < |b| && !Unread(k) ensures b[k] == Blob(m)[k] {
      if k >= HEADER_SIZE { assert b[k] == b[HEADER_SIZE..][k - HEADER_SIZE]; }
    }
  }

  lemma SameParse(b: seq<Byte>, c: seq<Byte>)
    requires SameRead(b, c) && |b| >= HEADER_SIZE
    ensures Parse(b) == Parse(c)
  {
    hide Checksum, UnpackAll, Word32, Word16;
    assert b[..4] == c[..4] && b[4..6] == c[4..6] && b[8..12] == c[8..12] && b[12..16] == c[12..16];
    assert b[16..20] == c[16..20] && b[20..24] == c[20..24] && b[28..32] == c[28..32];
    assert b[HEADER_SIZE..] == c[HEADER_SIZE..];
    if Parse(b).Some? || Parse(c).Some? {
      var strings, nodes, props := Word32(b[8..12]), Word32(b[12..16]), Word32(b[16..20]);
      var at1 := HEADER_SIZE + strings;
      var at2 := at1 + RECORD_SIZE * nodes;
      SameUnpacked(b, c, at1, nodes);
      SameUnpacked(b, c, at2, props);
      assert b[HEADER_SIZE..at1] == c[HEADER_SIZE..at1];
      assert b[at2 + RECORD_SIZE * props..] == c[at2 + RECORD_SIZE * props..];
    }
  }

  lemma SameUnpacked(b: seq<Byte>, c: seq<Byte>, at: nat, n: nat)
    requires SameRead(b, c) && HEADER_SIZE <= at && at + RECORD_SIZE * n <= |b|
    ensures UnpackAll(b, at, n) == UnpackAll(c, at, n)
  {
    hide Word32;
    forall i | 0 <= i < n ensures Unpack(b, at + RECORD_SIZE * i) == Unpack(c, at + RECORD_SIZE * i) {
      var p := at + RECORD_SIZE * i;
      assert p + RECORD_SIZE <= at + RECORD_SIZE * n;
      assert b[p..p + 4] == c[p..p + 4] && b[p + 4..p + 8] == c[p + 4..p + 8] && b[p + 8..p + 12] == c[p + 8..p + 12];
      assert b[p + 12..p + 16] == c[p + 12..p + 16] && b[p + 16..p + 20] == c[p + 16..p + 20];
    }
  }

  /** A packed overlay begins with "RADO", version 1 and no flags; then come the four sizes, a reserved word
      and the checksum of what follows. */
  lemma BlobBegins(m: Image)
    requires Packable(m)
    ensures var b := Blob(m);
            && |b| >= 32 && b[..4] == ['R' as int, 'A' as int, 'D' as int, 'O' as int] && b[4..8] == [1, 0, 0, 0]
            && Word32(b[8..12]) == |m.strings| && Word32(b[12..16]) == |m.nodes| && Word32(b[16..20]) == |m.props|
            && Word32(b[20..24]) == |m.data| && b[24..28] == [0, 0, 0, 0] && b[28..32] == Checksum(b[32..])
  {
    hide Payload, Checksum, Packable, Word32;
    SizesRead(m);
    BlobParts(m);
    var b, h := Blob(m), Header(m);
    assert Le16(VERSION) == [1, 0] && Le16(0) == [0, 0] && Le32(0) == [0, 0, 0, 0];
    assert h[4..8] == [1, 0, 0, 0] && h[24..28] == [0, 0, 0, 0] && h[28..32] == Checksum(Payload(m));
    assert b[4..8] == h[4..8] && b[24..28] == h[24..28];
  }

  /** The five words of a node record and of a property record, in order. */
  lemma RecordWords(n: NodeRec, p: PropRec)
    requires WordsFit(OfNode(n)) && WordsFit(OfProp(p))
    ensures var b := Pack(OfNode(n));
            && Word32(b[..4]) == n.path && Word32(b[4..8]) == n.name && Word32(b[8..12]) == n.parent
            && Word32(b[12..16]) == n.start && Word32(b[16..20]) == n.count
    ensures var b := Pack(OfProp(p));
            && Word32(b[..4]) == p.node && Word32(b[4..8]) == p.name && Word32(b[8..12]) == p.kind
            && Word32(b[12..16]) == p.value && Word32(b[16..20]) == p.size
  {
    hide Le32, Word32, Pack;
    PackParts(OfNode(n));
    PackParts(OfProp(p));
    UnpackPack(OfNode(n), Pack(OfNode(n)), 0);
    UnpackPack(OfProp(p), Pack(OfProp(p)), 0);
  }
}
