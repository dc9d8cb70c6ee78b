/** The CRC-32 of section 8 of RFC 1952, one bit at a time from the low end, and the changes it
    always detects. */
module Crc {
  const POLYNOMIAL: bv32 := 0xedb88320

  // the bit operations, named so that most proofs need not look inside
  function Not(c: bv32): bv32 { !c }

  function Xor(a: bv32, b: bv32): bv32 { a ^ b }

  function Half(c: bv32): bv32 { c >> 1 }

  function Low(c: bv32): bv32 { c & 1 }

  function Fold(bit: bv32): bv32 { if bit == 1 then POLYNOMIAL else 0 }

  /** One bit: shift, and fold the bit that fell out back in. */
  function ShiftBit(c: bv32): bv32 { Xor(Half(c), Fold(Low(c))) }

  function ShiftBits(c: bv32, n: nat): bv32
    decreases n
  {
    if n == 0 then c else ShiftBits(ShiftBit(c), n - 1)
  }

  function Feed(c: bv32, b: bv8): bv32 { ShiftBits(Xor(c, b as bv32), 8) }

  function Raw(c: bv32, data: seq<bv8>): bv32
    decreases |data|
  {
    if data == [] then c else Raw(Feed(c, data[0]), data[1..])
  }

  function Update(crc: bv32, data: seq<bv8>): bv32 { Not(Raw(Not(crc), data)) }

  lemma MaskedFold(r: bv32)
    ensures POLYNOMIAL & (0 - (r & 1)) == Fold(Low(r))
  {
    LowBit(r);
    if r & 1 == 0 { assert POLYNOMIAL & (0 - 0) == 0; } else { assert POLYNOMIAL & (0 - 1) == POLYNOMIAL; }
  }

  method FeedByte(c: bv32, b: bv8) returns (r: bv32)
    ensures r == Feed(c, b)
  {
    hide Fold;
    r := c ^ (b as bv32);
    var bit := 0;
    while bit < 8
      invariant 0 <= bit <= 8 && Feed(c, b) == ShiftBits(r, 8 - bit)
    {
      MaskedFold(r);
      r := (r >> 1) ^ (POLYNOMIAL & (0 - (r & 1)));
      bit := bit + 1;
    }
  }

  method Crc32Update(crc: bv32, data: seq<bv8>) returns (r: bv32)
    ensures r == Update(crc, data)
  {
    hide Feed;
    r := !crc;
    var i := 0;
    assert data[0..] == data;
    while i < |data|
      invariant 0 <= i <= |data| && Raw(Not(crc), data) == Raw(r, data[i..])
    {
      assert data[i..][1..] == data[i + 1..];
      r := FeedByte(r, data[i]);
      i := i + 1;
    }
    r := !r;
  }

  lemma {:induction false} RawConcat(c: bv32, a: seq<bv8>, b: seq<bv8>)
    ensures Raw(c, a + b) == Raw(Raw(c, a), b)
    decreases |a|
  {
    hide Feed;
    if a == [] {
      assert a + b == b;
    } else {
      assert (a + b)[1..] == a[1..] + b;
      RawConcat(Feed(c, a[0]), a[1..], b);
    }
  }

  lemma Twice(c: bv32)
    ensures Not(Not(c)) == c
  {}

  /** The checksum of a concatenation is that of chained calls. */
  lemma UpdateConcat(crc: bv32, a: seq<bv8>, b: seq<bv8>)
    ensures Update(crc, a + b) == Update(Update(crc, a), b)
  {
    hide Raw, Not;
    RawConcat(Not(crc), a, b);
    Twice(Raw(Not(crc), a));
  }

  // ----- no state is reached from two

  lemma ShiftBitInjective(a: bv32, b: bv32)
    requires a != b
    ensures ShiftBit(a) != ShiftBit(b)
  {}

  lemma {:induction false} ShiftBitsInjective(a: bv32, b: bv32, n: nat)
    requires a != b
    ensures ShiftBits(a, n) != ShiftBits(b, n)
    decreases n
  {
    hide ShiftBit;
    if n > 0 {
      ShiftBitInjective(a, b);
      ShiftBitsInjective(ShiftBit(a), ShiftBit(b), n - 1);
    }
  }

  lemma XorInjective(a: bv32, b: bv32, x: bv32)
    requires a != b
    ensures Xor(a, x) != Xor(b, x)
  {}

  lemma XorByte(c: bv32, x: bv8, y: bv8)
    requires x != y
    ensures Xor(c, x as bv32) != Xor(c, y as bv32)
  {}

  lemma FeedState(a: bv32, b: bv32, x: bv8)
    requires a != b
    ensures Feed(a, x) != Feed(b, x)
  {
    hide ShiftBits, Xor;
    XorInjective(a, b, x as bv32);
    ShiftBitsInjective(Xor(a, x as bv32), Xor(b, x as bv32), 8);
  }

  lemma FeedData(c: bv32, x: bv8, y: bv8)
    requires x != y
    ensures Feed(c, x) != Feed(c, y)
  {
    hide ShiftBits, Xor;
    XorByte(c, x, y);
    ShiftBitsInjective(Xor(c, x as bv32), Xor(c, y as bv32), 8);
  }

  /** Different states stay different on the same data. */
  lemma {:induction false} RawInjective(a: bv32, b: bv32, data: seq<bv8>)
    requires a != b
    ensures Raw(a, data) != Raw(b, data)
    decreases |data|
  {
    hide Feed;
    if data != [] {
      FeedState(a, b, data[0]);
      RawInjective(Feed(a, data[0]), Feed(b, data[0]), data[1..]);
    }
  }

  lemma Complement(a: bv32, b: bv32)
    requires a != b
    ensures Not(a) != Not(b)
  {}

  /** Data that agree before and after a stretch, and whose stretches lead to different states, have
      different checksums. */
  lemma StretchDetected(crc: bv32, a: seq<bv8>, b: seq<bv8>, i: nat, j: nat)
    requires |a| == |b| && i <= j <= |a| && a[..i] == b[..i] && a[j..] == b[j..]
    requires Raw(Raw(Not(crc), a[..i]), a[i..j]) != Raw(Raw(Not(crc), a[..i]), b[i..j])
    ensures Update(crc, a) != Update(crc, b)
  {
    hide Raw, Not;
    Split(Not(crc), a, i, j);
    Split(Not(crc), b, i, j);
    var c := Raw(Not(crc), a[..i]);
    RawInjective(Raw(c, a[i..j]), Raw(c, b[i..j]), a[j..]);
    Complement(Raw(Not(crc), a), Raw(Not(crc), b));
  }

  lemma Split(c: bv32, a: seq<bv8>, i: nat, j: nat)
    requires i <= j <= |a|
    ensures Raw(c, a) == Raw(Raw(Raw(c, a[..i]), a[i..j]), a[j..])
  {
    hide Raw;
    assert a == (a[..i] + a[i..j]) + a[j..];
    RawConcat(c, a[..i] + a[i..j], a[j..]);
    RawConcat(c, a[..i], a[i..j]);
  }

  lemma RawOne(c: bv32, data: seq<bv8>)
    requires |data| == 1
    ensures Raw(c, data) == Feed(c, data[0])
  {
    hide Feed;
    assert Raw(Feed(c, data[0]), data[1..]) == Feed(c, data[0]);
  }

  /** Two sequences that differ in one byte have different checksums. */
  lemma OneByteDetected(crc: bv32, a: seq<bv8>, b: seq<bv8>, i: nat)
    requires |a| == |b| && i < |a| && a[i] != b[i]
    requires forall k :: 0 <= k < |a| && k != i ==> a[k] == b[k]
    ensures Update(crc, a) != Update(crc, b)
  {
    hide Raw, Feed, Update, Not;
    var c := Raw(Not(crc), a[..i]);
    RawOne(c, a[i..i + 1]);
    RawOne(c, b[i..i + 1]);
    FeedData(c, a[i], b[i]);
    StretchDetected(crc, a, b, i, i + 1);
  }

  // ----- bursts of up to four bytes

  lemma LowBit(a: bv32)
    ensures Low(a) == 0 || Low(a) == 1
  {}

  lemma ShiftXor(a: bv32, b: bv32)
    ensures Half(Xor(a, b)) == Xor(Half(a), Half(b)) && Low(Xor(a, b)) == Xor(Low(a), Low(b))
  {}

  lemma FoldXor(x: bv32, y: bv32)
    requires (x == 0 || x == 1) && (y == 0 || y == 1)
    ensures Fold(Xor(x, y)) == Xor(Fold(x), Fold(y))
  {
    assert POLYNOMIAL ^ POLYNOMIAL == 0;
    if x == 0 {
      assert x ^ y == y;
    } else if y == 0 {
      assert x ^ y == x;
    } else {
      assert x ^ y == 0;
    }
  }

  lemma XorAssociative(a: bv32, b: bv32, c: bv32)
    ensures Xor(Xor(a, b), c) == Xor(a, Xor(b, c))
  {}

  lemma XorCommutes(a: bv32, b: bv32)
    ensures Xor(a, b) == Xor(b, a)
  {}

  lemma Mix(u: bv32, v: bv32, p: bv32, q: bv32)
    ensures Xor(Xor(u, v), Xor(p, q)) == Xor(Xor(u, p), Xor(v, q))
  {
    hide Xor;
    XorAssociative(u, v, Xor(p, q));
    XorAssociative(v, p, q);
    XorCommutes(v, p);
    XorAssociative(p, v, q);
    XorAssociative(u, p, Xor(v, q));
  }

  lemma ShiftLinear(a: bv32, b: bv32)
    ensures ShiftBit(Xor(a, b)) == Xor(ShiftBit(a), ShiftBit(b))
  {
    hide Fold, Xor, Half, Low;
    ShiftXor(a, b);
    LowBit(a);
    LowBit(b);
    FoldXor(Low(a), Low(b));
    Mix(Half(a), Half(b), Fold(Low(a)), Fold(Low(b)));
  }

  lemma {:induction false} ShiftsLinear(a: bv32, b: bv32, n: nat)
    ensures ShiftBits(Xor(a, b), n) == Xor(ShiftBits(a, n), ShiftBits(b, n))
    decreases n
  {
    hide ShiftBit, Xor;
    if n > 0 {
      ShiftLinear(a, b);
      ShiftsLinear(ShiftBit(a), ShiftBit(b), n - 1);
    }
  }

  lemma NextBit(c: bv32, d: bv32, n: nat)
    requires ShiftBit(c) == d
    ensures ShiftBits(c, n + 1) == ShiftBits(d, n)
  {}

  lemma NoBits(c: bv32)
    ensures ShiftBits(c, 0) == c
  {}

  /** The lowest bit of `c` is clear, and `d` is the rest. */
  predicate Even(c: bv32, d: bv32) { c & 1 == 0 && d == c >> 1 }

  lemma EvenStep(c: bv32, d: bv32, n: nat)
    requires Even(c, d)
    ensures ShiftBits(c, n + 1) == ShiftBits(d, n)
  {
    NextBit(c, d, n);
  }

  lemma EvenSteps(h: bv32)
    requires h & 0xff == 0
    ensures Even(h, h >> 1) && Even(h >> 1, h >> 2) && Even(h >> 2, h >> 3) && Even(h >> 3, h >> 4)
    ensures Even(h >> 4, h >> 5) && Even(h >> 5, h >> 6) && Even(h >> 6, h >> 7) && Even(h >> 7, h >> 8)
  {}

  /** Bits above the lowest eight are only shifted by one byte's worth of steps. */
  lemma HighBits(h: bv32)
    requires h & 0xff == 0
    ensures ShiftBits(h, 8) == h >> 8
  {
    hide Even, ShiftBits;
    EvenSteps(h);
    EightSteps(h, h >> 1, h >> 2, h >> 3, h >> 4, h >> 5, h >> 6, h >> 7, h >> 8);
  }

  lemma EightSteps(h: bv32, h1: bv32, h2: bv32, h3: bv32, h4: bv32, h5: bv32, h6: bv32, h7: bv32, h8: bv32)
    requires Even(h, h1) && Even(h1, h2) && Even(h2, h3) && Even(h3, h4)
    requires Even(h4, h5) && Even(h5, h6) && Even(h6, h7) && Even(h7, h8)
    ensures ShiftBits(h, 8) == h8
  {
    hide Even, ShiftBits;
    EvenStep(h, h1, 7);
    EvenStep(h1, h2, 6);
    EvenStep(h2, h3, 5);
    EvenStep(h3, h4, 4);
    EvenStep(h4, h5, 3);
    EvenStep(h5, h6, 2);
    EvenStep(h6, h7, 1);
    EvenStep(h7, h8, 0);
    NoBits(h8);
  }

  // four bytes are one 32-bit word, shifted in at once

  lemma ShiftsAdd(c: bv32, m: nat, n: nat)
    ensures ShiftBits(ShiftBits(c, m), n) == ShiftBits(c, m + n)
    decreases m
  {
    hide ShiftBit;
    if m > 0 { ShiftsAdd(ShiftBit(c), m - 1, n); }
  }

  /** The lowest byte of `x` is `b`, and `y` is the rest. */
  predicate Byte(x: bv32, b: bv8, y: bv32) { x & 0xff == b as bv32 && y == x >> 8 }

  function High(x: bv32): bv32 { x & 0xffff_ff00 }

  lemma SplitByte(x: bv32, b: bv8, y: bv32)
    requires Byte(x, b, y)
    ensures x == Xor(b as bv32, High(x)) && ShiftBits(High(x), 8) == y
  {
    hide Xor, ShiftBits, High, Byte;
    LowPart(x, b, y);
    HighPart(x, b, y);
  }

  lemma LowPart(x: bv32, b: bv8, y: bv32)
    requires Byte(x, b, y)
    ensures x == Xor(b as bv32, High(x))
  {}

  lemma HighPart(x: bv32, b: bv8, y: bv32)
    requires Byte(x, b, y)
    ensures ShiftBits(High(x), 8) == y
  {
    hide ShiftBits;
    HighBits(High(x));
  }

  /** Feeding a byte is shifting by eight with the rest of the word yet to come. */
  lemma FeedLow(c: bv32, x: bv32, b: bv8, y: bv32)
    requires Byte(x, b, y)
    ensures ShiftBits(Xor(c, x), 8) == Xor(Feed(c, b), y)
  {
    hide Xor, ShiftBits, Byte, High;
    SplitByte(x, b, y);
    XorAssociative(c, b as bv32, High(x));
    ShiftsLinear(Xor(c, b as bv32), High(x), 8);
  }

  function Word(b0: bv8, b1: bv8, b2: bv8, b3: bv8): bv32 {
    (b0 as bv32) | ((b1 as bv32) << 8) | ((b2 as bv32) << 16) | ((b3 as bv32) << 24)
  }

  lemma WordBytes(b0: bv8, b1: bv8, b2: bv8, b3: bv8, x: bv32)
    requires x == Word(b0, b1, b2, b3)
    ensures Byte(x, b0, x >> 8) && Byte(x >> 8, b1, x >> 16) && Byte(x >> 16, b2, x >> 24) && Byte(x >> 24, b3, 0)
  {}

  lemma XorZero(c: bv32)
    ensures Xor(c, 0) == c
  {}

  lemma FourSteps(c: bv32, b0: bv8, b1: bv8, b2: bv8, b3: bv8, x: bv32, x1: bv32, x2: bv32, x3: bv32)
    requires Byte(x, b0, x1) && Byte(x1, b1, x2) && Byte(x2, b2, x3) && Byte(x3, b3, 0)
    ensures Feed(Feed(Feed(Feed(c, b0), b1), b2), b3) == ShiftBits(Xor(c, x), 32)
  {
    hide Xor, ShiftBits, Byte, Feed;
    var c1 := Feed(c, b0);
    var c2 := Feed(c1, b1);
    var c3 := Feed(c2, b2);
    FeedLow(c, x, b0, x1);
    FeedLow(c1, x1, b1, x2);
    FeedLow(c2, x2, b2, x3);
    FeedLow(c3, x3, b3, 0);
    XorZero(Feed(c3, b3));
    ShiftsAdd(Xor(c, x), 8, 24);
    ShiftsAdd(Xor(c1, x1), 8, 16);
    ShiftsAdd(Xor(c2, x2), 8, 8);
  }

  lemma RawFour(c: bv32, a: seq<bv8>)
    requires |a| == 4
    ensures Raw(c, a) == Feed(Feed(Feed(Feed(c, a[0]), a[1]), a[2]), a[3])
  {
    hide Feed;
    var c1 := Feed(c, a[0]);
    var c2 := Feed(c1, a[1]);
    var c3 := Feed(c2, a[2]);
    assert a[1..][1..] == a[2..] && a[2..][1..] == a[3..] && a[3..][1..] == [];
    assert Raw(c1, a[1..]) == Raw(c2, a[2..]);
    assert Raw(c2, a[2..]) == Raw(c3, a[3..]);
    RawOne(c3, a[3..]);
  }

  lemma WordsDiffer(a: seq<bv8>, b: seq<bv8>, x: bv32, y: bv32)
    requires |a| == |b| == 4 && a != b
    requires x == Word(a[0], a[1], a[2], a[3]) && y == Word(b[0], b[1], b[2], b[3])
    ensures x != y
  {
    hide Word;
    WordBytes(a[0], a[1], a[2], a[3], x);
    WordBytes(b[0], b[1], b[2], b[3], y);
    SameByte(x, a[0], x >> 8, b[0], y >> 8);
    SameByte(x >> 8, a[1], x >> 16, b[1], y >> 16);
    SameByte(x >> 16, a[2], x >> 24, b[2], y >> 24);
    SameByte(x >> 24, a[3], 0, b[3], 0);
  }

  lemma SameByte(x: bv32, a: bv8, r: bv32, b: bv8, q: bv32)
    requires Byte(x, a, r)
    ensures Byte(x, b, q) ==> a == b
  {}

  lemma FourBytesDiffer(c: bv32, a: seq<bv8>, b: seq<bv8>)
    requires |a| == |b| == 4 && a != b
    ensures Raw(c, a) != Raw(c, b)
  {
    hide Raw, Feed, Xor, ShiftBits, Word, Byte;
    var x, y := Word(a[0], a[1], a[2], a[3]), Word(b[0], b[1], b[2], b[3]);
    WordsDiffer(a, b, x, y);
    RawFour(c, a);
    RawFour(c, b);
    WordBytes(a[0], a[1], a[2], a[3], x);
    WordBytes(b[0], b[1], b[2], b[3], y);
    FourSteps(c, a[0], a[1], a[2], a[3], x, x >> 8, x >> 16, x >> 24);
    FourSteps(c, b[0], b[1], b[2], b[3], y, y >> 8, y >> 16, y >> 24);
    XorCommutes(c, x);
    XorCommutes(c, y);
    XorInjective(x, y, c);
    ShiftBitsInjective(Xor(c, x), Xor(c, y), 32);
  }

  /** Any change confined to four neighbouring bytes changes the checksum. */
  lemma BurstDetected(crc: bv32, a: seq<bv8>, b: seq<bv8>, i: nat)
    requires |a| == |b| && i + 4 <= |a| && a != b
    requires forall k :: 0 <= k < |a| && !(i <= k < i + 4) ==> a[k] == b[k]
    ensures Update(crc, a) != Update(crc, b)
  {
    hide Raw, Update, Not;
    assert a[..i] == b[..i] && a[i + 4..] == b[i + 4..];
    assert a == a[..i] + a[i..i + 4] + a[i + 4..] && b == b[..i] + b[i..i + 4] + b[i + 4..];
    FourBytesDiffer(Raw(Not(crc), a[..i]), a[i..i + 4], b[i..i + 4]);
    StretchDetected(crc, a, b, i, i + 4);
  }

  // ----- known values

  /** One bit shifted out, by the mask of the driver's loop. */
  predicate Out(c: bv32, d: bv32) { d == (c >> 1) ^ (0xedb88320 & (0 - (c & 1))) }

  lemma OutIsShift(c: bv32, d: bv32)
    requires Out(c, d)
    ensures ShiftBit(c) == d
  {
    MaskedFold(c);
  }

  lemma ByteOut(c: bv32, c1: bv32, c2: bv32, c3: bv32, c4: bv32, c5: bv32, c6: bv32, c7: bv32, c8: bv32)
    requires Out(c, c1) && Out(c1, c2) && Out(c2, c3) && Out(c3, c4)
    requires Out(c4, c5) && Out(c5, c6) && Out(c6, c7) && Out(c7, c8)
    ensures ShiftBits(c, 8) == c8
  {
    hide ShiftBit, Out;
    OutIsShift(c, c1);
    OutIsShift(c1, c2);
    OutIsShift(c2, c3);
    OutIsShift(c3, c4);
    OutIsShift(c4, c5);
    OutIsShift(c5, c6);
    OutIsShift(c6, c7);
    OutIsShift(c7, c8);
    NextBit(c, c1, 7);
    NextBit(c1, c2, 6);
    NextBit(c2, c3, 5);
    NextBit(c3, c4, 4);
    NextBit(c4, c5, 3);
    NextBit(c5, c6, 2);
    NextBit(c6, c7, 1);
    NextBit(c7, c8, 0);
    NoBits(c8);
  }

  /** The registers of the nine digits, shifted out. */
  lemma DigitsOut()
    ensures ShiftBits(0xffffffce, 8) == 0x7c231048
    ensures ShiftBits(0x7c23107a, 8) == 0xb0acbb32
    ensures ShiftBits(0xb0acbb01, 8) == 0x77b79c2d
    ensures ShiftBits(0x77b79c19, 8) == 0x641c1f5c
    ensures ShiftBits(0x641c1f69, 8) == 0x340ac5e3
    ensures ShiftBits(0x340ac5d5, 8) == 0xf68d2c9e
    ensures ShiftBits(0xf68d2ca9, 8) == 0xaffc9660
    ensures ShiftBits(0xaffc9658, 8) == 0x651f2550
    ensures ShiftBits(0x651f2569, 8) == 0x340bc6d9
  {
    hide ShiftBits;
    ByteOut(0xffffffce, 0x7fffffe7, 0xd2477cd3, 0x849b3d49, 0xaff51d84,
        0x57fa8ec2, 0x2bfd4761, 0xf8462090, 0x7c231048);
    ByteOut(0x7c23107a, 0x3e11883d, 0xf2b0473e, 0x7958239f, 0xd11492ef,
        0x8532ca57, 0xaf21e60b, 0xba287025, 0xb0acbb32);
    ByteOut(0xb0acbb01, 0xb5eedea0, 0x5af76f50, 0x2d7bb7a8, 0x16bddbd4,
        0x0b5eedea, 0x05af76f5, 0xef6f385a, 0x77b79c2d);
    ByteOut(0x77b79c19, 0xd6634d2c, 0x6b31a696, 0x3598d34b, 0xf774ea85,
        0x9602f662, 0x4b017b31, 0xc8383eb8, 0x641c1f5c);
    ByteOut(0x641c1f69, 0xdfb68c94, 0x6fdb464a, 0x37eda325, 0xf64e52b2,
        0x7b272959, 0xd02b178c, 0x68158bc6, 0x340ac5e3);
    ByteOut(0x340ac5d5, 0xf7bde1ca, 0x7bdef0e5, 0xd057fb52, 0x682bfda9,
        0xd9ad7df4, 0x6cd6befa, 0x366b5f7d, 0xf68d2c9e);
    ByteOut(0xf68d2ca9, 0x96fe1574, 0x4b7f0aba, 0x25bf855d, 0xff67418e,
        0x7fb3a0c7, 0xd2615343, 0x84882a81, 0xaffc9660);
    ByteOut(0xaffc9658, 0x57fe4b2c, 0x2bff2596, 0x15ff92cb, 0xe7474a45,
        0x9e1b2602, 0x4f0d9301, 0xca3e4aa0, 0x651f2550);
    ByteOut(0x651f2569, 0xdf371194, 0x6f9b88ca, 0x37cdc465, 0xf65e6112,
        0x7b2f3089, 0xd02f1b64, 0x68178db2, 0x340bc6d9);
  }

  /** 32 ones, shifted out byte by byte. */
  lemma OnesOut()
    ensures ShiftBits(0xffffffff, 8) == 0x2dfd1072
    ensures ShiftBits(0x2dfd1072, 8) == 0xbe26ed00
    ensures ShiftBits(0xbe26ed00, 8) == 0x00be26ed
    ensures ShiftBits(0x00be26ed, 8) == 0xdebb20e3
  {
    hide ShiftBits;
    ByteOut(0xffffffff, 0x92477cdf, 0xa49b3d4f, 0xbff51d87, 0xb2420de3,
        0xb49985d1, 0xb7f441c8, 0x5bfa20e4, 0x2dfd1072);
    ByteOut(0x2dfd1072, 0x16fe8839, 0xe6c7c73c, 0x7363e39e, 0x39b1f1cf,
        0xf1607bc7, 0x9508bec3, 0xa73cdc41, 0xbe26ed00);
    ByteOut(0xbe26ed00, 0x5f137680, 0x2f89bb40, 0x17c4dda0, 0x0be26ed0,
        0x05f13768, 0x02f89bb4, 0x017c4dda, 0x00be26ed);
    ByteOut(0x00be26ed, 0xede79056, 0x76f3c82b, 0xd6c16735, 0x86d830ba,
        0x436c185d, 0xcc0e8f0e, 0x66074787, 0xdebb20e3);
  }

  lemma FeedIs(c: bv32, b: bv8, x: bv32, r: bv32)
    requires Xor(c, b as bv32) == x && ShiftBits(x, 8) == r
    ensures Feed(c, b) == r
  {
    hide Xor, ShiftBits;
  }

  lemma RawNext(c: bv32, b: bv8, d: bv32, rest: seq<bv8>)
    requires Feed(c, b) == d
    ensures Raw(c, [b] + rest) == Raw(d, rest)
  {
    hide Feed;
    assert ([b] + rest)[1..] == rest;
  }

  /** The check value of this checksum: what it gives for the nine digits "123456789". */
  lemma CheckValue()
    ensures Update(0, [0x31, 0x32, 0x33, 0x34, 0x35, 0x36, 0x37, 0x38, 0x39]) == 0xcbf43926
  {
    hide Feed, Raw, ShiftBits;
    DigitsOut();
    FeedIs(0xffffffff, 0x31, 0xffffffce, 0x7c231048);
    FeedIs(0x7c231048, 0x32, 0x7c23107a, 0xb0acbb32);
    FeedIs(0xb0acbb32, 0x33, 0xb0acbb01, 0x77b79c2d);
    FeedIs(0x77b79c2d, 0x34, 0x77b79c19, 0x641c1f5c);
    FeedIs(0x641c1f5c, 0x35, 0x641c1f69, 0x340ac5e3);
    FeedIs(0x340ac5e3, 0x36, 0x340ac5d5, 0xf68d2c9e);
    FeedIs(0xf68d2c9e, 0x37, 0xf68d2ca9, 0xaffc9660);
    FeedIs(0xaffc9660, 0x38, 0xaffc9658, 0x651f2550);
    FeedIs(0x651f2550, 0x39, 0x651f2569, 0x340bc6d9);
    var d0: seq<bv8> := [0x32, 0x33, 0x34, 0x35, 0x36, 0x37, 0x38, 0x39];
    RawNext(0xffffffff, 0x31, 0x7c231048, d0);
    assert [0x31] + d0 == [0x31, 0x32, 0x33, 0x34, 0x35, 0x36, 0x37, 0x38, 0x39];
    var d1: seq<bv8> := [0x33, 0x34, 0x35, 0x36, 0x37, 0x38, 0x39];
    RawNext(0x7c231048, 0x32, 0xb0acbb32, d1);
    assert [0x32] + d1 == [0x32, 0x33, 0x34, 0x35, 0x36, 0x37, 0x38, 0x39];
    var d2: seq<bv8> := [0x34, 0x35, 0x36, 0x37, 0x38, 0x39];
    RawNext(0xb0acbb32, 0x33, 0x77b79c2d, d2);
    assert [0x33] + d2 == [0x33, 0x34, 0x35, 0x36, 0x37, 0x38, 0x39];
    var d3: seq<bv8> := [0x35, 0x36, 0x37, 0x38, 0x39];
    RawNext(0x77b79c2d, 0x34, 0x641c1f5c, d3);
    assert [0x34] + d3 == [0x34, 0x35, 0x36, 0x37, 0x38, 0x39];
    var d4: seq<bv8> := [0x36, 0x37, 0x38, 0x39];
    RawNext(0x641c1f5c, 0x35, 0x340ac5e3, d4);
    assert [0x35] + d4 == [0x35, 0x36, 0x37, 0x38, 0x39];
    var d5: seq<bv8> := [0x37, 0x38, 0x39];
    RawNext(0x340ac5e3, 0x36, 0xf68d2c9e, d5);
    assert [0x36] + d5 == [0x36, 0x37, 0x38, 0x39];
    var d6: seq<bv8> := [0x38, 0x39];
    RawNext(0xf68d2c9e, 0x37, 0xaffc9660, d6);
    assert [0x37] + d6 == [0x37, 0x38, 0x39];
    var d7: seq<bv8> := [0x39];
    RawNext(0xaffc9660, 0x38, 0x651f2550, d7);
    assert [0x38] + d7 == [0x38, 0x39];
    var d8: seq<bv8> := [];
    RawNext(0x651f2550, 0x39, 0x340bc6d9, d8);
    assert [0x39] + d8 == [0x39];
    RawEnd(0x340bc6d9);
  }

  lemma RawEnd(c: bv32)
    ensures Raw(c, []) == c
  {}

  /** Data followed by its own checksum, lowest byte first, always has this one checksum. */
  lemma ChecksumAppended(data: seq<bv8>, sum: seq<bv8>)
    requires |sum| == 4 && Word(sum[0], sum[1], sum[2], sum[3]) == Update(0, data)
    ensures Update(0, data + sum) == 0x2144df1c
  {
    hide Raw, Feed, Xor, ShiftBits, Word, Byte;
    var c := Raw(Not(0), data);
    var x := Word(sum[0], sum[1], sum[2], sum[3]);
    RawConcat(Not(0), data, sum);
    RawFour(c, sum);
    WordBytes(sum[0], sum[1], sum[2], sum[3], x);
    FourSteps(c, sum[0], sum[1], sum[2], sum[3], x, x >> 8, x >> 16, x >> 24);
    XorNot(c);
    OnesOut();
    ShiftsAdd(0xffffffff, 8, 24);
    ShiftsAdd(0x2dfd1072, 8, 16);
    ShiftsAdd(0xbe26ed00, 8, 8);
  }

  lemma XorNot(c: bv32)
    ensures Xor(c, Not(c)) == 0xffffffff
  {}
}
