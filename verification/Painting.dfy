/** What the compositor's paint loop computes, as functions of the surface table.

    `DrawOrder` is the order in which `draw_surfaces_for_rect` visits the table, quirks
    included.  `Paint` is the independent reference: the colour a pixel has when every
    visible surface over it is laid down from the lowest z to the highest. */
module Painting {
  const INT32_MIN := -0x8000_0000
  const INT32_MAX := 0x7fff_ffff

  type Pixel = p: int | 0 <= p < 0x1_0000_0000

  datatype Rect = Rect(x: int, y: int, width: int, height: int)

  datatype Surface = Surface(
    id: nat,            // 0 marks a free slot
    bounds: Rect,
    z: int,
    alpha: bool,
    visible: bool,
    focused: bool,
    dirty: bool,
    pixels: seq<Pixel>,
    stride: nat)

  const NO_SURFACE := Surface(0, Rect(0, 0, 0, 0), 0, false, false, false, false, [], 0)

  // ----- rectangles

  predicate Inside(r: Rect, x: int, y: int) {
    r.x <= x < r.x + r.width && r.y <= y < r.y + r.height
  }

  function Max(a: int, b: int): int { if a > b then a else b }

  function Min(a: int, b: int): int { if a < b then a else b }

  datatype MaybeRect = Disjoint | Overlap(rect: Rect)

  function Intersect(a: Rect, b: Rect): (r: MaybeRect)
    ensures r.Overlap? ==> r.rect.width > 0 && r.rect.height > 0
  {
    var x0, y0 := Max(a.x, b.x), Max(a.y, b.y);
    var x1, y1 := Min(a.x + a.width, b.x + b.width), Min(a.y + a.height, b.y + b.height);
    if x1 <= x0 || y1 <= y0 then Disjoint else Overlap(Rect(x0, y0, x1 - x0, y1 - y0))
  }

  /** The overlap holds exactly the points of both rectangles, and is missing exactly when
      they share none. */
  lemma IntersectPoints(a: Rect, b: Rect)
    ensures forall x, y :: Inside(a, x, y) && Inside(b, x, y) <==>
              Intersect(a, b).Overlap? && Inside(Intersect(a, b).rect, x, y)
    ensures Intersect(a, b).Overlap? <==> exists x, y :: Inside(a, x, y) && Inside(b, x, y)
  {
    var r := Intersect(a, b);
    if r.Overlap? {
      assert Inside(a, r.rect.x, r.rect.y) && Inside(b, r.rect.x, r.rect.y);
    }
  }

  // ----- one pixel

  function Channel(p: Pixel, shift: nat): (c: nat)
    requires shift in {1, 0x100, 0x1_0000, 0x100_0000}
    ensures c <= 255
  {
    p / shift % 256
  }

  function Mix(s: nat, d: nat, alpha: nat): (c: nat)
    requires s <= 255 && d <= 255 && alpha <= 255
    ensures Min(s, d) <= c <= Max(s, d)
  {
    var inv := 255 - alpha;
    var lo, hi := Min(s, d), Max(s, d);
    assert s * alpha + d * inv <= 255 * hi by {
      MulMono(s, hi, alpha); MulMono(d, hi, inv); assert hi * alpha + hi * inv == 255 * hi;
    }
    assert 255 * lo <= s * alpha + d * inv by {
      MulMono(lo, s, alpha); MulMono(lo, d, inv); assert lo * alpha + lo * inv == 255 * lo;
    }
    (s * alpha + d * inv + 127) / 255
  }

  lemma MulMono(a: nat, b: nat, k: nat)
    requires a <= b
    ensures a * k <= b * k
  {}

  function Pack(r: nat, g: nat, b: nat): (p: Pixel)
    requires r < 256 && g < 256 && b < 256
    ensures Channel(p, 0x100_0000) == 255 && Channel(p, 0x1_0000) == r && Channel(p, 0x100) == g && Channel(p, 1) == b
  {
    var p := 0xff00_0000 + r * 0x1_0000 + g * 0x100 + b;
    assert p / 0x100_0000 == 255;
    assert p / 0x1_0000 == 255 * 256 + r;
    assert p / 0x100 == (255 * 256 + r) * 256 + g;
    p
  }

  /** Source-over with 8-bit rounding; the destination's own alpha is ignored. */
  function Blend(dst: Pixel, src: Pixel): Pixel
  {
    var alpha := Channel(src, 0x100_0000);
    if alpha == 255 then src
    else if alpha == 0 then dst
    else Pack(Mix(Channel(src, 0x1_0000), Channel(dst, 0x1_0000), alpha),
              Mix(Channel(src, 0x100), Channel(dst, 0x100), alpha),
              Mix(Channel(src, 1), Channel(dst, 1), alpha))
  }

  /** Every colour channel of a blend lies between the two inputs' channels, and a blend onto
      an opaque pixel is opaque. */
  lemma BlendStaysBetween(dst: Pixel, src: Pixel, shift: nat)
    requires shift in {1, 0x100, 0x1_0000}
    ensures var s, d, c := Channel(src, shift), Channel(dst, shift), Channel(Blend(dst, src), shift);
            Min(s, d) <= c <= Max(s, d)
    ensures Channel(dst, 0x100_0000) == 255 ==> Channel(Blend(dst, src), 0x100_0000) == 255
  {
    var alpha := Channel(src, 0x100_0000);
    if 0 < alpha < 255 {
      assert Channel(Blend(dst, src), shift) == Mix(Channel(src, shift), Channel(dst, shift), alpha);
    }
  }

  /** A colour channel of a blend is the whole number nearest to the average of the two inputs' channels,
      weighted by the source's alpha; a source of full alpha replaces the pixel, one of alpha 0 leaves it,
      and any other gives an opaque pixel. */
  lemma BlendRounds(dst: Pixel, src: Pixel, shift: nat)
    requires shift in {1, 0x100, 0x1_0000}
    ensures var alpha, c := Channel(src, 0x100_0000), Channel(Blend(dst, src), shift);
            var average := Channel(src, shift) * alpha + Channel(dst, shift) * (255 - alpha);
            && -127 <= 255 * c - average <= 127
            && forall n: int {:trigger 255 * n} :: -127 <= 255 * n - average <= 127 ==> n == c
    ensures Channel(src, 0x100_0000) == 255 ==> Blend(dst, src) == src
    ensures Channel(src, 0x100_0000) == 0 ==> Blend(dst, src) == dst
    ensures 0 < Channel(src, 0x100_0000) < 255 ==> Channel(Blend(dst, src), 0x100_0000) == 255
  {
    var s, d, alpha := Channel(src, shift), Channel(dst, shift), Channel(src, 0x100_0000);
    if 0 < alpha < 255 {
      assert Channel(Blend(dst, src), shift) == Mix(s, d, alpha);
    }
  }

  // ----- one surface over one pixel

  /** A buffer of `count` pixels reaches to the last pixel of bounds laid out with this stride. */
  predicate Reaches(count: nat, stride: nat, bounds: Rect) {
    bounds.width > 0 && bounds.height > 0 && Index(bounds.width - 1, bounds.height - 1, stride) < count
  }

  /** A surface whose pixel buffer reaches as far as its bounds. */
  predicate Backed(s: Surface) { s.id != 0 ==> Reaches(|s.pixels|, s.stride, s.bounds) }

  predicate AllBacked(ss: seq<Surface>) { forall i :: 0 <= i < |ss| ==> Backed(ss[i]) }

  function Index(x: int, y: int, stride: int): int { y * stride + x }

  lemma IndexBounds(x: int, y: int, width: int, height: int, stride: int)
    requires 0 <= x < width <= stride && 0 <= y < height
    ensures 0 <= Index(x, y, stride) < stride * height
  {
    assert (y + 1) * stride <= height * stride;
  }

  lemma IndexReached(x: int, y: int, count: nat, stride: nat, bounds: Rect)
    requires Reaches(count, stride, bounds) && 0 <= x < bounds.width && 0 <= y < bounds.height
    ensures 0 <= Index(x, y, stride) < count
  {
    MulMono(y, bounds.height - 1, stride);
  }

  /** Every pixel under the bounds is inside the buffer if and only if the last one is; a caller who
      sets larger bounds makes the paint loop read elsewhere. */
  lemma ReadsInsideIff(count: nat, stride: nat, bounds: Rect)
    requires bounds.width > 0 && bounds.height > 0
    ensures (forall x, y :: 0 <= x < bounds.width && 0 <= y < bounds.height ==> 0 <= Index(x, y, stride) < count) <==>
            Reaches(count, stride, bounds)
  {
    if Reaches(count, stride, bounds) {
      forall x, y | 0 <= x < bounds.width && 0 <= y < bounds.height ensures 0 <= Index(x, y, stride) < count {
        IndexReached(x, y, count, stride, bounds);
      }
    }
  }

  /** Distinct pixels of a buffer never share an index. */
  lemma IndexInjective(x: int, y: int, x': int, y': int, stride: int)
    requires 0 <= x < stride && 0 <= x' < stride && Index(x, y, stride) == Index(x', y', stride)
    ensures x == x' && y == y'
  {
    if y < y' { RowsApart(y, y', stride); }
    if y' < y { RowsApart(y', y, stride); }
  }

  lemma RowsApart(y: int, y': int, stride: int)
    requires y < y' && 0 < stride
    ensures y * stride + stride <= y' * stride
  {
    assert (y + 1) * stride <= y' * stride;
  }

  predicate Covers(s: Surface, x: int, y: int) { s.id != 0 && s.visible && Inside(s.bounds, x, y) }

  /** The surface's own pixel under a global point. */
  function SourcePixel(s: Surface, x: int, y: int): Pixel
    requires Backed(s) && Covers(s, x, y)
  {
    IndexReached(x - s.bounds.x, y - s.bounds.y, |s.pixels|, s.stride, s.bounds);
    s.pixels[Index(x - s.bounds.x, y - s.bounds.y, s.stride)]
  }

  function Over(s: Surface, x: int, y: int, dst: Pixel): Pixel
    requires Backed(s)
  {
    if !Covers(s, x, y) then dst
    else if s.alpha then Blend(dst, SourcePixel(s, x, y))
    else SourcePixel(s, x, y)
  }

  // ----- the order in which the source draws

  predicate Candidate(ss: seq<Surface>, rect: Rect, i: int)
    requires 0 <= i < |ss|
  {
    ss[i].id != 0 && ss[i].visible && Intersect(ss[i].bounds, rect).Overlap?
  }

  datatype MaybeIndex = Nothing | Just(index: nat)

  /** One step of the selection scan over the table. */
  function Consider(ss: seq<Surface>, rect: Rect, lastZ: int, i: nat, next: MaybeIndex): (r: MaybeIndex)
    requires i < |ss| && (next.Just? ==> next.index < |ss|)
    ensures r == next || r == Just(i)
  {
    if ss[i].id == 0 || !ss[i].visible || ss[i].z < lastZ then next
    else if Intersect(ss[i].bounds, rect).Disjoint? then next
    else if ss[i].z == lastZ && next.Just? then next
    else if next.Nothing? || ss[i].z < ss[next.index].z then Just(i)
    else next
  }

  /** The scan over slots 0..n. */
  function Scan(ss: seq<Surface>, rect: Rect, lastZ: int, n: nat): (r: MaybeIndex)
    requires n <= |ss|
    ensures r.Just? ==> r.index < n && Candidate(ss, rect, r.index) && ss[r.index].z >= lastZ
    ensures r.Nothing? ==> forall i :: 0 <= i < n && Candidate(ss, rect, i) ==> ss[i].z < lastZ
  {
    if n == 0 then Nothing else Consider(ss, rect, lastZ, n - 1, Scan(ss, rect, lastZ, n - 1))
  }

  ghost function Remaining(ss: seq<Surface>, rect: Rect, lastZ: int): set<nat> {
    set i: nat | i < |ss| && Candidate(ss, rect, i) && ss[i].z >= lastZ
  }

  lemma RemainingShrinks(ss: seq<Surface>, rect: Rect, lastZ: int, i: nat)
    requires i in Remaining(ss, rect, lastZ)
    ensures |Remaining(ss, rect, ss[i].z + 1)| < |Remaining(ss, rect, lastZ)|
  {
    var a, b := Remaining(ss, rect, ss[i].z + 1), Remaining(ss, rect, lastZ);
    assert a <= b - {i};
    SubsetSize(a, b - {i});
  }

  lemma {:induction false} SubsetSize<T>(a: set<T>, b: set<T>)
    requires a <= b
    ensures |a| <= |b|
  {
    if a != {} {
      var x :| x in a;
      SubsetSize(a - {x}, b - {x});
    }
  }

  /** The slots drawn for one rectangle, in drawing order. */
  ghost function DrawOrder(ss: seq<Surface>, rect: Rect, lastZ: int): seq<nat>
    decreases |Remaining(ss, rect, lastZ)|
  {
    var next := Scan(ss, rect, lastZ, |ss|);
    if next.Nothing? then []
    else
      RemainingShrinks(ss, rect, lastZ, next.index);
      [next.index] + DrawOrder(ss, rect, ss[next.index].z + 1)
  }

  lemma OrderStep(ss: seq<Surface>, rect: Rect, lastZ: int, drawn: seq<nat>)
    ensures var next, rest := Scan(ss, rect, lastZ, |ss|), drawn + DrawOrder(ss, rect, lastZ);
            && (next.Nothing? ==> rest == drawn)
            && (next.Just? ==>
                  && rest == drawn + [next.index] + DrawOrder(ss, rect, ss[next.index].z + 1)
                  && |Remaining(ss, rect, ss[next.index].z + 1)| < |Remaining(ss, rect, lastZ)|)
  {
    var next := Scan(ss, rect, lastZ, |ss|);
    if next.Just? { RemainingShrinks(ss, rect, lastZ, next.index); }
  }

  ghost predicate Slots(ss: seq<Surface>, order: seq<nat>) { forall k :: 0 <= k < |order| ==> order[k] < |ss| }

  lemma LayerStep(ss: seq<Surface>, order: seq<nat>, i: nat, x: int, y: int, base: Pixel)
    requires AllBacked(ss) && Slots(ss, order) && i < |ss|
    ensures Slots(ss, order + [i])
    ensures Layer(ss, order + [i], x, y, base) == Over(ss[i], x, y, Layer(ss, order, x, y, base))
  {
    assert (order + [i])[..|order|] == order;
  }

  /** Laying the surfaces of `order` over `base`, first to last. */
  ghost function Layer(ss: seq<Surface>, order: seq<nat>, x: int, y: int, base: Pixel): Pixel
    requires AllBacked(ss) && Slots(ss, order)
  {
    if order == [] then base
    else Over(ss[order[|order| - 1]], x, y, Layer(ss, order[..|order| - 1], x, y, base))
  }

  // ----- the reference picture

  ghost function Covering(ss: seq<Surface>, x: int, y: int): set<nat> {
    set i: nat | i < |ss| && Covers(ss[i], x, y)
  }

  ghost predicate IsTop(ss: seq<Surface>, live: set<nat>, t: nat) {
    && t in live && t < |ss|
    && forall i :: i in live ==> i < |ss| && ss[i].z <= ss[t].z && (ss[i].z == ss[t].z ==> t <= i)
  }

  lemma {:induction false} TopExists(ss: seq<Surface>, live: set<nat>)
    requires live != {} && forall i :: i in live ==> i < |ss|
    ensures exists t :: IsTop(ss, live, t)
  {
    var i :| i in live;
    if live == {i} {
      assert IsTop(ss, live, i);
    } else {
      TopExists(ss, live - {i});
      var t: nat :| IsTop(ss, live - {i}, t);
      if ss[i].z > ss[t].z || (ss[i].z == ss[t].z && i < t) {
        assert IsTop(ss, live, i);
      } else {
        assert IsTop(ss, live, t);
      }
    }
  }

  /** The top surface of a set: highest z, lowest slot among equals. */
  ghost function Top(ss: seq<Surface>, live: set<nat>): (t: nat)
    requires live != {} && forall i :: i in live ==> i < |ss|
    ensures IsTop(ss, live, t)
  {
    TopExists(ss, live);
    var t :| IsTop(ss, live, t);
    t
  }

  /** Reference colour: the top surface over the picture of everything below it. */
  ghost function Paint(ss: seq<Surface>, live: set<nat>, x: int, y: int, clear: Pixel): Pixel
    requires AllBacked(ss) && forall i :: i in live ==> i < |ss|
  {
    if live == {} then clear
    else
      var t := Top(ss, live);
      Over(ss[t], x, y, Paint(ss, live - {t}, x, y, clear))
  }

  ghost function PixelOfScene(ss: seq<Surface>, x: int, y: int, clear: Pixel): Pixel
    requires AllBacked(ss)
  {
    Paint(ss, Covering(ss, x, y), x, y, clear)
  }

  // ----- when the drawing order is complete

  /** Slot j is lost behind slot i: equal z values, or a lower slot with a higher z whose
      presence makes the scan skip j just when j's z equals the scan's restart value. */
  predicate Hides(ss: seq<Surface>, shown: set<nat>, i: nat, j: nat)
    requires i < |ss| && j < |ss| && forall k :: k in shown ==> k < |ss|
  {
    i != j &&
    (|| ss[i].z == ss[j].z
     || (i < j && ss[i].z > ss[j].z && (ss[j].z == INT32_MIN || exists k :: k in shown && ss[k].z + 1 == ss[j].z)))
  }

  predicate NoClash(ss: seq<Surface>, shown: set<nat>)
    requires forall k :: k in shown ==> k < |ss|
  {
    forall i, j :: i in shown && j in shown ==> !Hides(ss, shown, i, j)
  }

  /** The visible surfaces, and those that meet a rectangle. */
  function Shown(ss: seq<Surface>): set<nat> {
    set i: nat | i < |ss| && ss[i].id != 0 && ss[i].visible
  }

  function Candidates(ss: seq<Surface>, rect: Rect): set<nat> {
    set i: nat | i < |ss| && Candidate(ss, rect, i)
  }

  /** A scene without clashes has none inside any rectangle either. */
  lemma NoClashInPart(ss: seq<Surface>, rect: Rect)
    requires NoClash(ss, Shown(ss))
    ensures NoClash(ss, Candidates(ss, rect))
  {
    var part, whole := Candidates(ss, rect), Shown(ss);
    assert forall k :: k in part ==> k in whole;
    forall i, j | i in part && j in part
      ensures !Hides(ss, part, i, j)
    {
      assert !Hides(ss, whole, i, j);
    }
  }

  /** What one scan returns: the first candidate when its z equals the restart value,
      otherwise the first of the lowest among those strictly above it. */
  lemma {:induction false} ScanPicks(ss: seq<Surface>, rect: Rect, lastZ: int, n: nat)
    requires n <= |ss|
    ensures var r := Scan(ss, rect, lastZ, n);
            r.Just? ==>
              (forall i: nat :: i < n && Candidate(ss, rect, i) && ss[i].z > lastZ && ss[r.index].z > lastZ ==>
                ss[r.index].z <= ss[i].z)
              && (ss[r.index].z == lastZ ==>
                    forall i: nat :: i < r.index && Candidate(ss, rect, i) ==> ss[i].z < lastZ)
              && (ss[r.index].z > lastZ ==>
                    forall i: nat :: i < n && Candidate(ss, rect, i) && ss[i].z == lastZ ==>
                      exists f: nat :: f < i && Candidate(ss, rect, f) && ss[f].z > lastZ)
  {
    if n > 0 { ScanPicks(ss, rect, lastZ, n - 1); }
  }

  ghost predicate Ascending(ss: seq<Surface>, order: seq<nat>) {
    && Slots(ss, order)
    && (forall k, l :: 0 <= k < l < |order| ==> ss[order[k]].z < ss[order[l]].z)
  }

  /** The drawing order holds candidates at or above its start, in strictly ascending z. */
  lemma {:induction false} OrderAscends(ss: seq<Surface>, rect: Rect, lastZ: int)
    ensures Ascending(ss, DrawOrder(ss, rect, lastZ))
    ensures forall i :: i in DrawOrder(ss, rect, lastZ) ==> i in Candidates(ss, rect) && ss[i].z >= lastZ
    decreases |Remaining(ss, rect, lastZ)|
  {
    var next := Scan(ss, rect, lastZ, |ss|);
    if next.Just? {
      RemainingShrinks(ss, rect, lastZ, next.index);
      OrderAscends(ss, rect, ss[next.index].z + 1);
      var rest := DrawOrder(ss, rect, ss[next.index].z + 1);
      assert DrawOrder(ss, rect, lastZ) == [next.index] + rest;
      assert forall k :: 0 <= k < |rest| ==> rest[k] in rest;
    }
  }

  ghost predicate RestartPoint(ss: seq<Surface>, rect: Rect, lastZ: int) {
    lastZ == INT32_MIN || exists k :: k in Candidates(ss, rect) && ss[k].z + 1 == lastZ
  }

  /** Without clashes a scan never passes over a candidate for a higher one. */
  lemma NoClashPicksLowest(ss: seq<Surface>, rect: Rect, lastZ: int, i: nat)
    requires NoClash(ss, Candidates(ss, rect)) && RestartPoint(ss, rect, lastZ)
    requires i in Candidates(ss, rect) && ss[i].z >= lastZ
    ensures var next := Scan(ss, rect, lastZ, |ss|);
            next.Just? && (next.index == i || ss[next.index].z < ss[i].z)
  {
    var shown, next := Candidates(ss, rect), Scan(ss, rect, lastZ, |ss|);
    ScanPicks(ss, rect, lastZ, |ss|);
    assert Candidate(ss, rect, i);
    var t := next.index;
    assert t in shown;
    assert t != i ==> !Hides(ss, shown, t, i);
    forall f: nat | f < i && Candidate(ss, rect, f) && ss[i].z == lastZ ensures ss[f].z <= lastZ {
      assert f in shown && !Hides(ss, shown, f, i);
    }
  }

  lemma {:induction false} NoClashDrawsAll(ss: seq<Surface>, rect: Rect, lastZ: int, i: nat)
    requires NoClash(ss, Candidates(ss, rect)) && RestartPoint(ss, rect, lastZ)
    requires i in Candidates(ss, rect) && ss[i].z >= lastZ
    ensures i in DrawOrder(ss, rect, lastZ)
    decreases |Remaining(ss, rect, lastZ)|
  {
    NoClashPicksLowest(ss, rect, lastZ, i);
    var t := Scan(ss, rect, lastZ, |ss|).index;
    RemainingShrinks(ss, rect, lastZ, t);
    assert DrawOrder(ss, rect, lastZ) == [t] + DrawOrder(ss, rect, ss[t].z + 1);
    if t != i {
      assert t in Candidates(ss, rect);
      NoClashDrawsAll(ss, rect, ss[t].z + 1, i);
    }
  }

  /** A candidate standing exactly at the restart value, behind a lower slot with a higher z,
      is skipped and never comes back. */
  lemma SkippedAtRestart(ss: seq<Surface>, rect: Rect, i: nat, j: nat)
    requires i in Candidates(ss, rect) && j in Candidates(ss, rect) && i < j && ss[i].z > ss[j].z
    ensures j !in DrawOrder(ss, rect, ss[j].z)
  {
    var lastZ := ss[j].z;
    var next := Scan(ss, rect, lastZ, |ss|);
    ScanPicks(ss, rect, lastZ, |ss|);
    assert Candidate(ss, rect, i) && Candidate(ss, rect, j);
    var t := next.index;
    assert t != j;
    OrderAscends(ss, rect, ss[t].z + 1);
  }

  lemma {:induction false} ClashLosesOne(ss: seq<Surface>, rect: Rect, lastZ: int, k: nat, i: nat, j: nat)
    requires i in Candidates(ss, rect) && j in Candidates(ss, rect) && i < j && ss[i].z > ss[j].z
    requires k in DrawOrder(ss, rect, lastZ) && k < |ss| && ss[k].z + 1 == ss[j].z
    ensures j !in DrawOrder(ss, rect, lastZ)
    decreases |Remaining(ss, rect, lastZ)|
  {
    var t := Scan(ss, rect, lastZ, |ss|).index;
    var rest := DrawOrder(ss, rect, ss[t].z + 1);
    RemainingShrinks(ss, rect, lastZ, t);
    assert DrawOrder(ss, rect, lastZ) == [t] + rest;
    if t != k {
      OrderAscends(ss, rect, ss[t].z + 1);
      assert k in rest;
      ClashLosesOne(ss, rect, ss[t].z + 1, k, i, j);
    } else {
      SkippedAtRestart(ss, rect, i, j);
    }
  }

  ghost predicate DrawsAll(ss: seq<Surface>, rect: Rect) {
    forall i :: i in Candidates(ss, rect) ==> i in DrawOrder(ss, rect, INT32_MIN)
  }

  /** The paint loop draws every surface that meets the rectangle if and only if no two of
      them clash.  z values are 32-bit, so none lies below INT32_MIN. */
  lemma DrawsAllIffNoClash(ss: seq<Surface>, rect: Rect)
    requires forall i :: 0 <= i < |ss| ==> ss[i].z >= INT32_MIN
    ensures DrawsAll(ss, rect) <==> NoClash(ss, Candidates(ss, rect))
  {
    var shown, order := Candidates(ss, rect), DrawOrder(ss, rect, INT32_MIN);
    if NoClash(ss, shown) {
      forall i | i in shown ensures i in order { NoClashDrawsAll(ss, rect, INT32_MIN, i); }
    } else {
      var i, j :| i in shown && j in shown && Hides(ss, shown, i, j);
      OrderAscends(ss, rect, INT32_MIN);
      if DrawsAll(ss, rect) {
        var a :| 0 <= a < |order| && order[a] == i;
        var b :| 0 <= b < |order| && order[b] == j;
        if ss[i].z == ss[j].z {
          assert false;
        } else if ss[j].z == INT32_MIN {
          SkippedAtRestart(ss, rect, i, j);
        } else {
          var k :| k in shown && ss[k].z + 1 == ss[j].z;
          ClashLosesOne(ss, rect, INT32_MIN, k, i, j);
        }
      }
    }
  }

  // ----- drawing everything gives the reference picture

  ghost function CoveringAmong(ss: seq<Surface>, order: seq<nat>, x: int, y: int): set<nat> {
    set i: nat | i in order && i < |ss| && Covers(ss[i], x, y)
  }

  lemma PaintStep(ss: seq<Surface>, below: set<nat>, t: nat, x: int, y: int, clear: Pixel)
    requires AllBacked(ss) && t < |ss| && forall i :: i in below ==> i < |ss| && ss[i].z < ss[t].z
    ensures Paint(ss, below + {t}, x, y, clear) == Over(ss[t], x, y, Paint(ss, below, x, y, clear))
  {
    var live := below + {t};
    var top := Top(ss, live);
    assert t in live;
    assert top == t;
    assert live - {t} == below;
  }

  lemma {:induction false} LayerIsPaint(ss: seq<Surface>, order: seq<nat>, x: int, y: int, clear: Pixel)
    requires AllBacked(ss) && Ascending(ss, order)
    ensures Layer(ss, order, x, y, clear) == Paint(ss, CoveringAmong(ss, order, x, y), x, y, clear)
  {
    if order == [] {
      assert CoveringAmong(ss, order, x, y) == {};
    } else {
      var m := |order| - 1;
      var t, rest := order[m], order[..m];
      assert Ascending(ss, rest);
      LayerIsPaint(ss, rest, x, y, clear);
      var below, live := CoveringAmong(ss, rest, x, y), CoveringAmong(ss, order, x, y);
      assert live == below + if Covers(ss[t], x, y) then {t} else {} by {
        assert order == rest + [t];
        CoveringSplit(ss, rest, t, x, y);
      }
      if Covers(ss[t], x, y) {
        assert forall i :: i in below ==> ss[i].z < ss[t].z;
        PaintStep(ss, below, t, x, y, clear);
      } else {
        assert live == below;
      }
    }
  }

  lemma CoveringSplit(ss: seq<Surface>, rest: seq<nat>, t: nat, x: int, y: int)
    requires t < |ss|
    ensures CoveringAmong(ss, rest + [t], x, y) ==
            CoveringAmong(ss, rest, x, y) + if Covers(ss[t], x, y) then {t} else {}
  {
    assert forall i :: i in rest + [t] <==> i in rest || i == t;
  }

  /** Drawing a rectangle of a clash-free scene over the clear colour gives the reference
      colour at every point of the rectangle. */
  lemma DrawOrderPaintsScene(ss: seq<Surface>, rect: Rect, x: int, y: int, clear: Pixel)
    requires AllBacked(ss) && NoClash(ss, Shown(ss)) && Inside(rect, x, y)
    requires forall i :: 0 <= i < |ss| ==> ss[i].z >= INT32_MIN
    ensures Slots(ss, DrawOrder(ss, rect, INT32_MIN))
    ensures Layer(ss, DrawOrder(ss, rect, INT32_MIN), x, y, clear) == PixelOfScene(ss, x, y, clear)
  {
    var order := DrawOrder(ss, rect, INT32_MIN);
    OrderAscends(ss, rect, INT32_MIN);
    LayerIsPaint(ss, order, x, y, clear);
    NoClashInPart(ss, rect);
    DrawsAllIffNoClash(ss, rect);
    assert CoveringAmong(ss, order, x, y) == Covering(ss, x, y) by {
      forall i | i in Covering(ss, x, y) ensures i in order {
        IntersectPoints(ss[i].bounds, rect);
        assert i in Candidates(ss, rect);
      }
    }
  }

  // ----- the top of the picture

  /** Where the top surface is opaque the reference colour is that surface's own pixel, and
      where nothing lies it is the clear colour. */
  lemma TopDecidesPixel(ss: seq<Surface>, x: int, y: int, clear: Pixel, t: nat)
    requires AllBacked(ss)
    ensures Covering(ss, x, y) == {} ==> PixelOfScene(ss, x, y, clear) == clear
    ensures IsTop(ss, Covering(ss, x, y), t) &&
            (!ss[t].alpha || Channel(SourcePixel(ss[t], x, y), 0x100_0000) == 255) ==>
              PixelOfScene(ss, x, y, clear) == SourcePixel(ss[t], x, y)
  {
    var live := Covering(ss, x, y);
    if IsTop(ss, live, t) {
      assert Top(ss, live) == t;
    }
  }

  /** The pixel in row j and column i of a client's buffer stands j down and i right of the surface's
      corner; the top surface there shows it, laid over the picture below if it has alpha. */
  lemma TopShowsItsPixel(ss: seq<Surface>, t: nat, i: nat, j: nat, clear: Pixel)
    requires AllBacked(ss) && t < |ss| && i < ss[t].bounds.width && j < ss[t].bounds.height
    requires var b := ss[t].bounds; IsTop(ss, Covering(ss, b.x + i, b.y + j), t)
    ensures 0 <= j * ss[t].stride + i < |ss[t].pixels|
    ensures var x, y, own := ss[t].bounds.x + i, ss[t].bounds.y + j, ss[t].pixels[j * ss[t].stride + i];
            PixelOfScene(ss, x, y, clear) ==
            if ss[t].alpha then Blend(Paint(ss, Covering(ss, x, y) - {t}, x, y, clear), own) else own
  {
    var x, y := ss[t].bounds.x + i, ss[t].bounds.y + j;
    IndexReached(i, j, |ss[t].pixels|, ss[t].stride, ss[t].bounds);
    assert Top(ss, Covering(ss, x, y)) == t;
    assert SourcePixel(ss[t], x, y) == ss[t].pixels[j * ss[t].stride + i];
  }

  // ----- the loop's 32-bit restart value

  function Wrapped(z: int): int { if z == INT32_MAX then INT32_MIN else z + 1 }

  /** The loop, its restart value kept in 32 bits, finds nothing more to draw after at most n rounds. */
  predicate EndsWithin(ss: seq<Surface>, rect: Rect, lastZ: int, n: nat)
    decreases n
  {
    var next := Scan(ss, rect, lastZ, |ss|);
    next.Nothing? || (n > 0 && EndsWithin(ss, rect, Wrapped(ss[next.index].z), n - 1))
  }

  lemma {:induction false} EndsBelowMax(ss: seq<Surface>, rect: Rect, lastZ: int)
    requires forall i :: i in Candidates(ss, rect) ==> ss[i].z < INT32_MAX
    ensures EndsWithin(ss, rect, lastZ, |Remaining(ss, rect, lastZ)|)
    decreases |Remaining(ss, rect, lastZ)|
  {
    var next := Scan(ss, rect, lastZ, |ss|);
    if next.Just? {
      assert next.index in Candidates(ss, rect);
      RemainingShrinks(ss, rect, lastZ, next.index);
      EndsBelowMax(ss, rect, ss[next.index].z + 1);
      EndsLater(ss, rect, ss[next.index].z +
          1, |Remaining(ss, rect, ss[next.index].z + 1)|, |Remaining(ss, rect, lastZ)| - 1);
    }
  }

  lemma {:induction false} EndsLater(ss: seq<Surface>, rect: Rect, lastZ: int, n: nat, m: nat)
    requires EndsWithin(ss, rect, lastZ, n) && n <= m
    ensures EndsWithin(ss, rect, lastZ, m)
    decreases n
  {
    var next := Scan(ss, rect, lastZ, |ss|);
    if next.Just? { EndsLater(ss, rect, Wrapped(ss[next.index].z), n - 1, m - 1); }
  }

  lemma {:induction false} NeverEndsAtMax(ss: seq<Surface>, rect: Rect, j: nat, lastZ: int, n: nat)
    requires j in Candidates(ss, rect) && ss[j].z == INT32_MAX >= lastZ
    requires forall i :: 0 <= i < |ss| ==> ss[i].z <= INT32_MAX
    ensures !EndsWithin(ss, rect, lastZ, n)
    decreases n
  {
    assert Candidate(ss, rect, j);
    var next := Scan(ss, rect, lastZ, |ss|);
    if n > 0 { NeverEndsAtMax(ss, rect, j, Wrapped(ss[next.index].z), n - 1); }
  }

  /** The paint loop ends if and only if nothing that meets the rectangle stands at the largest z. */
  lemma PaintLoopEndsIff(ss: seq<Surface>, rect: Rect)
    requires forall i :: 0 <= i < |ss| ==> ss[i].z <= INT32_MAX
    ensures (exists n: nat :: EndsWithin(ss, rect, INT32_MIN, n)) <==>
            forall i :: i in Candidates(ss, rect) ==> ss[i].z < INT32_MAX
  {
    if forall i :: i in Candidates(ss, rect) ==> ss[i].z < INT32_MAX {
      var n: nat := |Remaining(ss, rect, INT32_MIN)|;
      EndsBelowMax(ss, rect, INT32_MIN);
      assert EndsWithin(ss, rect, INT32_MIN, n);
      assert exists m: nat :: EndsWithin(ss, rect, INT32_MIN, m);
    } else {
      var j :| j in Candidates(ss, rect) && ss[j].z == INT32_MAX;
      forall n: nat ensures !EndsWithin(ss, rect, INT32_MIN, n) { NeverEndsAtMax(ss, rect, j, INT32_MIN, n); }
    }
  }

  // ----- what lies over a surface

  const BLACK: Pixel := 0xff00_0000
  const WHITE: Pixel := 0xffff_ffff

  /** The surfaces of `live` above slot k, laid over `base`. */
  ghost function Veil(ss: seq<Surface>, live: set<nat>, k: nat, x: int, y: int, base: Pixel): Pixel
    requires AllBacked(ss) && k in live && forall i :: i in live ==> i < |ss|
  {
    var t := Top(ss, live);
    if t == k then base else Over(ss[t], x, y, Veil(ss, live - {t}, k, x, y, base))
  }

  /** The surfaces of `live` below slot k. */
  ghost function Under(ss: seq<Surface>, live: set<nat>, k: nat): (r: set<nat>)
    requires k in live && forall i :: i in live ==> i < |ss|
    ensures r <= live - {k}
  {
    var t := Top(ss, live);
    if t == k then live - {k} else Under(ss, live - {t}, k)
  }

  /** The picture with slot k in it, and the picture without. */
  lemma {:induction false} PaintThroughVeil(ss: seq<Surface>, live: set<nat>, k: nat, x: int, y: int, clear: Pixel)
    requires AllBacked(ss) && k in live && forall i :: i in live ==> i < |ss|
    ensures var below := Paint(ss, Under(ss, live, k), x, y, clear);
            && Paint(ss, live, x, y, clear) == Veil(ss, live, k, x, y, Over(ss[k], x, y, below))
            && Paint(ss, live - {k}, x, y, clear) == Veil(ss, live, k, x, y, below)
    decreases live
  {
    var t := Top(ss, live);
    if t != k {
      PaintThroughVeil(ss, live - {t}, k, x, y, clear);
      assert IsTop(ss, live - {k}, t) && IsTop(ss, live - {k}, Top(ss, live - {k}));
      assert live - {k} - {t} == live - {t} - {k};
    }
  }

  ghost predicate Darker(a: Pixel, b: Pixel) {
    forall shift :: shift in {1, 0x100, 0x1_0000} ==> Channel(a, shift) <= Channel(b, shift)
  }

  lemma MixMono(s: nat, a: nat, b: nat, alpha: nat)
    requires s <= 255 && a <= b <= 255 && alpha <= 255
    ensures Mix(s, a, alpha) <= Mix(s, b, alpha)
  {
    MulMono(a, b, 255 - alpha);
  }

  lemma BlendMono(a: Pixel, b: Pixel, src: Pixel)
    requires Darker(a, b)
    ensures Darker(Blend(a, src), Blend(b, src))
  {
    var alpha := Channel(src, 0x100_0000);
    if 0 < alpha < 255 {
      forall shift | shift in {1, 0x100, 0x1_0000} {
        MixMono(Channel(src, shift), Channel(a, shift), Channel(b, shift), alpha);
      }
    }
  }

  lemma {:induction false} VeilMono(ss: seq<Surface>, live: set<nat>, k: nat, x: int, y: int, a: Pixel, b: Pixel)
    requires AllBacked(ss) && k in live && (forall i :: i in live ==> i < |ss|) && Darker(a, b)
    ensures Darker(Veil(ss, live, k, x, y, a), Veil(ss, live, k, x, y, b))
    decreases live
  {
    var t := Top(ss, live);
    if t != k {
      VeilMono(ss, live - {t}, k, x, y, a, b);
      if Covers(ss[t], x, y) && ss[t].alpha {
        BlendMono(Veil(ss, live - {t}, k, x, y, a), Veil(ss, live - {t}, k, x, y, b), SourcePixel(ss[t], x, y));
      }
    }
  }

  /** No surface above slot k leaves any colour of its own. */
  ghost predicate Glass(ss: seq<Surface>, live: set<nat>, k: nat, x: int, y: int)
    requires AllBacked(ss) && k in live && forall i :: i in live ==> i < |ss|
  {
    var t := Top(ss, live);
    t == k || (Glass(ss, live - {t}, k, x, y)
               && (Covers(ss[t], x, y) ==> ss[t].alpha && Channel(SourcePixel(ss[t], x, y), 0x100_0000) == 0))
  }

  lemma {:induction false} GlassShows(ss: seq<Surface>, live: set<nat>, k: nat, x: int, y: int, a: Pixel, b: Pixel)
    requires AllBacked(ss) && k in live && forall i :: i in live ==> i < |ss|
    ensures var va, vb := Veil(ss, live, k, x, y, a), Veil(ss, live, k, x, y, b);
            if Glass(ss, live, k, x, y) then va == a && vb == b else Channel(va, 0x100_0000) == Channel(vb, 0x100_0000)
    decreases live
  {
    var t := Top(ss, live);
    if t != k { GlassShows(ss, live - {t}, k, x, y, a, b); }
  }

  lemma ChannelsDecide(a: Pixel, b: Pixel)
    requires forall shift :: shift in {1, 0x100, 0x1_0000, 0x100_0000} ==> Channel(a, shift) == Channel(b, shift)
    ensures a == b
  {
    ChannelSum(a);
    ChannelSum(b);
  }

  lemma ChannelSum(p: Pixel)
    ensures p == Channel(p, 0x100_0000) * 0x100_0000 + Channel(p, 0x1_0000) * 0x1_0000 + Channel(p, 0x100) * 0x100 +
            Channel(p, 1)
  {
    assert p / 0x100 / 0x100 == p / 0x1_0000 && p / 0x1_0000 / 0x100 == p / 0x100_0000;
  }

  /** At this point the picture over slot k comes out the same over black and over white. */
  ghost predicate Veiled(ss: seq<Surface>, k: nat, x: int, y: int)
    requires AllBacked(ss) && k in Covering(ss, x, y)
  {
    Veil(ss, Covering(ss, x, y), k, x, y, BLACK) == Veil(ss, Covering(ss, x, y), k, x, y, WHITE)
  }

  /** Then it comes out the same over anything. */
  lemma VeiledIsBlind(ss: seq<Surface>, k: nat, x: int, y: int, p: Pixel)
    requires AllBacked(ss) && k in Covering(ss, x, y) && Veiled(ss, k, x, y)
    ensures Veil(ss, Covering(ss, x, y), k, x, y, p) == Veil(ss, Covering(ss, x, y), k, x, y, BLACK)
  {
    var live := Covering(ss, x, y);
    assert Channel(BLACK, 1) == Channel(BLACK, 0x100) == Channel(BLACK, 0x1_0000) == 0;
    assert Channel(WHITE, 1) == Channel(WHITE, 0x100) == Channel(WHITE, 0x1_0000) == 255;
    VeilMono(ss, live, k, x, y, BLACK, p);
    VeilMono(ss, live, k, x, y, p, WHITE);
    GlassShows(ss, live, k, x, y, BLACK, WHITE);
    GlassShows(ss, live, k, x, y, BLACK, p);
    ChannelsDecide(Veil(ss, live, k, x, y, p), Veil(ss, live, k, x, y, BLACK));
  }

  predicate Opaque(s: Surface, x: int, y: int)
    requires Backed(s) && Covers(s, x, y)
  {
    !s.alpha || Channel(SourcePixel(s, x, y), 0x100_0000) == 255
  }

  ghost predicate Higher(ss: seq<Surface>, i: nat, k: nat)
    requires i < |ss| && k < |ss|
  {
    ss[i].z > ss[k].z || (ss[i].z == ss[k].z && i < k)
  }

  /** An opaque surface above veils, whatever else there is. */
  lemma {:induction false} OpaqueVeils(ss: seq<Surface>, live: set<nat>, k: nat, i: nat, x: int, y: int, a: Pixel,
          b: Pixel)
    requires AllBacked(ss) && k in live && i in live && forall j :: j in live ==> j < |ss|
    requires Higher(ss, i, k) && Covers(ss[i], x, y) && Opaque(ss[i], x, y)
    ensures Veil(ss, live, k, x, y, a) == Veil(ss, live, k, x, y, b)
    decreases live
  {
    var t := Top(ss, live);
    assert t != k;
    if t != i { OpaqueVeils(ss, live - {t}, k, i, x, y, a, b); }
  }

  const THIN: Pixel := 0xfe00_0000

  function Sheet(id: nat, z: int): Surface {
    Surface(id, Rect(0, 0, 1, 1), z, true, true, false, false, [THIN], 1)
  }

  lemma ThinOnce(d: nat)
    requires d <= 255
    ensures Mix(0, d, 254) == if d >= 128 then 1 else 0
  {}

  lemma ThinChannels()
    ensures Channel(THIN, 0x100_0000) == 254 && Channel(THIN, 1) == Channel(THIN, 0x100) == Channel(THIN, 0x1_0000) == 0
  {}

  /** What is left of any pixel behind two sheets is rounded away. */
  lemma ThinTwice(b: Pixel)
    ensures Blend(Blend(b, THIN), THIN) == BLACK
  {
    hide Mix, Channel;
    ThinChannels();
    var w := Blend(b, THIN);
    forall shift | shift in {1, 0x100, 0x1_0000} ensures Channel(w, shift) <= 1 {
      ThinOnce(Channel(b, shift));
    }
    var v := Blend(w, THIN);
    forall shift | shift in {1, 0x100, 0x1_0000} ensures Channel(v, shift) == 0 {
      ThinOnce(Channel(w, shift));
    }
    BlackChannels();
    ChannelsDecide(v, BLACK);
  }

  lemma BlackChannels()
    ensures Channel(BLACK, 0x100_0000) == 255 &&
            Channel(BLACK, 1) == Channel(BLACK, 0x100) == Channel(BLACK, 0x1_0000) == 0
  {}

  /** So do two nearly opaque black sheets, neither of which is opaque. */
  lemma ThinSheetsVeil()
    ensures var ss := [Framed(1, 0), Sheet(2, 1), Sheet(3, 2)];
            0 in Covering(ss, 0, 0) && Veiled(ss, 0, 0, 0) && !Opaque(ss[1], 0, 0) && !Opaque(ss[2], 0, 0)
  {
    hide Blend, Mix, Channel;
    var ss := [Framed(1, 0), Sheet(2, 1), Sheet(3, 2)];
    var live := Covering(ss, 0, 0);
    assert live == {0, 1, 2};
    assert IsTop(ss, live, 2) && IsTop(ss, live - {2}, 1) && IsTop(ss, live - {2} - {1}, 0);
    ThinChannels();
    assert SourcePixel(ss[1], 0, 0) == THIN && SourcePixel(ss[2], 0, 0) == THIN;
    SheetsOver(ss, live, BLACK);
    SheetsOver(ss, live, WHITE);
    ThinTwice(BLACK);
    ThinTwice(WHITE);
  }

  lemma SheetsOver(ss: seq<Surface>, live: set<nat>, b: Pixel)
    requires AllBacked(ss) && |ss| == 3 && live == {0, 1, 2} && ss[1] == Sheet(2, 1) && ss[2] == Sheet(3, 2)
    requires IsTop(ss, live, 2) && IsTop(ss, live - {2}, 1) && IsTop(ss, live - {2} - {1}, 0)
    ensures Veil(ss, live, 0, 0, 0, b) == Blend(Blend(b, THIN), THIN)
  {
    hide Blend;
    var one, two := live - {2}, live - {2} - {1};
    assert Top(ss, live) == 2 && Top(ss, one) == 1 && Top(ss, two) == 0;
    assert Veil(ss, two, 0, 0, 0, b) == b;
    assert Veil(ss, one, 0, 0, 0, b) == Over(ss[1], 0, 0, b) == Blend(b, THIN);
    assert Veil(ss, live, 0, 0, 0, b) == Over(ss[2], 0, 0, Blend(b, THIN));
  }

  // ----- a scene that two focus calls can lead to

  function Framed(id: nat, z: int): Surface {
    Surface(id, Rect(0, 0, 1, 1), z, false, true, false, false, [0], 1)
  }
}
