/** The compositor: a table of surfaces, a ring of damaged rectangles and a framebuffer that is
    repainted only where damage is pending (the mode without a frontbuffer).

    The invariant of every run is `Clean`: outside the pending damage each framebuffer pixel
    already has its reference colour. */
module Compositor {
  import opened Painting

  const MAX_SURFACES := 16
  const MAX_DAMAGE := 64
  const CLEAR_COLOR: Pixel := 0xff07_111f

  datatype Status = Ok | InvalidArgument | NotFound | NoMemory

  // ----- how a change of the table changes the picture

  /** Equal in everything that painting reads. */
  predicate SameLook(a: Surface, b: Surface) {
    && a.id == b.id && a.bounds == b.bounds && a.z == b.z && a.alpha == b.alpha && a.visible == b.visible
    && a.pixels == b.pixels && a.stride == b.stride
  }

  lemma {:induction false} PaintFrame(ss: seq<Surface>, ss': seq<Surface>, live: set<nat>, x: int, y: int, clear: Pixel)
    requires AllBacked(ss) && AllBacked(ss') && |ss| == |ss'|
    requires forall i :: i in live ==> i < |ss| && SameLook(ss[i], ss'[i])
    ensures Paint(ss, live, x, y, clear) == Paint(ss', live, x, y, clear)
  {
    if live != {} {
      var t := Top(ss, live);
      assert IsTop(ss', live, t);
      assert Top(ss', live) == t;
      PaintFrame(ss, ss', live - {t}, x, y, clear);
    }
  }

  /** The tables differ, for painting, at most in slot k. */
  predicate OnlyLookOf(ss: seq<Surface>, ss': seq<Surface>, k: nat) {
    |ss| == |ss'| && k < |ss| && forall i :: 0 <= i < |ss| && i != k ==> SameLook(ss[i], ss'[i])
  }

  /** Changing one surface leaves the picture alone wherever it lies neither before nor after. */
  lemma SceneChange(ss: seq<Surface>, ss': seq<Surface>, k: nat, x: int, y: int, clear: Pixel)
    requires AllBacked(ss) && AllBacked(ss') && OnlyLookOf(ss, ss', k)
    requires !Covers(ss[k], x, y) && !Covers(ss'[k], x, y)
    ensures PixelOfScene(ss, x, y, clear) == PixelOfScene(ss', x, y, clear)
  {
    assert Covering(ss, x, y) == Covering(ss', x, y);
    PaintFrame(ss, ss', Covering(ss, x, y), x, y, clear);
  }

  // ----- the damage list as a value

  /** Queueing into a full ring forgets everything but the surface's own bounds. */
  function Queued(pending: seq<Rect>, rect: Rect, bounds: Rect): seq<Rect> {
    if |pending| >= MAX_DAMAGE then [bounds] else pending + [rect]
  }

  /** A ring read from its head. */
  function Unrolled(ring: seq<Rect>, head: nat, count: nat): seq<Rect>
    requires |ring| == MAX_DAMAGE
  {
    seq(count, n requires 0 <= n => ring[Slot(head, n)])
  }

  predicate Damaged(pending: seq<Rect>, x: int, y: int) {
    exists n :: 0 <= n < |pending| && Inside(pending[n], x, y)
  }

  /** The last rectangle over the point. */
  predicate LastOver(parts: seq<Rect>, n: nat, x: int, y: int) {
    n < |parts| && Inside(parts[n], x, y) && forall m :: n < m < |parts| ==> !Inside(parts[m], x, y)
  }

  lemma LastOverNext(parts: seq<Rect>, r: Rect, n: nat, x: int, y: int)
    requires LastOver(parts + [r], n, x, y)
    ensures if Inside(r, x, y) then n == |parts| else LastOver(parts, n, x, y)
  {
    assert (parts + [r])[|parts|] == r;
    assert forall m :: 0 <= m < |parts| ==> (parts + [r])[m] == parts[m];
  }

  predicate Within(r: Rect, b: Rect) {
    b.x <= r.x && r.x + r.width <= b.x + b.width && b.y <= r.y && r.y + r.height <= b.y + b.height
  }

  /** Queueing damage keeps every damaged point, old and new, if and only if the ring has room
      or the surface's bounds swallow every rectangle. */
  lemma QueueKeepsDamageIff(pending: seq<Rect>, rect: Rect, bounds: Rect)
    requires rect.width > 0 && rect.height > 0
    requires forall n :: 0 <= n < |pending| ==> pending[n].width > 0 && pending[n].height > 0
    ensures (forall x, y :: Damaged(pending + [rect], x, y) ==> Damaged(Queued(pending, rect, bounds), x, y)) <==>
            |pending| < MAX_DAMAGE || forall r :: r in pending + [rect] ==> Within(r, bounds)
  {
    var all := pending + [rect];
    if |pending| >= MAX_DAMAGE {
      assert Queued(pending, rect, bounds) == [bounds];
      if forall x, y :: Damaged(all, x, y) ==> Damaged([bounds], x, y) {
        forall r | r in all ensures Within(r, bounds) {
          var n :| 0 <= n < |all| && all[n] == r;
          assert Inside(all[n], r.x, r.y) && Damaged(all, r.x, r.y);
          var x1, y1 := r.x + r.width - 1, r.y + r.height - 1;
          assert Inside(all[n], x1, y1) && Damaged(all, x1, y1);
          assert Damaged([bounds], r.x, r.y) && Damaged([bounds], x1, y1);
        }
      }
      if forall r :: r in all ==> Within(r, bounds) {
        forall x, y | Damaged(all, x, y) ensures Damaged([bounds], x, y) {
          var n :| 0 <= n < |all| && Inside(all[n], x, y);
          assert all[n] in all;
          assert Inside([bounds][0], x, y);
        }
      }
    }
  }

  /** Marking a surface dirty queues its bounds as if they were relative to the surface, so the
      damage covers the surface if and only if it sits at the origin. */
  lemma MarkDirtyCoversIff(b: Rect)
    requires b.width > 0 && b.height > 0
    ensures (forall x, y :: Inside(b, x, y) ==> Inside(Placed(b, b, false), x, y)) <==> b.x == 0 && b.y == 0
  {
    assert Inside(b, b.x, b.y) && Inside(b, b.x + b.width - 1, b.y + b.height - 1);
  }

  /** Damage that is not exposed covers the points of the rectangle, counted from the surface's corner. */
  lemma PlacedPoints(rect: Rect, bounds: Rect, x: int, y: int)
    ensures Inside(Placed(rect, bounds, false), x, y) <==> Inside(rect, x - bounds.x, y - bounds.y)
    ensures Inside(Placed(rect, bounds, true), x, y) <==> Inside(rect, x, y)
  {}

  // ----- a surface taken away

  function Repixeled(ss: seq<Surface>, k: nat, cs: seq<Pixel>): seq<Surface>
    requires k < |ss|
  {
    ss[k := ss[k].(pixels := cs)]
  }

  /** The undamaged part of a frame looks the same with and without slot k. */
  ghost predicate Unseen(ss: seq<Surface>, k: nat, width: int, height: int, pending: seq<Rect>)
    requires AllBacked(ss) && k < |ss|
  {
    forall x, y :: 0 <= x < width && 0 <= y < height && !Damaged(pending, x, y) ==>
      PixelOfScene(ss, x, y, CLEAR_COLOR) == PixelOfScene(ss[k := NO_SURFACE], x, y, CLEAR_COLOR)
  }

  /** Wherever slot k covers the undamaged part of a frame, what lies above lets nothing through. */
  ghost predicate AllVeiled(ss: seq<Surface>, k: nat, width: int, height: int, pending: seq<Rect>)
    requires AllBacked(ss) && k < |ss|
  {
    forall x, y :: 0 <= x < width && 0 <= y < height && !Damaged(pending, x, y) && Covers(ss[k], x, y) ==>
      k in Covering(ss, x, y) && Veiled(ss, k, x, y)
  }

  /** Tables alike but for what slot k shows. */
  predicate AlikeBut(ss: seq<Surface>, tt: seq<Surface>, live: set<nat>, k: nat) {
    |ss| == |tt| && forall i :: i in live ==> i < |ss| && ss[i].z == tt[i].z && (i != k ==> SameLook(ss[i], tt[i]))
  }

  lemma TopAlike(ss: seq<Surface>, tt: seq<Surface>, live: set<nat>, k: nat)
    requires live != {} && AlikeBut(ss, tt, live, k)
    ensures Top(ss, live) == Top(tt, live)
  {
    assert IsTop(tt, live, Top(ss, live));
  }

  lemma {:induction false} VeilAlike(ss: seq<Surface>, tt: seq<Surface>, live: set<nat>, k: nat, x: int, y: int,
          base: Pixel)
    requires AllBacked(ss) && AllBacked(tt) && k in live && AlikeBut(ss, tt, live, k)
    ensures Veil(ss, live, k, x, y, base) == Veil(tt, live, k, x, y, base) && Under(ss, live, k) == Under(tt, live, k)
    decreases live
  {
    TopAlike(ss, tt, live, k);
    var t := Top(ss, live);
    if t != k { VeilAlike(ss, tt, live - {t}, k, x, y, base); }
  }

  /** Whatever its pixels are, a point that slot k covers shows it through the veil above it, and
      without it what lies under it. */
  lemma SceneThroughVeil(ss: seq<Surface>, k: nat, cs: seq<Pixel>, x: int, y: int)
    requires AllBacked(ss) && k < |ss| && Covers(ss[k], x, y) && |cs| == |ss[k].pixels|
    ensures var tt, live := Repixeled(ss, k, cs), Covering(ss, x, y);
            && k in live
            && var b := Paint(ss, Under(ss, live, k), x, y, CLEAR_COLOR);
            && PixelOfScene(tt, x, y, CLEAR_COLOR) == Veil(ss, live, k, x, y, Over(tt[k], x, y, b))
            && PixelOfScene(tt[k := NO_SURFACE], x, y, CLEAR_COLOR) == Veil(ss, live, k, x, y, b)
  {
    var tt, live := Repixeled(ss, k, cs), Covering(ss, x, y);
    assert Covering(tt, x, y) == live && Covering(tt[k := NO_SURFACE], x, y) == live - {k};
    PaintThroughVeil(tt, live, k, x, y, CLEAR_COLOR);
    var b := Paint(ss, Under(ss, live, k), x, y, CLEAR_COLOR);
    VeilAlike(ss, tt, live, k, x, y, b);
    VeilAlike(ss, tt, live, k, x, y, Over(tt[k], x, y, b));
    PaintFrame(ss, tt, Under(ss, live, k), x, y, CLEAR_COLOR);
    PaintFrame(tt, tt[k := NO_SURFACE], live - {k}, x, y, CLEAR_COLOR);
  }

  lemma VeiledIsUnseen(ss: seq<Surface>, k: nat, cs: seq<Pixel>, width: int, height: int, pending: seq<Rect>)
    requires AllBacked(ss) && k < |ss| && |cs| == |ss[k].pixels| && AllVeiled(ss, k, width, height, pending)
    ensures Unseen(Repixeled(ss, k, cs), k, width, height, pending)
  {
    var tt := Repixeled(ss, k, cs);
    forall x, y | 0 <= x < width && 0 <= y < height && !Damaged(pending, x, y)
      ensures PixelOfScene(tt, x, y, CLEAR_COLOR) == PixelOfScene(tt[k := NO_SURFACE], x, y, CLEAR_COLOR)
    {
      if Covers(ss[k], x, y) {
        SceneThroughVeil(ss, k, cs, x, y);
        var b := Paint(ss, Under(ss, Covering(ss, x, y), k), x, y, CLEAR_COLOR);
        VeiledIsBlind(ss, k, x, y, b);
        VeiledIsBlind(ss, k, x, y, Over(tt[k], x, y, b));
      } else {
        SceneChange(tt, tt[k := NO_SURFACE], k, x, y, CLEAR_COLOR);
      }
    }
  }

  function Solid(n: nat, p: Pixel): (cs: seq<Pixel>)
    ensures |cs| == n && forall i :: 0 <= i < n ==> cs[i] == p
  {
    seq(n, _ => p)
  }

  lemma OverSolid(s: Surface, p: Pixel, x: int, y: int, dst: Pixel)
    requires Backed(s) && Covers(s, x, y) && s.pixels == Solid(|s.pixels|, p) && Channel(p, 0x100_0000) == 255
    ensures Over(s, x, y, dst) == p
  {
    hide Channel, Mix;
    assert SourcePixel(s, x, y) == p;
  }

  lemma UnseenInOneColour(ss: seq<Surface>, k: nat, p: Pixel, width: int, height: int, pending: seq<Rect>, x: int,
          y: int)
    requires AllBacked(ss) && k < |ss| && Covers(ss[k], x, y) && Channel(p, 0x100_0000) == 255
    requires Unseen(Repixeled(ss, k, Solid(|ss[k].pixels|, p)), k, width, height, pending)
    requires 0 <= x < width && 0 <= y < height && !Damaged(pending, x, y)
    ensures var live := Covering(ss, x, y);
            k in live && Veil(ss, live, k, x, y, p) ==
              Veil(ss, live, k, x, y, Paint(ss, Under(ss, live, k), x, y, CLEAR_COLOR))
  {
    hide Veil, Under, Paint, PixelOfScene, Channel, Over, Solid;
    var cs := Solid(|ss[k].pixels|, p);
    SceneThroughVeil(ss, k, cs, x, y);
    OverSolid(Repixeled(ss, k, cs)[k], p, x, y, Paint(ss, Under(ss, Covering(ss, x, y), k), x, y, CLEAR_COLOR));
  }

  /** Whatever slot k shows, a clean frame stays clean when it is destroyed, if and only if above
      each undamaged point of the frame that it covers the picture is the same over black and white. */
  lemma DestroyKeepsCleanIff(ss: seq<Surface>, k: nat, width: int, height: int, pending: seq<Rect>)
    requires AllBacked(ss) && k < |ss|
    ensures (forall cs :: |cs| == |ss[k].pixels| ==> Unseen(Repixeled(ss, k, cs), k, width, height, pending)) <==>
            AllVeiled(ss, k, width, height, pending)
  {
    if AllVeiled(ss, k, width, height, pending) {
      forall cs | |cs| == |ss[k].pixels| ensures Unseen(Repixeled(ss, k, cs), k, width, height, pending) {
        VeiledIsUnseen(ss, k, cs, width, height, pending);
      }
    }
    if forall cs :: |cs| == |ss[k].pixels| ==> Unseen(Repixeled(ss, k, cs), k, width, height, pending) {
      forall x, y | 0 <= x < width && 0 <= y < height && !Damaged(pending, x, y) && Covers(ss[k], x, y)
        ensures k in Covering(ss, x, y) && Veiled(ss, k, x, y)
      {
        assert Channel(BLACK, 0x100_0000) == 255 && Channel(WHITE, 0x100_0000) == 255;
        assert Unseen(Repixeled(ss, k, Solid(|ss[k].pixels|, BLACK)), k, width, height, pending);
        assert Unseen(Repixeled(ss, k, Solid(|ss[k].pixels|, WHITE)), k, width, height, pending);
        UnseenInOneColour(ss, k, BLACK, width, height, pending, x, y);
        UnseenInOneColour(ss, k, WHITE, width, height, pending, x, y);
      }
    }
  }

  /** Under an opaque higher surface, hidden or off the frame, slot k is veiled. */
  lemma CoveredIsVeiled(ss: seq<Surface>, k: nat, width: int, height: int, pending: seq<Rect>)
    requires AllBacked(ss) && k < |ss|
    requires forall x, y :: 0 <= x < width && 0 <= y < height && !Damaged(pending, x, y) && Covers(ss[k], x, y) ==>
               exists i :: 0 <= i < |ss| && Higher(ss, i, k) && Covers(ss[i], x, y) && Opaque(ss[i], x, y)
    ensures AllVeiled(ss, k, width, height, pending)
  {
    forall x, y | 0 <= x < width && 0 <= y < height && !Damaged(pending, x, y) && Covers(ss[k], x, y)
      ensures k in Covering(ss, x, y) && Veiled(ss, k, x, y)
    {
      var i :| 0 <= i < |ss| && Higher(ss, i, k) && Covers(ss[i], x, y) && Opaque(ss[i], x, y);
      OpaqueVeils(ss, Covering(ss, x, y), k, i, x, y, BLACK, WHITE);
    }
  }

  /** Two scenes cannot be told apart by the hit test and the picture: with no clash, the top
      surface under a point is the one the hit test names. */
  ghost predicate Hit(ss: seq<Surface>, x: int, y: int, best: MaybeIndex) {
    match best
    case Nothing => Covering(ss, x, y) == {}
    case Just(t) => IsTop(ss, Covering(ss, x, y), t)
  }

  class Compositor {
    const framebuffer: array<Pixel>
    const width: nat
    const height: nat
    const stride: nat
    var nextSurfaceId: nat
    var damageHead: nat
    var damageCount: nat
    var surfaces: seq<Surface>
    var damage: seq<Rect>
    var presented: seq<Rect>

    ghost predicate Valid()
      reads this
    {
      && 0 < width <= stride && 0 < height && framebuffer.Length >= stride * height
      && 0 < nextSurfaceId < 0x1_0000_0000
      && damageHead < MAX_DAMAGE && damageCount <= MAX_DAMAGE && |damage| == MAX_DAMAGE
      && |surfaces| == MAX_SURFACES && AllBacked(surfaces)
      && (forall i :: 0 <= i < |surfaces| ==> INT32_MIN <= surfaces[i].z <= INT32_MAX)
    }

    ghost predicate UniqueIds()
      reads this
    {
      forall i, j :: 0 <= i < j < |surfaces| && surfaces[i].id != 0 ==> surfaces[i].id != surfaces[j].id
    }

    predicate InFrame(x: int, y: int) { 0 <= x < width && 0 <= y < height }

    ghost function At(x: int, y: int): Pixel
      requires Valid() && InFrame(x, y)
      reads this, framebuffer
      ensures 0 <= Index(x, y, stride) < framebuffer.Length
    {
      IndexBounds(x, y, width, height, stride);
      framebuffer[Index(x, y, stride)]
    }

    /** The pending damage, oldest first. */
    function Pending(): seq<Rect>
      requires Valid()
      reads this
    {
      Unrolled(damage, damageHead, damageCount)
    }

    ghost predicate Painted(x: int, y: int)
      requires Valid() && InFrame(x, y)
      reads this, framebuffer
    {
      At(x, y) == PixelOfScene(surfaces, x, y, CLEAR_COLOR)
    }

    ghost predicate Clean()
      requires Valid()
      reads this, framebuffer
    {
      CleanFor(surfaces)
    }

    /** Outside the pending damage the frame shows the picture of the table `ss`. */
    ghost predicate CleanFor(ss: seq<Surface>)
      requires Valid() && AllBacked(ss)
      reads this, framebuffer
    {
      forall x, y :: InFrame(x, y) && !Damaged(Pending(), x, y) ==> At(x, y) == PixelOfScene(ss, x, y, CLEAR_COLOR)
    }

    /** A fresh compositor over the caller's buffer; the buffer is not touched. */
    constructor (fb: array<Pixel>, w: nat, h: nat, strideInPixels: nat)
      requires 0 < w <= strideInPixels && 0 < h && fb.Length >= strideInPixels * h
      ensures Valid() && UniqueIds() && Pending() == [] && Shown(surfaces) == {}
      ensures framebuffer == fb && width == w && height == h && stride == strideInPixels
      ensures nextSurfaceId == 1 && forall i :: 0 <= i < |surfaces| ==> surfaces[i] == NO_SURFACE
      ensures Clean() <==> forall x, y :: InFrame(x, y) ==> At(x, y) == CLEAR_COLOR
    {
      framebuffer, width, height, stride := fb, w, h, strideInPixels;
      nextSurfaceId, damageHead, damageCount := 1, 0, 0;
      surfaces := seq(MAX_SURFACES, _ => NO_SURFACE);
      damage := seq(MAX_DAMAGE, _ => NO_SURFACE.bounds);
      presented := [];
      new;
      forall x, y ensures PixelOfScene(surfaces, x, y, CLEAR_COLOR) == CLEAR_COLOR {
        assert Covering(surfaces, x, y) == {};
      }
    }

    // ----- pixels

    method StorePixel(x: int, y: int, p: Pixel)
      requires Valid() && InFrame(x, y)
      modifies framebuffer
      ensures At(x, y) == p
      ensures forall x', y' :: InFrame(x', y') && (x', y') != (x, y) ==> At(x', y') == old(At(x', y'))
    {
      IndexBounds(x, y, width, height, stride);
      framebuffer[Index(x, y, stride)] := p;
      forall x', y' | InFrame(x', y') && (x', y') != (x, y)
        ensures At(x', y') == old(At(x', y'))
      {
        if Index(x', y', stride) == Index(x, y, stride) { IndexInjective(x, y, x', y', stride); }
      }
    }

    /** Without a frontbuffer, bringing the last frame forward means clearing. */
    method CopyForwardRect(rect: Rect)
      requires Valid() && rect.x >= 0 && rect.y >= 0 && rect.x + rect.width <= width && rect.y + rect.height <= height
      modifies framebuffer
      ensures forall x, y :: InFrame(x, y) ==>
                At(x, y) == if Inside(rect, x, y) then CLEAR_COLOR else old(At(x, y))
    {
      var row := 0;
      while row < rect.height
        invariant row <= rect.height || row == 0
        invariant forall x, y :: InFrame(x, y) ==>
                    At(x, y) == if Inside(rect, x, y) && y < rect.y + row then CLEAR_COLOR else old(At(x, y))
      {
        var col := 0;
        while col < rect.width
          invariant col <= rect.width || col == 0
          invariant forall x, y :: InFrame(x, y) ==>
                      At(x, y) == if Inside(rect, x, y) && (y < rect.y + row || (y == rect.y + row && x < rect.x + col))
                                  then CLEAR_COLOR else old(At(x, y))
        {
          StorePixel(rect.x + col, rect.y + row, CLEAR_COLOR);
          col := col + 1;
        }
        row := row + 1;
      }
    }

    method BlitSurfaceRect(s: Surface, rect: Rect)
      requires Valid() && Backed(s) && s.id != 0
      modifies framebuffer
      ensures forall x, y :: InFrame(x, y) ==>
                At(x, y) == if Inside(rect, x, y) then Over(s, x, y, old(At(x, y))) else old(At(x, y))
    {
      if !s.visible { return; }
      var clipped := Intersect(s.bounds, rect);
      IntersectPoints(s.bounds, rect);
      if clipped.Disjoint? { return; }
      var framed := Intersect(clipped.rect, Rect(0, 0, width, height));
      IntersectPoints(clipped.rect, Rect(0, 0, width, height));
      if framed.Disjoint? {
        assert forall x, y :: InFrame(x, y) ==> Inside(Rect(0, 0, width, height), x, y);
        return;
      }
      var fb := framed.rect;
      assert forall x, y :: InFrame(x, y) ==> (Inside(fb, x, y) <==> Covers(s, x, y) && Inside(rect, x, y)) by {
        assert forall x, y :: InFrame(x, y) ==> Inside(Rect(0, 0, width, height), x, y);
      }
      BlitRows(s, fb);
    }

    method BlitRows(s: Surface, fb: Rect)
      requires Valid() && Backed(s)
      requires fb.width > 0 && fb.height > 0
      requires fb.x >= 0 && fb.y >= 0 && fb.x + fb.width <= width && fb.y + fb.height <= height
      requires forall x, y :: Inside(fb, x, y) ==> Covers(s, x, y)
      modifies framebuffer
      ensures forall x, y :: InFrame(x, y) ==>
                At(x, y) == if Inside(fb, x, y) then Over(s, x, y, old(At(x, y))) else old(At(x, y))
    {
      var row := 0;
      while row < fb.height
        invariant row <= fb.height
        invariant forall x, y :: InFrame(x, y) ==>
                    At(x, y) == if Inside(fb, x, y) && y < fb.y + row then Over(s, x, y, old(At(x, y)))
                      else old(At(x, y))
      {
        var col := 0;
        while col < fb.width
          invariant col <= fb.width
          invariant forall x, y :: InFrame(x, y) ==>
                      At(x, y) == if Inside(fb, x, y) && (y < fb.y + row || (y == fb.y + row && x < fb.x + col))
                                  then Over(s, x, y, old(At(x, y))) else old(At(x, y))
        {
          var x, y := fb.x + col, fb.y + row;
          assert Inside(fb, x, y);
          IndexReached(x - s.bounds.x, y - s.bounds.y, |s.pixels|, s.stride, s.bounds);
          var src := s.pixels[Index(x - s.bounds.x, y - s.bounds.y, s.stride)];
          if s.alpha {
            IndexBounds(x, y, width, height, stride);
            StorePixel(x, y, Blend(framebuffer[Index(x, y, stride)], src));
          } else {
            StorePixel(x, y, src);
          }
          col := col + 1;
        }
        row := row + 1;
      }
    }

    // ----- painting one rectangle

    method SelectNext(rect: Rect, lastZ: int) returns (next: MaybeIndex)
      requires Valid()
      ensures next == Scan(surfaces, rect, lastZ, MAX_SURFACES)
    {
      next := Nothing;
      for i := 0 to MAX_SURFACES
        invariant next == Scan(surfaces, rect, lastZ, i)
      {
        next := Consider(surfaces, rect, lastZ, i, next);
      }
    }

    /** Inside the rectangle the frame is `start` with the surfaces of `order` laid over it;
        outside it is `start`. */
    ghost predicate Layered(start: seq<Pixel>, order: seq<nat>, rect: Rect)
      requires Valid() && Slots(surfaces, order)
      reads this, framebuffer
    {
      && |start| == framebuffer.Length
      && forall x, y :: InFrame(x, y) ==>
           At(x, y) == if Inside(rect, x, y) then Layer(surfaces, order, x, y, Was(start, x, y)) else Was(start, x, y)
    }

    ghost function Was(start: seq<Pixel>, x: int, y: int): Pixel
      requires Valid() && InFrame(x, y) && |start| == framebuffer.Length
      reads this
    {
      IndexBounds(x, y, width, height, stride);
      start[Index(x, y, stride)]
    }

    method DrawOne(rect: Rect, i: nat, ghost start: seq<Pixel>, ghost drawn: seq<nat>)
      requires Valid() && i < |surfaces| && surfaces[i].id != 0
      requires Slots(surfaces, drawn) && Layered(start, drawn, rect)
      modifies framebuffer
      ensures Slots(surfaces, drawn + [i]) && Layered(start, drawn + [i], rect)
    {
      BlitSurfaceRect(surfaces[i], rect);
      forall x, y | InFrame(x, y) {
        LayerStep(surfaces, drawn, i, x, y, Was(start, x, y));
      }
    }

    /** Draws the surfaces of `DrawOrder`, each clipped to the rectangle. A surface at the largest z
        would keep the loop from ending; see `PaintLoopEndsIff`. */
    method DrawSurfacesForRect(rect: Rect)
      requires Valid() && forall i :: i in Candidates(surfaces, rect) ==> surfaces[i].z < INT32_MAX
      modifies framebuffer
      ensures Slots(surfaces, DrawOrder(surfaces, rect, INT32_MIN))
      ensures Layered(old(framebuffer[..]), DrawOrder(surfaces, rect, INT32_MIN), rect)
    {
      ghost var start := framebuffer[..];
      ghost var drawn: seq<nat> := [];
      var lastZ := INT32_MIN;
      ghost var order := DrawOrder(surfaces, rect, INT32_MIN);
      while true
        invariant drawn + DrawOrder(surfaces, rect, lastZ) == order
        invariant Slots(surfaces, drawn) && Layered(start, drawn, rect)
        decreases |Remaining(surfaces, rect, lastZ)|
      {
        var next := SelectNext(rect, lastZ);
        OrderStep(surfaces, rect, lastZ, drawn);
        if next.Nothing? { break; }
        DrawOne(rect, next.index, start, drawn);
        drawn := drawn + [next.index];
        lastZ := surfaces[next.index].z + 1;
      }
    }

    /** The point shows the surfaces that the loop draws for this rectangle, over the clear colour. */
    ghost predicate DrawnFor(ss: seq<Surface>, rect: Rect, x: int, y: int)
      requires Valid() && InFrame(x, y) && AllBacked(ss)
      reads this, framebuffer
    {
      && Slots(ss, DrawOrder(ss, rect, INT32_MIN))
      && At(x, y) == Layer(ss, DrawOrder(ss, rect, INT32_MIN), x, y, CLEAR_COLOR)
    }

    /** Every point shows what was drawn for the last of the rectangles over it. */
    ghost predicate DrawnLast(ss: seq<Surface>, parts: seq<Rect>)
      requires Valid() && AllBacked(ss)
      reads this, framebuffer
    {
      forall x: int, y: int, n: nat :: InFrame(x, y) && LastOver(parts, n, x, y) ==> DrawnFor(ss, parts[n], x, y)
    }

    /** Clears and redraws one rectangle of the frame. */
    method RepaintRect(rect: Rect)
      requires Valid() && forall i :: i in Candidates(surfaces, rect) ==> surfaces[i].z < INT32_MAX
      requires rect.x >= 0 && rect.y >= 0 && rect.x + rect.width <= width && rect.y + rect.height <= height
      modifies framebuffer
      ensures forall x, y :: InFrame(x, y) && !Inside(rect, x, y) ==> At(x, y) == old(At(x, y))
      ensures forall x, y :: InFrame(x, y) && Inside(rect, x, y) ==> DrawnFor(surfaces, rect, x, y)
      ensures NoClash(surfaces, Shown(surfaces)) ==>
                forall x, y :: InFrame(x, y) && Inside(rect, x, y) ==> Painted(x, y)
    {
      CopyForwardRect(rect);
      ghost var start := framebuffer[..];
      DrawSurfacesForRect(rect);
      if NoClash(surfaces, Shown(surfaces)) {
        forall x, y | InFrame(x, y) && Inside(rect, x, y) ensures Painted(x, y) {
          DrawOrderPaintsScene(surfaces, rect, x, y, CLEAR_COLOR);
        }
      }
    }

    lemma NothingDrawn()
      requires Valid()
      ensures DrawnLast(surfaces, [])
      ensures InFrameParts([], Rect(0, 0, width, height)) == []
      ensures forall x, y :: !Damaged([], x, y)
    {}

    /** Repaints one rectangle and lists it as presented. */
    method PresentPart(rect: Rect)
      requires Valid() && forall i :: i in Candidates(surfaces, rect) ==> surfaces[i].z < INT32_MAX
      requires rect.x >= 0 && rect.y >= 0 && rect.x + rect.width <= width && rect.y + rect.height <= height
      requires |presented| < MAX_DAMAGE && DrawnLast(surfaces, presented)
      modifies this`presented, framebuffer
      ensures presented == old(presented) + [rect] && DrawnLast(surfaces, presented)
      ensures forall x, y :: InFrame(x, y) && !Inside(rect, x, y) ==> At(x, y) == old(At(x, y))
      ensures forall x, y :: InFrame(x, y) && !Damaged(presented, x, y) ==>
                At(x, y) == old(At(x, y)) && !Damaged(old(presented), x, y)
      ensures NoClash(surfaces, Shown(surfaces)) ==>
                forall x, y :: InFrame(x, y) && Inside(rect, x, y) ==> Painted(x, y)
    {
      hide NoClash, PixelOfScene, Layer;
      RepaintRect(rect);
      if |presented| < MAX_DAMAGE { presented := presented + [rect]; }
      DamagedAppend(old(presented), rect);
      forall x, y, k: nat | InFrame(x, y) && LastOver(presented, k, x, y)
        ensures DrawnFor(surfaces, presented[k], x, y)
      {
        LastOverNext(old(presented), rect, k, x, y);
      }
    }

    /** Clears and redraws what of each pending rectangle lies in the frame. */
    method RepaintPending()
      requires Valid() && forall i :: i in Shown(surfaces) ==> surfaces[i].z < INT32_MAX
      modifies this`presented, framebuffer
      ensures presented == InFrameParts(Pending(), Rect(0, 0, width, height))
      ensures DrawnLast(surfaces, presented)
      ensures forall x, y :: InFrame(x, y) && !Damaged(presented, x, y) ==> At(x, y) == old(At(x, y))
      ensures old(Clean()) && NoClash(surfaces, Shown(surfaces)) ==>
                forall x, y :: InFrame(x, y) ==> Painted(x, y)
    {
      hide NoClash, PixelOfScene, DrawnFor, DrawnLast, Candidates, InFrameParts, Intersect;
      presented := [];
      NothingDrawn();
      assert old(Clean()) ==> Clean();
      var n := 0;
      ghost var pending := Pending();
      assert pending[0..] == pending;
      while n < damageCount
        invariant n <= damageCount && pending == Pending()
        invariant presented == InFrameParts(pending[..n], Rect(0, 0, width, height))
        invariant DrawnLast(surfaces, presented)
        invariant forall x, y :: InFrame(x, y) && !Damaged(presented, x, y) ==> At(x, y) == old(At(x, y))
        invariant old(Clean()) && NoClash(surfaces, Shown(surfaces)) ==>
                    forall x, y :: InFrame(x, y) && !Damaged(pending[n..], x, y) ==> Painted(x, y)
      {
        var rect := damage[Slot(damageHead, n)];
        assert rect == pending[n] && pending[..n + 1] == pending[..n] + [rect];
        DamageSplits(pending, n);
        var clipped := Intersect(rect, Rect(0, 0, width, height));
        InFrameIsRect(rect);
        InFrameNext(pending, n, Rect(0, 0, width, height));
        if clipped.Overlap? {
          ShownMeets(surfaces, clipped.rect);
          InFrameBounds(rect, Rect(0, 0, width, height));
          PresentPart(clipped.rect);
        }
        n := n + 1;
      }
      assert pending[..n] == pending && pending[n..] == [];
    }

    /** Repaints the pending damage and empties the ring.  In a clash-free scene whose
        undamaged pixels were right, every pixel is right afterwards. */
    method ComposeFrame()
      requires Valid() && forall i :: i in Shown(surfaces) ==> surfaces[i].z < INT32_MAX
      modifies this`damageHead, this`damageCount, this`presented, this`surfaces, framebuffer
      ensures Valid() && Pending() == []
      ensures LooksKept(old(surfaces), surfaces)
      ensures old(UniqueIds()) ==> UniqueIds()
      ensures nextSurfaceId == old(nextSurfaceId)
      ensures presented == InFrameParts(old(Pending()), Rect(0, 0, width, height))
      ensures DrawnLast(old(surfaces), presented)
      ensures forall x, y :: InFrame(x, y) && !Damaged(presented, x, y) ==> At(x, y) == old(At(x, y))
      ensures old(damageCount) > 0 ==> forall i :: 0 <= i < |surfaces| && surfaces[i].id != 0 ==> !surfaces[i].dirty
      ensures old(Clean()) && NoClash(old(surfaces), Shown(old(surfaces))) ==>
                forall x, y :: InFrame(x, y) ==> Painted(x, y)
    {
      hide NoClash, PixelOfScene;
      presented := [];
      assert DrawnLast(surfaces, presented);
      assert damageCount == 0 ==> Pending() == [];
      if damageCount == 0 { return; }
      RepaintPending();
      damageHead, damageCount := 0, 0;
      ClearDirty();
    }

    lemma InFrameIsRect(rect: Rect)
      ensures forall x, y :: InFrame(x, y) && Inside(rect, x, y) <==>
                var c := Intersect(rect, Rect(0, 0, width, height)); c.Overlap? && Inside(c.rect, x, y)
    {
      IntersectPoints(rect, Rect(0, 0, width, height));
      assert forall x, y :: InFrame(x, y) <==> Inside(Rect(0, 0, width, height), x, y);
    }

    // ----- operations on the table

    function FindSurface(id: nat): (r: MaybeIndex)
      requires Valid()
      reads this
      ensures r.Just? ==> r.index < |surfaces| && surfaces[r.index].id == id && id != 0
    {
      if id == 0 then Nothing else FirstWithId(surfaces, id, 0)
    }

    method Find(id: nat) returns (r: MaybeIndex)
      requires Valid()
      ensures r == FindSurface(id)
    {
      if id == 0 { return Nothing; }
      for i := 0 to MAX_SURFACES
        invariant FirstWithId(surfaces, id, 0) == FirstWithId(surfaces, id, i)
      {
        if surfaces[i].id == id { return Just(i); }
      }
      return Nothing;
    }

    /** Adds the placed rectangle to the pending list; a full ring keeps only the surface's bounds. */
    method QueueDamage(id: nat, rect: Rect, exposed: bool) returns (status: Status)
      requires Valid()
      modifies this`damageHead, this`damageCount, this`damage, this`surfaces
      ensures Valid() && LooksKept(old(surfaces), surfaces)
      ensures status == (if rect.width <= 0 || rect.height <= 0 then InvalidArgument
                         else if old(FindSurface(id)).Nothing? then NotFound else Ok)
      ensures status != Ok ==> Pending() == old(Pending()) && surfaces == old(surfaces)
      ensures status == Ok ==> var b := old(surfaces[FindSurface(id).index].bounds);
                Pending() == Queued(old(Pending()), Placed(rect, b, exposed), b)
      ensures StayDirty(old(surfaces), surfaces)
      ensures status == Ok && old(damageCount) < MAX_DAMAGE ==> surfaces[old(FindSurface(id)).index].dirty
    {
      if rect.width <= 0 || rect.height <= 0 { return InvalidArgument; }
      var found := Find(id);
      if found.Nothing? { return NotFound; }
      var k := found.index;
      var b := surfaces[k].bounds;
      if damageCount >= MAX_DAMAGE {
        damageHead, damageCount := 0, 1;
        damage := damage[0 := b];
        return Ok;
      }
      var placed := Placed(rect, b, exposed);
      RingPush(damage, damageHead, damageCount, placed);
      damage := damage[Slot(damageHead, damageCount) := placed];
      damageCount := damageCount + 1;
      surfaces := surfaces[k := surfaces[k].(dirty := true)];
      return Ok;
    }

    /** Queues the whole footprint of slot k, which has just been changed from what it was in
        `before`; with either flag what is queued is its bounds.  If the frame was clean for the
        old table it is clean for the new one. */
    method QueueFull(k: nat, exposed: bool, ghost before: seq<Surface>) returns (status: Status)
      requires Valid() && k < |surfaces| && surfaces[k].id != 0
      requires AllBacked(before) && OnlyLookOf(before, surfaces, k)
      modifies this`damageHead, this`damageCount, this`damage, this`surfaces
      ensures Valid() && LooksKept(old(surfaces), surfaces) && StayDirty(old(surfaces), surfaces) && status == Ok
      ensures old(UniqueIds()) ==> UniqueIds()
      ensures old(UniqueIds()) ==> var b := old(surfaces[k].bounds); Pending() == Queued(old(Pending()), b, b)
      ensures old(UniqueIds() && damageCount < MAX_DAMAGE) ==> damageCount == old(damageCount) + 1
      ensures old(UniqueIds() && damageCount < MAX_DAMAGE) ==>
                forall x, y :: Inside(surfaces[k].bounds, x, y) ==> Damaged(Pending(), x, y)
      ensures old(UniqueIds() && damageCount < MAX_DAMAGE && CleanFor(before) && FootprintQueued(before[k], k)) ==>
              Clean()
    {
      if UniqueIds() { FirstWithIdIs(surfaces, k); }
      FirstWithIdExists(surfaces, k);
      var b := surfaces[k].bounds;
      status := QueueDamage(surfaces[k].id, if exposed then b else Rect(0, 0, b.width, b.height), exposed);
      if old(UniqueIds() && damageCount < MAX_DAMAGE) {
        DamagedAppend(old(Pending()), b);
        if old(CleanFor(before) && FootprintQueued(before[k], k)) {
          forall x, y | InFrame(x, y) && !Damaged(Pending(), x, y) ensures Painted(x, y) {
            SceneChange(before, surfaces, k, x, y, CLEAR_COLOR);
          }
        }
      }
    }

    /** Wherever `s` lay is pending already or lies under slot k. */
    ghost predicate FootprintQueued(s: Surface, k: nat)
      requires Valid() && k < |surfaces|
      reads this
    {
      forall x, y :: Covers(s, x, y) ==> Damaged(Pending(), x, y) || Inside(surfaces[k].bounds, x, y)
    }

    /** Fills the first free slot.  The frame stays clean when the ring has room and no live
        surface still carries the next id, which the 32-bit counter may have wrapped round to. */
    method CreateSurface(bounds: Rect, z: int, alpha: bool, pixels: seq<Pixel>, strideInPixels: nat)
      returns (status: Status, id: nat)
      requires Valid() && INT32_MIN <= z <= INT32_MAX
      requires pixels != [] && bounds.width > 0 && bounds.height > 0 && strideInPixels >= bounds.width ==>
                 Reaches(|pixels|, strideInPixels, bounds)
      modifies this`nextSurfaceId, this`damageHead, this`damageCount, this`damage, this`surfaces
      ensures Valid()
      ensures status == (if pixels == [] || bounds.width <= 0 || bounds.height <= 0 || strideInPixels < bounds.width
                         then InvalidArgument
                         else if FirstWithId(old(surfaces), 0, 0).Nothing? then NoMemory else Ok)
      ensures status != Ok ==> surfaces == old(surfaces) && Pending() == old(Pending())
      ensures status == Ok ==> nextSurfaceId == if id + 1 == 0x1_0000_0000 then 1 else id + 1
      ensures status == Ok ==> id == old(nextSurfaceId) && var k := FirstWithId(old(surfaces), 0, 0).index;
                surfaces[k].dirty &&
                LooksKept(old(surfaces)[k := Surface(id, bounds, z, alpha, true, false, true, pixels, strideInPixels)],
                    surfaces)
      ensures old(UniqueIds()) && old(FindSurface(nextSurfaceId)).Nothing? ==>
                UniqueIds() && (old(Clean()) && old(damageCount) < MAX_DAMAGE ==> Clean())
    {
      id := 0;
      if pixels == [] || bounds.width <= 0 || bounds.height <= 0 || strideInPixels < bounds.width {
        return InvalidArgument, 0;
      }
      for i := 0 to MAX_SURFACES
        invariant FirstWithId(surfaces, 0, 0) == FirstWithId(surfaces, 0, i)
        invariant Valid() && surfaces == old(surfaces) && nextSurfaceId == old(nextSurfaceId)
        invariant damageHead == old(damageHead) && damageCount == old(damageCount) && damage == old(damage)
      {
        if surfaces[i].id == 0 {
          id := nextSurfaceId;
          nextSurfaceId := if nextSurfaceId + 1 == 0x1_0000_0000 then 1 else nextSurfaceId + 1;
          surfaces := surfaces[i := Surface(id, bounds, z, alpha, true, false, true, pixels, strideInPixels)];
          assert old(UniqueIds()) && old(FindSurface(nextSurfaceId)).Nothing? ==> UniqueIds();
          assert old(Clean()) ==> CleanFor(old(surfaces));
          status := QueueFull(i, false, old(surfaces));
          return Ok, id;
        }
      }
      return NoMemory, 0;
    }

    /** No damage is queued, so a clean frame stays clean exactly when the surface was not to be seen
        outside the pending damage; see `DestroyKeepsCleanIff`. */
    method DestroySurface(id: nat) returns (status: Status)
      requires Valid()
      modifies this`surfaces
      ensures Valid() && Pending() == old(Pending()) && (old(UniqueIds()) ==> UniqueIds())
      ensures status == if old(FindSurface(id)).Nothing? then NotFound else Ok
      ensures surfaces == if status == Ok then old(surfaces)[old(FindSurface(id)).index := NO_SURFACE]
              else old(surfaces)
      ensures old(Clean()) && status == Ok ==>
                (Clean() <==> Unseen(old(surfaces), old(FindSurface(id)).index, width, height, Pending()))
      ensures old(Clean()) && status == Ok ==>
                (AllVeiled(old(surfaces), old(FindSurface(id)).index, width, height, Pending()) ==> Clean())
    {
      var found := Find(id);
      if found.Nothing? { return NotFound; }
      var k := found.index;
      surfaces := surfaces[k := NO_SURFACE];
      ghost var ss := old(surfaces);
      if AllVeiled(ss, k, width, height, Pending()) {
        VeiledIsUnseen(ss, k, ss[k].pixels, width, height, Pending());
        assert Repixeled(ss, k, ss[k].pixels) == ss;
      }
      return Ok;
    }

    /** Damages what `Placed` makes of the surface's own bounds. */
    method MarkSurfaceDirty(id: nat) returns (status: Status)
      requires Valid() && UniqueIds()
      modifies this`damageHead, this`damageCount, this`damage, this`surfaces
      ensures Valid() && LooksKept(old(surfaces), surfaces)
      ensures status == if old(FindSurface(id)).Nothing? then NotFound else Ok
      ensures status != Ok ==> Pending() == old(Pending())
      ensures status == Ok ==> surfaces[old(FindSurface(id)).index].dirty
      ensures status == Ok ==> var b := old(surfaces[FindSurface(id).index].bounds);
                Pending() == Queued(old(Pending()), Placed(b, b, false), b)
      ensures status == Ok && old(Pending()) == [] ==> var b := old(surfaces[FindSurface(id).index].bounds);
                (forall x, y :: Inside(b, x, y) ==> Damaged(Pending(), x, y)) <==> b.x == 0 && b.y == 0
    {
      var found := Find(id);
      if found.Nothing? { return NotFound; }
      var k := found.index;
      var b := surfaces[k].bounds;
      surfaces := surfaces[k := surfaces[k].(dirty := true)];
      FirstWithIdIs(surfaces, k);
      status := QueueDamage(id, b, false);
      MarkDirtyCoversIff(b);
      DamagedAppend([], Placed(b, b, false));
      assert [] + [Placed(b, b, false)] == [Placed(b, b, false)];
    }

    /** Damages the old footprint, then the new one. */
    method SetSurfaceBounds(id: nat, bounds: Rect) returns (status: Status)
      requires Valid() && UniqueIds()
      requires FindSurface(id).Just? && bounds.width > 0 && bounds.height > 0 ==>
                 var s := surfaces[FindSurface(id).index]; Reaches(|s.pixels|, s.stride, bounds)
      modifies this`damageHead, this`damageCount, this`damage, this`surfaces
      ensures Valid() && UniqueIds()
      ensures status == if old(FindSurface(id)).Nothing? || bounds.width <= 0 || bounds.height <= 0
                        then InvalidArgument else Ok
      ensures status == Ok ==> var k := old(FindSurface(id)).index;
                surfaces[k].dirty && LooksKept(old(surfaces)[k := old(surfaces)[k].(bounds := bounds)], surfaces)
      ensures status != Ok ==> surfaces == old(surfaces) && Pending() == old(Pending())
      ensures old(Clean()) && (status == Ok ==> old(damageCount) + 1 < MAX_DAMAGE) ==> Clean()
    {
      var found := Find(id);
      if found.Nothing? || bounds.width <= 0 || bounds.height <= 0 { return InvalidArgument; }
      var k := found.index;
      status := QueueFull(k, true, surfaces);
      ghost var mid := surfaces;
      surfaces := surfaces[k := surfaces[k].(bounds := bounds, dirty := true)];
      assert old(Clean()) && old(damageCount) + 1 < MAX_DAMAGE ==> CleanFor(mid);
      status := QueueFull(k, false, mid);
    }

    method SetSurfaceVisible(id: nat, visible: bool) returns (status: Status)
      requires Valid() && UniqueIds()
      modifies this`damageHead, this`damageCount, this`damage, this`surfaces
      ensures Valid() && UniqueIds()
      ensures status == if old(FindSurface(id)).Nothing? then NotFound else Ok
      ensures status == Ok ==> var k := old(FindSurface(id)).index;
                surfaces[k].dirty && LooksKept(old(surfaces)[k := old(surfaces)[k].(visible := visible)], surfaces)
      ensures status != Ok ==> surfaces == old(surfaces) && Pending() == old(Pending())
      ensures old(Clean()) && (status == Ok ==> old(damageCount) < MAX_DAMAGE) ==> Clean()
    {
      var found := Find(id);
      if found.Nothing? { return NotFound; }
      var k := found.index;
      surfaces := surfaces[k := surfaces[k].(visible := visible, dirty := true)];
      assert old(Clean()) ==> CleanFor(old(surfaces));
      status := QueueFull(k, !visible, old(surfaces));
    }

    /** Takes the focus from every surface and finds the highest z. */
    method ClearFocus(k: nat) returns (maxZ: int)
      requires Valid() && k < |surfaces| && surfaces[k].id != 0
      modifies this`surfaces
      ensures Valid() && Pending() == old(Pending()) && |surfaces| == old(|surfaces|)
      ensures forall i :: 0 <= i < |surfaces| ==>
                surfaces[i] == if old(surfaces[i].id) != 0 then old(surfaces)[i].(focused := false)
                  else old(surfaces)[i]
      ensures forall i :: 0 <= i < |surfaces| && surfaces[i].id != 0 ==> surfaces[i].z <= maxZ
      ensures exists m :: 0 <= m < |surfaces| && surfaces[m].id != 0 && surfaces[m].z == maxZ
    {
      maxZ := surfaces[k].z;
      ghost var m := k;
      for i := 0 to MAX_SURFACES
        invariant |surfaces| == old(|surfaces|)
        invariant forall j :: 0 <= j < |surfaces| ==>
                    surfaces[j] == if j < i && old(surfaces[j].id) != 0 then old(surfaces)[j].(focused := false)
                      else old(surfaces)[j]
        invariant m < |surfaces| && surfaces[m].id != 0 && maxZ == surfaces[m].z
        invariant forall j :: 0 <= j < i && surfaces[j].id != 0 ==> surfaces[j].z <= maxZ
      {
        if surfaces[i].id != 0 {
          surfaces := surfaces[i := surfaces[i].(focused := false)];
          if surfaces[i].z > maxZ {
            maxZ := surfaces[i].z;
            m := i;
          }
        }
      }
    }

    method RaiseToFront(k: nat)
      requires Valid() && k < |surfaces| && surfaces[k].id != 0
      requires forall i :: 0 <= i < |surfaces| && surfaces[i].id != 0 ==> surfaces[i].z < INT32_MAX
      modifies this`surfaces
      ensures Valid() && Pending() == old(Pending()) && (old(UniqueIds()) ==> UniqueIds())
      ensures Raised(old(surfaces), surfaces, k) && surfaces[k].dirty
    {
      var maxZ := ClearFocus(k);
      surfaces := surfaces[k := surfaces[k].(focused := true, z := maxZ + 1, dirty := true)];
    }

    /** Raises a surface one above the highest z in the table and takes the focus from the rest. */
    method FocusSurface(id: nat) returns (status: Status)
      requires Valid() && UniqueIds()
      requires FindSurface(id).Just? ==> forall i :: 0 <= i < |surfaces| && surfaces[i].id != 0 ==>
               surfaces[i].z < INT32_MAX
      modifies this`damageHead, this`damageCount, this`damage, this`surfaces
      ensures Valid() && UniqueIds()
      ensures status == if old(FindSurface(id)).Nothing? then NotFound else Ok
      ensures status == Ok ==> var k := old(FindSurface(id)).index;
                surfaces[k].dirty && Raised(old(surfaces), surfaces, k)
      ensures status != Ok ==> surfaces == old(surfaces) && Pending() == old(Pending())
      ensures old(Clean()) && (status == Ok ==> old(damageCount) < MAX_DAMAGE) ==> Clean()
    {
      var found := Find(id);
      if found.Nothing? { return NotFound; }
      var k := found.index;
      RaiseToFront(k);
      ghost var mid := surfaces;
      assert old(Clean()) ==> CleanFor(old(surfaces));
      status := QueueFull(k, false, old(surfaces));
      RaisedThenDirty(old(surfaces), mid, surfaces, k);
    }

    method SubmitSurfacePixels(id: nat, pixels: seq<Pixel>, strideInPixels: nat) returns (status: Status)
      requires Valid() && UniqueIds()
      requires FindSurface(id).Just? && pixels != [] &&
               strideInPixels >= surfaces[FindSurface(id).index].bounds.width ==>
                 Reaches(|pixels|, strideInPixels, surfaces[FindSurface(id).index].bounds)
      modifies this`damageHead, this`damageCount, this`damage, this`surfaces
      ensures Valid() && UniqueIds()
      ensures status == if old(FindSurface(id)).Nothing? || pixels == [] ||
                           strideInPixels < old(surfaces[FindSurface(id).index].bounds.width) then InvalidArgument
                             else Ok
      ensures status == Ok ==> var k := old(FindSurface(id)).index;
                surfaces[k].dirty &&
                LooksKept(old(surfaces)[k := old(surfaces)[k].(pixels := pixels, stride := strideInPixels)], surfaces)
      ensures status != Ok ==> surfaces == old(surfaces) && Pending() == old(Pending())
      ensures old(Clean()) && (status == Ok ==> old(damageCount) < MAX_DAMAGE) ==> Clean()
    {
      var found := Find(id);
      if found.Nothing? || pixels == [] || strideInPixels < surfaces[found.index].bounds.width {
        return InvalidArgument;
      }
      var k := found.index;
      surfaces := surfaces[k := surfaces[k].(pixels := pixels, stride := strideInPixels, dirty := true)];
      assert old(Clean()) ==> CleanFor(old(surfaces));
      status := QueueFull(k, false, old(surfaces));
    }

    /** The first of the highest surfaces under the point, and where on it the point lies. */
    method HitTest(x: int, y: int) returns (hit: bool, id: nat, localX: int, localY: int, ghost best: MaybeIndex)
      requires Valid()
      ensures Hit(surfaces, x, y, best) && (hit <==> best.Just?)
      ensures hit ==> var s := surfaces[best.index];
              id == s.id != 0 && localX == x - s.bounds.x && localY == y - s.bounds.y
      ensures hit ==> var s := surfaces[best.index]; 0 <= localX < s.bounds.width && 0 <= localY < s.bounds.height
      ensures !hit ==> id == 0 && localX == 0 && localY == 0
    {
      var found := Nothing;
      for i := 0 to MAX_SURFACES
        invariant found.Nothing? ==> forall j :: 0 <= j < i ==> !Covers(surfaces[j], x, y)
        invariant found.Just? ==>
                    found.index < i && Covers(surfaces[found.index], x, y)
                    && forall j :: 0 <= j < i && Covers(surfaces[j], x, y) ==>
                      surfaces[j].z <= surfaces[found.index].z &&
                        (surfaces[j].z == surfaces[found.index].z ==> found.index <= j)
      {
        if Covers(surfaces[i], x, y) && (found.Nothing? || surfaces[i].z > surfaces[found.index].z) {
          found := Just(i);
        }
      }
      best := found;
      if found.Nothing? { return false, 0, 0, 0, best; }
      var s := surfaces[found.index];
      return true, s.id, x - s.bounds.x, y - s.bounds.y, best;
    }

    /** After a compose of a clash-free scene the hit test and the screen agree: an opaque hit is
        the pixel shown, and a miss shows the clear colour. */
    lemma HitAgreesWithScreen(x: int, y: int, best: MaybeIndex)
      requires Valid() && InFrame(x, y) && Painted(x, y) && Hit(surfaces, x, y, best)
      ensures best.Nothing? ==> At(x, y) == CLEAR_COLOR
      ensures best.Just? && (!surfaces[best.index].alpha ||
                Channel(SourcePixel(surfaces[best.index], x, y), 0x100_0000) == 255) ==>
                At(x, y) == SourcePixel(surfaces[best.index], x, y)
    {
      TopDecidesPixel(surfaces, x, y, CLEAR_COLOR, if best.Just? then best.index else 0);
    }

    /** The pixel that the top surface has at the local point of a hit is the one in the buffer, in its row
        and column, and if it is opaque it stands in the frame, in the row and column of the hit. */
    lemma HitIsInTheBuffer(x: int, y: int, best: MaybeIndex, localX: int, localY: int)
      requires Valid() && InFrame(x, y) && Painted(x, y) && Hit(surfaces, x, y, best) && best.Just?
      requires localX == x - surfaces[best.index].bounds.x && localY == y - surfaces[best.index].bounds.y
      ensures 0 <= localX && 0 <= localY && 0 <= y * stride + x < framebuffer.Length
      ensures var s := surfaces[best.index];
              && 0 <= localY * s.stride + localX < |s.pixels|
              && var own := s.pixels[localY * s.stride + localX];
              (!s.alpha || Channel(own, 0x100_0000) == 255 ==> framebuffer[y * stride + x] == own)
    {
      IndexBounds(x, y, width, height, stride);
      TopShowsItsPixel(surfaces, best.index, localX, localY, CLEAR_COLOR);
      TopDecidesPixel(surfaces, x, y, CLEAR_COLOR, best.index);
    }

    method ClearDirty()
      requires Valid()
      modifies this`surfaces
      ensures Valid() && Pending() == old(Pending()) && (old(UniqueIds()) ==> UniqueIds())
      ensures LooksKept(old(surfaces), surfaces)
      ensures forall i :: 0 <= i < |surfaces| && surfaces[i].id != 0 ==> !surfaces[i].dirty
      ensures forall x, y :: InFrame(x, y) && old(Painted(x, y)) ==> Painted(x, y)
    {
      for i := 0 to MAX_SURFACES
        invariant Valid() && Pending() == old(Pending())
        invariant LooksKept(old(surfaces), surfaces)
        invariant forall j :: 0 <= j < i && surfaces[j].id != 0 ==> !surfaces[j].dirty
      {
        if surfaces[i].id != 0 { surfaces := surfaces[i := surfaces[i].(dirty := false)]; }
      }
      forall x, y | InFrame(x, y) && old(Painted(x, y)) ensures Painted(x, y) {
        assert Covering(surfaces, x, y) == Covering(old(surfaces), x, y);
        PaintFrame(old(surfaces), surfaces, Covering(surfaces, x, y), x, y, CLEAR_COLOR);
      }
    }
  }

  // ----- runs that go wrong

  const DOT := Rect(0, 0, 1, 1)

  lemma {:induction false} FirstAt(ss: seq<Surface>, id: nat, from: nat, n: nat)
    requires from <= n < |ss| && ss[n].id == id && forall i :: from <= i < n ==> ss[i].id != id
    ensures FirstWithId(ss, id, from) == Just(n)
    decreases n - from
  {
    if from < n { FirstAt(ss, id, from + 1, n); }
  }

  predicate Window(s: Surface, id: nat, z: int) { s.id == id && s.bounds == DOT && s.z == z && s.visible && !s.alpha }

  predicate FreeFrom(ss: seq<Surface>, n: nat) {
    |ss| == MAX_SURFACES && forall i :: n <= i < |ss| ==> ss[i].id == 0
  }

  lemma NoWindow(ss: seq<Surface>)
    requires FreeFrom(ss, 0) && AllBacked(ss)
    ensures Shown(ss) == {} && PixelOfScene(ss, 0, 0, CLEAR_COLOR) == CLEAR_COLOR && FirstWithId(ss, 0, 0) == Just(0)
  {
    assert Covering(ss, 0, 0) == {};
  }

  lemma OneWindow(ss: seq<Surface>, id: nat)
    requires FreeFrom(ss, 1) && AllBacked(ss) && id > 0 && Window(ss[0], id, 0) && ss[0].pixels == [0]
    ensures Shown(ss) == {0} && NoClash(ss, Shown(ss)) && FirstWithId(ss, id, 0) == Just(0)
    ensures PixelOfScene(ss, 0, 0, CLEAR_COLOR) == 0
  {
    assert Covering(ss, 0, 0) == {0} && IsTop(ss, {0}, 0) && SourcePixel(ss[0], 0, 0) == 0;
    TopDecidesPixel(ss, 0, 0, CLEAR_COLOR, 0);
  }

  /** A surface is created and composed, and destroyed: it stays on the screen. */
  method DestroyedStaysOnScreen(fb: array<Pixel>) returns (c: Compositor)
    requires fb.Length == 1
    modifies fb
    ensures c.Valid() && c.Pending() == [] && Shown(c.surfaces) == {} && !c.Clean()
  {
    hide PixelOfScene, Shown, NoClash, FirstWithId, InFrameParts, Unseen, AllVeiled;
    fb[0] := CLEAR_COLOR;
    c := new Compositor(fb, 1, 1, 1);
    assert c.Clean();
    NoWindow(c.surfaces);
    var status, id := c.CreateSurface(DOT, 0, false, [0], 1);
    OneWindow(c.surfaces, id);
    c.ComposeFrame();
    OneWindow(c.surfaces, id);
    assert c.InFrame(0, 0) && c.Painted(0, 0) && c.At(0, 0) == 0;
    status := c.DestroySurface(id);
    NoWindow(c.surfaces);
    NothingDamaged();
    assert !c.Painted(0, 0);
  }

  lemma NothingDamaged()
    ensures forall x, y :: !Damaged([], x, y)
  {}

  predicate Trio(ss: seq<Surface>, ids: seq<nat>, zs: seq<int>) {
    && |ids| == |zs| == 3 && FreeFrom(ss, 3)
    && (forall i :: 0 <= i < 3 ==> ids[i] == i + 1 && Window(ss[i], ids[i], zs[i]))
  }

  lemma TrioFound(ss: seq<Surface>, ids: seq<nat>, zs: seq<int>, i: nat)
    requires Trio(ss, ids, zs) && i < 3
    ensures FirstWithId(ss, ids[i], 0) == Just(i)
  {
    FirstAt(ss, ids[i], 0, i);
  }

  lemma TrioRaised(ss: seq<Surface>, ss': seq<Surface>, ids: seq<nat>, zs: seq<int>, k: nat, z: int)
    requires Trio(ss, ids, zs) && k < 3 && Raised(ss, ss', k)
    requires (forall i :: 0 <= i < 3 ==> zs[i] < z) && exists i :: 0 <= i < 3 && zs[i] + 1 == z
    ensures Trio(ss', ids, zs[k := z])
  {
    var m :| 0 <= m < |ss| && ss[m].id != 0 && ss'[k].z == ss[m].z + 1;
    assert m < 3;
  }

  lemma TrioClashes(ss: seq<Surface>, ids: seq<nat>)
    requires Trio(ss, ids, [12, 11, 10]) && forall i :: 0 <= i < |ss| ==> ss[i].z >= INT32_MIN
    ensures Candidates(ss, DOT) == {0, 1, 2} && !DrawsAll(ss, DOT)
  {
    assert Intersect(DOT, DOT).Overlap?;
    forall i: nat | i < |ss| ensures Candidate(ss, DOT, i) <==> i < 3 {
      if i < 3 { assert Window(ss[i], ids[i], [12, 11, 10][i]); }
    }
    assert ss[0].z == 12 && ss[1].z == 11 && ss[2].z == 10;
    assert 2 in Candidates(ss, DOT) && Hides(ss, Candidates(ss, DOT), 0, 1);
    DrawsAllIffNoClash(ss, DOT);
  }

  method OpenThree(fb: array<Pixel>) returns (c: Compositor, ids: seq<nat>)
    requires fb.Length == 1
    ensures fresh(c) && c.Valid() && c.UniqueIds() && Trio(c.surfaces, ids, [2, 0, 10])
  {
    hide PixelOfScene, Shown, FirstWithId, Unrolled, Queued, StayDirty, Compositor.Clean, Compositor.CleanFor;
    c := new Compositor(fb, 1, 1, 1);
    FirstAt(c.surfaces, 0, 0, 0);
    var status, first := c.CreateSurface(DOT, 2, false, [0], 1);
    FirstAt(c.surfaces, 0, 0, 1);
    var second, third;
    status, second := c.CreateSurface(DOT, 0, false, [0], 1);
    FirstAt(c.surfaces, 0, 0, 2);
    status, third := c.CreateSurface(DOT, 10, false, [0], 1);
    ids := [first, second, third];
  }

  /** Three windows are created with z 2, 0 and 10; the second is focused, and then the first. They
      stand at 12, 11 and 10, and one of them is no longer drawn. */
  method FocusHidesWindow(fb: array<Pixel>) returns (c: Compositor)
    requires fb.Length == 1
    ensures c.Valid() && Candidates(c.surfaces, DOT) == {0, 1, 2} && !DrawsAll(c.surfaces, DOT)
  {
    hide PixelOfScene, Shown, FirstWithId, Queued, Raised, DrawsAll, Candidates, Compositor.Clean, Compositor.CleanFor;
    var ids;
    c, ids := OpenThree(fb);
    TrioFound(c.surfaces, ids, [2, 0, 10], 1);
    ghost var ss := c.surfaces;
    var status := c.FocusSurface(ids[1]);
    assert [2, 0, 10][2] + 1 == 11 && [2, 0, 10][1 := 11] == [2, 11, 10];
    TrioRaised(ss, c.surfaces, ids, [2, 0, 10], 1, 11);
    TrioFound(c.surfaces, ids, [2, 11, 10], 0);
    ss := c.surfaces;
    status := c.FocusSurface(ids[0]);
    assert [2, 11, 10][1] + 1 == 12 && [2, 11, 10][0 := 12] == [12, 11, 10];
    TrioRaised(ss, c.surfaces, ids, [2, 11, 10], 0, 12);
    TrioClashes(c.surfaces, ids);
  }

  /** What of the pending rectangles lies in the frame, in order. */
  function InFrameParts(pending: seq<Rect>, frame: Rect): (parts: seq<Rect>)
    ensures |parts| <= |pending|
  {
    if pending == [] then []
    else
      var last := Intersect(pending[|pending| - 1], frame);
      InFrameParts(pending[..|pending| - 1], frame) + if last.Overlap? then [last.rect] else []
  }

  lemma InFrameNext(pending: seq<Rect>, n: nat, frame: Rect)
    requires n < |pending|
    ensures var part := Intersect(pending[n], frame);
            InFrameParts(pending[..n + 1], frame) ==
            InFrameParts(pending[..n], frame) + if part.Overlap? then [part.rect] else []
    ensures |InFrameParts(pending[..n], frame)| <= n
  {
    assert pending[..n + 1][..n] == pending[..n] && pending[..n + 1][n] == pending[n];
  }

  lemma InFrameBounds(rect: Rect, frame: Rect)
    requires Intersect(rect, frame).Overlap?
    ensures var r := Intersect(rect, frame).rect;
            && r.x >= frame.x && r.x + r.width <= frame.x + frame.width
            && r.y >= frame.y && r.y + r.height <= frame.y + frame.height
  {}

  lemma ShownMeets(ss: seq<Surface>, rect: Rect)
    ensures Candidates(ss, rect) <= Shown(ss)
  {}

  function FirstWithId(ss: seq<Surface>, id: nat, from: nat): (r: MaybeIndex)
    requires from <= |ss|
    ensures r.Just? ==> from <= r.index < |ss| && ss[r.index].id == id
    ensures r.Nothing? ==> forall i :: from <= i < |ss| ==> ss[i].id != id
    decreases |ss| - from
  {
    if from == |ss| then Nothing else if ss[from].id == id then Just(from) else FirstWithId(ss, id, from + 1)
  }

  lemma FirstWithIdIs(ss: seq<Surface>, k: nat)
    requires k < |ss| && forall i, j :: 0 <= i < j < |ss| && ss[i].id != 0 ==> ss[i].id != ss[j].id
    requires ss[k].id != 0
    ensures FirstWithId(ss, ss[k].id, 0) == Just(k)
  {}

  /** Slot k now stands one above the highest z of the old table and alone has the focus. */
  ghost predicate Raised(ss: seq<Surface>, ss': seq<Surface>, k: nat) {
    && OnlyLookOf(ss, ss', k) && SameLook(ss[k].(z := ss'[k].z), ss'[k]) && ss'[k].focused
    && (forall i :: 0 <= i < |ss| && ss[i].id != 0 ==> ss[i].z < ss'[k].z && (i != k ==> !ss'[i].focused))
    && (exists m :: 0 <= m < |ss| && ss[m].id != 0 && ss'[k].z == ss[m].z + 1)
  }

  lemma RaisedThenDirty(ss: seq<Surface>, mid: seq<Surface>, ss': seq<Surface>, k: nat)
    requires Raised(ss, mid, k) && LooksKept(mid, ss')
    ensures Raised(ss, ss', k)
  {
    var m :| 0 <= m < |ss| && ss[m].id != 0 && mid[k].z == ss[m].z + 1;
    assert ss'[k].z == ss[m].z + 1;
  }

  /** No dirty flag is taken back. */
  predicate StayDirty(ss: seq<Surface>, ss': seq<Surface>) {
    |ss'| == |ss| && forall i :: 0 <= i < |ss| && ss[i].dirty ==> ss'[i].dirty
  }

  /** Nothing but dirty flags differs. */
  ghost predicate LooksKept(ss: seq<Surface>, ss': seq<Surface>) {
    |ss'| == |ss| && forall i :: 0 <= i < |ss| ==> ss'[i] == ss[i].(dirty := ss'[i].dirty)
  }

  lemma FirstWithIdExists(ss: seq<Surface>, k: nat)
    requires k < |ss|
    ensures FirstWithId(ss, ss[k].id, 0).Just?
  {}

  function Placed(rect: Rect, bounds: Rect, exposed: bool): Rect {
    if exposed then rect else Rect(bounds.x + rect.x, bounds.y + rect.y, rect.width, rect.height)
  }

  function Slot(head: nat, n: nat): nat { (head + n) % MAX_DAMAGE }

  lemma RingPush(ring: seq<Rect>, head: nat, count: nat, r: Rect)
    requires |ring| == MAX_DAMAGE && head < MAX_DAMAGE && count < MAX_DAMAGE
    ensures Unrolled(ring[Slot(head, count) := r], head, count + 1) == Unrolled(ring, head, count) + [r]
  {
    assert forall n: nat :: n < count ==> Slot(head, n) != Slot(head, count);
  }

  lemma DamagedAppend(pending: seq<Rect>, r: Rect)
    ensures forall x, y :: Damaged(pending + [r], x, y) <==> Damaged(pending, x, y) || Inside(r, x, y)
  {
    forall x, y ensures Damaged(pending + [r], x, y) <==> Damaged(pending, x, y) || Inside(r, x, y) {
      var all := pending + [r];
      assert all[|pending|] == r && forall n :: 0 <= n < |pending| ==> all[n] == pending[n];
      if Damaged(pending, x, y) {
        var n :| 0 <= n < |pending| && Inside(pending[n], x, y);
        assert Inside(all[n], x, y);
      }
      if Inside(r, x, y) { assert Inside(all[|pending|], x, y); }
    }
  }

  lemma DamageSplits(pending: seq<Rect>, n: nat)
    requires n < |pending|
    ensures forall x, y :: Damaged(pending[n..], x, y) <==> Inside(pending[n], x, y) || Damaged(pending[n + 1..], x, y)
  {
    forall x, y ensures Damaged(pending[n..], x, y) <==> Inside(pending[n], x, y) || Damaged(pending[n + 1..], x, y) {
      var a, b := pending[n..], pending[n + 1..];
      assert a[0] == pending[n] && forall k :: 0 <= k < |b| ==> b[k] == a[k + 1];
      if Damaged(a, x, y) {
        var k :| 0 <= k < |a| && Inside(a[k], x, y);
        if k > 0 { assert Inside(b[k - 1], x, y); }
      }
      if Inside(pending[n], x, y) { assert Inside(a[0], x, y); }
      if Damaged(b, x, y) {
        var k :| 0 <= k < |b| && Inside(b[k], x, y);
        assert Inside(a[k + 1], x, y);
      }
    }
  }
}
