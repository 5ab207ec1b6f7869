// The EGFX renderer itself (plugins/rdp/src/egfx.rs): surfaces, the bitmap cache, compositing
// onto the desktop, and the byte accounting that bounds them.

/** Sums over maps, for the byte counters. */
module Accounting {
  import opened FixedWidth

  ghost function Total(sizes: map<u16, nat>): nat
    decreases |sizes|
  {
    if sizes == map[] then 0
    else
      var k :| k in sizes;
      sizes[k] + Total(sizes - {k})
  }

  /** The total does not depend on the order in which entries are taken out. */
  lemma {:induction false} TotalRemove(sizes: map<u16, nat>, k: u16)
    requires k in sizes
    ensures Total(sizes) == sizes[k] + Total(sizes - {k})
    decreases |sizes|
  {
    var first :| first in sizes && Total(sizes) == sizes[first] + Total(sizes - {first});
    if first != k {
      TotalRemove(sizes - {first}, k);
      TotalRemove(sizes - {k}, first);
      assert sizes - {first} - {k} == sizes - {k} - {first};
    }
  }

  lemma TotalInsert(sizes: map<u16, nat>, k: u16, size: nat)
    ensures Total(sizes[k := size]) == size + Total(sizes - {k})
  {
    TotalRemove(sizes[k := size], k);
    assert sizes[k := size] - {k} == sizes - {k};
  }

  lemma TotalBounds(sizes: map<u16, nat>, k: u16)
    ensures Total(sizes) == (if k in sizes then sizes[k] else 0) + Total(sizes - {k})
  {
    if k in sizes {
      TotalRemove(sizes, k);
    } else {
      assert sizes - {k} == sizes;
    }
  }
}

module Egfx {
  import opened Wrappers
  import opened FixedWidth
  import opened DirtyRects
  import opened Pixels
  import opened Viewer
  import opened GraphicsChannel
  import opened Accounting
  import opened EgfxPublication

  const MAX_SURFACE_DIMENSION: u16 := 16384
  const MAX_DESKTOP_BYTES: nat := 256 * 1024 * 1024
  const MAX_SINGLE_SURFACE_BYTES: nat := 256 * 1024 * 1024
  const MAX_TOTAL_SURFACE_BYTES: nat := 512 * 1024 * 1024
  const MAX_CACHE_BYTES: nat := 64 * 1024 * 1024

  datatype SurfaceRegion = SurfaceRegion(x: u16, y: u16, width: u16, height: u16) {
    function At(p: Point): SurfaceRegion {
      SurfaceRegion(p.x, p.y, width, height)
    }

    function AsRect(): Rect {
      Rect(x, y, width, height)
    }

    function ByteLength(): nat {
      4 * (width * height)
    }
  }

  datatype ExclusiveRectangle = ExclusiveRectangle(left: u16, top: u16, right: u16, bottom: u16)

  /** The right and bottom edges do not belong to it; an empty rectangle is refused. */
  function FromExclusive(r: ExclusiveRectangle): (region: Option<SurfaceRegion>)
    ensures region.Some? <==> r.left < r.right && r.top < r.bottom
    ensures region.Some? ==> forall px: int, py: int ::
              region.value.AsRect().Contains(px, py) <==> r.left <= px < r.right && r.top <= py < r.bottom
  {
    if r.left >= r.right || r.top >= r.bottom then None
    else Some(SurfaceRegion(r.left, r.top, r.right - r.left, r.bottom - r.top))
  }

  datatype Point = Point(x: u16, y: u16)

  datatype EgfxCacheEntry = EgfxCacheEntry(width: u16, height: u16, pixels: seq<u8>) {
    ghost predicate Sized() {
      |pixels| == 4 * (width * height)
    }
  }

  function CheckedPixelBytes(width: u16, height: u16, maxBytes: nat): Option<nat> {
    if width == 0 || height == 0 then None
    else if width > MAX_SURFACE_DIMENSION || height > MAX_SURFACE_DIMENSION then None
    else if 4 * (width * height) > maxBytes then None
    else Some(4 * (width * height))
  }

  /** `validate_surface_region` */
  predicate RegionInside(width: u16, height: u16, region: SurfaceRegion) {
    && region.width != 0 && region.height != 0
    && region.x + region.width <= width && region.y + region.height <= height
  }

  /** A region is drawable exactly when it has pixels and all of them are the surface's. */
  lemma WhenInside(width: u16, height: u16, region: SurfaceRegion)
    ensures RegionInside(width, height, region) <==>
            && (exists px, py :: region.AsRect().Contains(px, py))
            && (forall px, py | region.AsRect().Contains(px, py) :: 0 <= px < width && 0 <= py < height)
  {
    var rect := region.AsRect();
    if region.width > 0 && region.height > 0 {
      assert rect.Contains(region.x, region.y);
      assert rect.Contains(region.x + region.width - 1, region.y + region.height - 1);
    }
  }

  class EgfxSurface {
    const width: u16
    const height: u16
    const pixels: array<u8>
    var outputOrigin: Option<(u32, u32)>

    constructor (width: u16, height: u16, pixels: array<u8>)
      ensures this.width == width && this.height == height && this.pixels == pixels && outputOrigin == None
    {
      this.width, this.height, this.pixels := width, height, pixels;
      outputOrigin := None;
    }

    ghost predicate Sized() {
      width > 0 && height > 0 && pixels.Length == 4 * (width * height)
    }
  }

  /** `source` painted at each destination point in turn. */
  ghost function Stamped(pixels: seq<u8>, width: u16, region: SurfaceRegion, source: seq<u8>,
                         points: seq<Point>): (r: seq<u8>)
    requires width > 0 && |source| == region.ByteLength()
    ensures |r| == |pixels|
    decreases |points|
  {
    if points == [] then pixels
    else
      var last := |points| - 1;
      Pixels.Painted(Stamped(pixels, width, region, source, points[..last]), width, region.At(points[last]).AsRect(),
                     source, region.width, 0, 0)
  }

  lemma NothingStamped(pixels: seq<u8>, width: u16, region: SurfaceRegion, source: seq<u8>, points: seq<Point>)
    requires width > 0 && |source| == region.ByteLength()
    ensures Stamped(pixels, width, region, source, points[..0]) == pixels
  {
  }

  lemma StampedNext(pixels: seq<u8>, width: u16, region: SurfaceRegion, source: seq<u8>, points: seq<Point>, i: nat)
    requires width > 0 && |source| == region.ByteLength() && i < |points|
    requires Readable(source, region.width, 0, 0, region.width, region.height)
    ensures Stamped(pixels, width, region, source, points[..i + 1])
         == Pixels.Painted(Stamped(pixels, width, region, source, points[..i]), width, region.At(points[i]).AsRect(),
           source, region.width, 0, 0)
  {
    hide Pixels.Painted, Readable;
    assert points[..i + 1][..i] == points[..i];
  }

  /** Snapshot semantics: a pixel shows what the last point over it put there, and is untouched if there is none. */
  lemma {:induction false} StampedByte(pixels: seq<u8>, width: u16, region: SurfaceRegion, source: seq<u8>,
                                       points: seq<Point>, k: nat, last: int)
    requires width > 0 && |source| == region.ByteLength()
    requires k < |pixels|
    requires -1 <= last < |points|
    requires forall i | last < i < |points| ::
               !region.At(points[i]).AsRect().Contains(ColumnOf(width, k), RowOf(width, k))
    requires last >= 0 ==> region.At(points[last]).AsRect().Contains(ColumnOf(width, k), RowOf(width, k))
    ensures last < 0 ==> Stamped(pixels, width, region, source, points)[k] == pixels[k]
    ensures last >= 0 ==>
              var x, y := ColumnOf(width, k) - points[last].x, RowOf(width, k) - points[last].y;
              var at := FirstByte(region.width, x, y) + k % 4;
              at < |source| && Stamped(pixels, width, region, source, points)[k] == source[at]
    decreases |points|
  {
    hide ColumnOf, RowOf, FirstByte;
    if points != [] {
      var n := |points| - 1;
      var before := Stamped(pixels, width, region, source, points[..n]);
      var rect := region.At(points[n]).AsRect();
      if last < n {
        StampedByte(pixels, width, region, source, points[..n], k, last);
        PaintedAt(before, width, rect, source, region.width, 0, 0, k);
      } else {
        SourceByteInBounds(width, rect, source, region.width, 0, 0, k);
      }
    }
  }

  /** Reading the last stamped region back yields the source: a cached region survives the round trip. */
  lemma StampThenCrop(pixels: seq<u8>, width: u16, height: u16, region: SurfaceRegion, source: seq<u8>,
                      points: seq<Point>)
    requires |pixels| == 4 * (width * height) && |source| == region.ByteLength() && points != []
    requires RegionInside(width, height, region.At(points[|points| - 1]))
    ensures var stamped := Stamped(pixels, width, region, source, points);
            var back := region.At(points[|points| - 1]).AsRect();
            && Readable(stamped, width, back.x, back.y, back.width, back.height)
            && Crop(stamped, width, back) == source
  {
    hide ColumnOf, RowOf, FirstByte, CropByte, PaintedByte;
    var last := |points| - 1;
    var back := region.At(points[last]).AsRect();
    var whole := Rect(0, 0, region.width, region.height);
    CropWhole(source, region.width, region.height, whole);
    PaintThenCrop(Stamped(pixels, width, region, source, points[..last]), width, height, back, source, region.width,
      whole);
  }

  /** Desktop pixel (px, py) lies over the surface's pixel at that distance from its origin, which is in the region. */
  ghost predicate LiesOver(origin: Option<(u32, u32)>, width: u16, height: u16, region: SurfaceRegion, px: int,
                           py: int) {
    && origin.Some? && 0 <= px < width && 0 <= py < height
    && region.x <= px - origin.value.0 < region.x + region.width
    && region.y <= py - origin.value.1 < region.y + region.height
  }

  /** Where a mapped surface's region lands on the desktop, if any of it is visible. */
  function VisibleAt(origin: Option<(u32, u32)>, width: u16, height: u16, region: SurfaceRegion): (r: Option<Rect>)
    ensures r.Some? ==>
              && r.value.Within(Rect(0, 0, width, height))
              && origin.Some? && r.value.width <= region.width && r.value.height <= region.height
  {
    if origin.None? then None
    else
      var x := SaturatingAdd32(origin.value.0, region.x);
      var y := SaturatingAdd32(origin.value.1, region.y);
      if x >= width || y >= height then None
      else Some(Rect(x, y, Min(region.width, width - x), Min(region.height, height - y)))
  }

  /** A desktop pixel is in the visible rectangle exactly when it lies over the region. */
  lemma VisiblePixels(origin: Option<(u32, u32)>, width: u16, height: u16, region: SurfaceRegion)
    ensures var r := VisibleAt(origin, width, height, region);
            forall px: int, py: int ::
              (r.Some? && r.value.Contains(px, py)) <==> LiesOver(origin, width, height, region, px, py)
  {
  }

  /** Nothing is visible exactly when no desktop pixel lies over the region. */
  lemma WhenNothingVisible(origin: Option<(u32, u32)>, width: u16, height: u16, region: SurfaceRegion)
    requires region.width > 0 && region.height > 0
    ensures VisibleAt(origin, width, height, region).None? <==>
              forall px, py :: !LiesOver(origin, width, height, region, px, py)
  {
    var visible := VisibleAt(origin, width, height, region);
    VisiblePixels(origin, width, height, region);
    if visible.Some? {
      assert visible.value.Contains(visible.value.x, visible.value.y);
      assert LiesOver(origin, width, height, region, visible.value.x, visible.value.y);
    }
  }

  lemma RegionReadable(pixels: seq<u8>, width: u16, height: u16, region: SurfaceRegion, w: nat, h: nat)
    requires |pixels| == 4 * (width * height) && RegionInside(width, height, region)
    requires w <= region.width && h <= region.height
    ensures Readable(pixels, width, region.x, region.y, w, h)
  {
    MulMonotone(width, width, region.y + h, height);
  }

  lemma PaintedChangesOnly(image: Image, rect: Rect, source: seq<u8>, sourceWidth: nat, sx: nat, sy: nat)
    requires image.Valid() && rect.Within(image.Bounds())
    requires Readable(source, sourceWidth, sx, sy, rect.width, rect.height)
    ensures var painted := Pixels.Painted(image.bytes, image.width, rect, source, sourceWidth, sx, sy);
            ChangedOnlyIn(image, image.(bytes := painted), [rect])
  {
    hide ColumnOf, RowOf, FirstByte;
    var bytes := Pixels.Painted(image.bytes, image.width, rect, source, sourceWidth, sx, sy);
    forall k | 0 <= k < |image.bytes|
      ensures Covered([rect], ColumnOf(image.width, k), RowOf(image.width, k)) || image.bytes[k] == bytes[k]
    {
      PaintedAt(image.bytes, image.width, rect, source, sourceWidth, sx, sy, k);
      assert rect in [rect];
    }
  }

  // ----- what a drawing surface shows on the desktop -----

  /** The visible part of a region, painted, shows the region wherever it lies on the desktop. */
  lemma VisibleIsDrawn(desktop: seq<u8>, width: u16, height: u16, origin: (u32, u32), region: SurfaceRegion,
                       source: seq<u8>, sourceWidth: u16, sourceHeight: u16)
    requires width > 0 && |desktop| == 4 * (width * height)
    requires |source| == 4 * (sourceWidth * sourceHeight) && RegionInside(sourceWidth, sourceHeight, region)
    ensures var visible := VisibleAt(Some(origin), width, height, region);
            && (visible.Some? ==>
                  Readable(source, sourceWidth, region.x, region.y, visible.value.width, visible.value.height))
            && var after := if visible.None? then desktop
                            else Pixels.Painted(desktop, width, visible.value, source, sourceWidth, region.x, region.y);
            Drawn(desktop, after, width, height, Rect(region.x, region.y, region.width, region.height), source,
              sourceWidth, origin.0, origin.1)
  {
    hide Readable, Pixels.Painted, PixelAt;
    var visible := VisibleAt(Some(origin), width, height, region);
    var part := Rect(region.x, region.y, region.width, region.height);
    VisiblePixels(Some(origin), width, height, region);
    if visible.Some? {
      RegionReadable(source, sourceWidth, sourceHeight, region, visible.value.width, visible.value.height);
      VisibleCorner(origin, width, height, region);
      forall x: int, y: int | 0 <= x < width && 0 <= y < height
        ensures visible.value.Contains(x, y) <==> part.Contains(x - origin.0, y - origin.1)
      {
        assert LiesOver(Some(origin), width, height, region, x, y) <==> part.Contains(x - origin.0, y - origin.1);
      }
      hide VisibleAt;
      PaintedIsDrawn(desktop, width, height, visible.value, source, sourceWidth, region.x, region.y, part);
    } else {
      forall x: int, y: int | 0 <= x < width && 0 <= y < height
        ensures PixelAt(desktop, width, x, y)
                == if part.Contains(x - origin.0, y - origin.1)
                   then PixelAt(source, sourceWidth, x - origin.0, y - origin.1) else PixelAt(desktop, width, x, y)
      {
        assert !LiesOver(Some(origin), width, height, region, x, y);
      }
    }
  }

  lemma VisibleCorner(origin: (u32, u32), width: u16, height: u16, region: SurfaceRegion)
    ensures var visible := VisibleAt(Some(origin), width, height, region);
            visible.Some? ==>
              visible.value.x - region.x == origin.0 && visible.value.y - region.y == origin.1
  {
  }

  /** One of the `width` by `height` areas at these points has the pixel. */
  ghost predicate OverPoint(points: seq<Point>, width: u16, height: u16, px: int, py: int) {
    exists i :: 0 <= i < |points| && OverOne(points[i], width, height, px, py)
  }

  ghost predicate OverOne(p: Point, width: u16, height: u16, px: int, py: int) {
    p.x <= px < p.x + width && p.y <= py < p.y + height
  }

  /** A part of a surface drawn on the desktop at the surface's origin; nothing if it is unmapped. */
  ghost predicate DrawnOn(before: seq<u8>, after: seq<u8>, desktop: Option<(u16, u16)>, origin: Option<(u32, u32)>,
                          part: Rect, surface: seq<u8>, surfaceWidth: nat) {
    if desktop.Some? && origin.Some? then
      Drawn(before, after, desktop.value.0, desktop.value.1, part, surface, surfaceWidth, origin.value.0,
        origin.value.1)
    else after == before
  }

  /** The desktop shows the surface, as it is now, wherever one of the areas lies, and is as before elsewhere. */
  ghost predicate Refreshed(before: seq<u8>, after: seq<u8>, desktop: Option<(u16, u16)>, origin: Option<(u32, u32)>,
                            surface: seq<u8>, surfaceWidth: nat, size: (u16, u16), points: seq<Point>) {
    if desktop.Some? && origin.Some? then
      && |after| == |before|
      && forall x: int, y: int | 0 <= x < desktop.value.0 && 0 <= y < desktop.value.1 ::
           PixelAt(after, desktop.value.0, x, y)
           == if OverPoint(points, size.0, size.1, x - origin.value.0, y - origin.value.1)
              then PixelAt(surface, surfaceWidth, x - origin.value.0, y - origin.value.1)
              else PixelAt(before, desktop.value.0, x, y)
    else after == before
  }

  lemma NothingRefreshed(before: seq<u8>, desktop: Option<(u16, u16)>, origin: Option<(u32, u32)>, surface: seq<u8>,
                         surfaceWidth: nat, size: (u16, u16), points: seq<Point>)
    ensures Refreshed(before, before, desktop, origin, surface, surfaceWidth, size, points[..0])
  {
    hide PixelAt;
  }

  /** Drawing at one more point refreshes the desktop there, and changes nothing that was shown of the others. */
  lemma RefreshedNext(d0: seq<u8>, d1: seq<u8>, d2: seq<u8>, desktop: Option<(u16, u16)>, origin: Option<(u32, u32)>,
                      s1: seq<u8>, s2: seq<u8>, surfaceWidth: nat, surfaceHeight: nat, size: (u16, u16),
                      points: seq<Point>, i: nat, source: seq<u8>)
    requires i < |points|
    requires forall j | 0 <= j <= i ::
               points[j].x + size.0 <= surfaceWidth && points[j].y + size.1 <= surfaceHeight
    requires Refreshed(d0, d1, desktop, origin, s1, surfaceWidth, size, points[..i])
    requires Drawn(s1, s2, surfaceWidth, surfaceHeight, Rect(0, 0, size.0, size.1), source, size.0, points[i].x,
               points[i].y)
    requires DrawnOn(d1, d2, desktop, origin, Rect(points[i].x, points[i].y, size.0, size.1), s2, surfaceWidth)
    ensures Refreshed(d0, d2, desktop, origin, s2, surfaceWidth, size, points[..i + 1])
  {
    hide PixelAt;
    if desktop.Some? && origin.Some? {
      var width, height, dx, dy := desktop.value.0, desktop.value.1, origin.value.0, origin.value.1;
      forall x: int, y: int | 0 <= x < width && 0 <= y < height
        ensures PixelAt(d2, width, x, y)
                == if OverPoint(points[..i + 1], size.0, size.1, x - dx, y - dy)
                   then PixelAt(s2, surfaceWidth, x - dx, y - dy) else PixelAt(d0, width, x, y)
      {
        var px, py := x - dx, y - dy;
        OverNext(points, i, size.0, size.1, px, py);
        if !OverOne(points[i], size.0, size.1, px, py) && OverPoint(points[..i], size.0, size.1, px, py) {
          var j :| 0 <= j < i && OverOne(points[..i][j], size.0, size.1, px, py);
          assert points[j].x + size.0 <= surfaceWidth && points[j].y + size.1 <= surfaceHeight;
          assert PixelAt(s2, surfaceWidth, px, py) == PixelAt(s1, surfaceWidth, px, py);
        }
      }
    }
  }

  lemma PointsInside(width: u16, height: u16, region: SurfaceRegion, points: seq<Point>, i: nat)
    requires i < |points| && forall j | 0 <= j <= i :: RegionInside(width, height, region.At(points[j]))
    ensures forall j | 0 <= j <= i ::
              points[j].x + region.width <= width && points[j].y + region.height <= height
  {
  }

  lemma OverNext(points: seq<Point>, i: nat, width: u16, height: u16, px: int, py: int)
    requires i < |points|
    ensures OverPoint(points[..i + 1], width, height, px, py)
            <==> OverPoint(points[..i], width, height, px, py) || OverOne(points[i], width, height, px, py)
  {
    var all, fewer := points[..i + 1], points[..i];
    if OverPoint(fewer, width, height, px, py) {
      var j :| 0 <= j < |fewer| && OverOne(fewer[j], width, height, px, py);
      assert all[j] == fewer[j];
    }
    if OverOne(points[i], width, height, px, py) {
      assert all[i] == points[i];
    }
    if OverPoint(all, width, height, px, py) {
      var j :| 0 <= j < |all| && OverOne(all[j], width, height, px, py);
      assert j < i ==> fewer[j] == all[j];
    }
  }

  class EgfxRenderer {
    const channel: ClientRdpOutputChannel
    var desktopSize: Option<(u16, u16)>
    var desktopPixels: array<u8>
    var surfaces: map<u16, EgfxSurface>
    var allocatedSurfaceBytes: nat
    var cache: map<u16, EgfxCacheEntry>
    var allocatedCacheBytes: nat
    var pendingDesktopDirty: seq<Rect>
    var needsBaseFrame: bool
    var graphicsEpoch: u64
    var awaitingReactivation: bool
    var publishedFirstFrame: bool
    var nextTraceId: u64
    var failed: bool

    // ----- what the fields mean -----

    ghost function Desktop(): Option<Image>
      reads `desktopSize, `desktopPixels, desktopPixels
    {
      if desktopSize.None? then None
      else Some(Image(desktopSize.value.0, desktopSize.value.1, desktopPixels[..]))
    }

    ghost function Published(): Publisher
      reads `desktopSize, `desktopPixels, `pendingDesktopDirty, `needsBaseFrame, `graphicsEpoch, `awaitingReactivation
      reads `publishedFirstFrame, `nextTraceId, `failed, desktopPixels
    {
      Publisher(Desktop(), pendingDesktopDirty, needsBaseFrame, graphicsEpoch, awaitingReactivation,
                publishedFirstFrame, nextTraceId, failed)
    }

    ghost function SurfaceSizes(): map<u16, nat>
      reads `surfaces
    {
      map id | id in surfaces :: surfaces[id].pixels.Length
    }

    ghost function CacheSizes(): map<u16, nat>
      reads `cache
    {
      map slot | slot in cache :: |cache[slot].pixels|
    }

    /** Both counters are exact sums of the live buffers and stay under their caps. */
    ghost predicate Accounted()
      reads `surfaces, `allocatedSurfaceBytes, `cache, `allocatedCacheBytes
    {
      && allocatedSurfaceBytes == Total(SurfaceSizes()) <= MAX_TOTAL_SURFACE_BYTES
      && allocatedCacheBytes == Total(CacheSizes()) <= MAX_CACHE_BYTES
      && SurfacesSized()
      && CacheSized()
    }

    ghost predicate SurfacesSized()
      reads `surfaces
    {
      forall id | id in surfaces :: surfaces[id].Sized()
    }

    ghost predicate CacheSized()
      reads `cache
    {
      forall slot | slot in cache :: cache[slot].Sized()
    }

    /** No two buffers share storage. */
    ghost predicate Separate()
      reads `surfaces, `desktopPixels
    {
      && (forall id | id in surfaces :: surfaces[id].pixels != desktopPixels)
      && (forall id, other | id in surfaces && other in surfaces && id != other ::
            surfaces[id] != surfaces[other] && surfaces[id].pixels != surfaces[other].pixels)
    }

    ghost predicate Valid()
      reads this, channel, desktopPixels
    {
      && Accounted()
      && Separate()
      && Inv(Published(), channel.State())
    }

    constructor (channel: ClientRdpOutputChannel, graphicsEpoch: u64)
      ensures Valid() && this.channel == channel && Published() == Initial.(epoch := graphicsEpoch)
      ensures fresh(desktopPixels) && surfaces == map[] && cache == map[]
    {
      this.channel := channel;
      desktopSize := None;
      desktopPixels := new u8[0];
      surfaces := map[];
      allocatedSurfaceBytes := 0;
      cache := map[];
      allocatedCacheBytes := 0;
      pendingDesktopDirty := [];
      needsBaseFrame := true;
      this.graphicsEpoch := graphicsEpoch;
      awaitingReactivation := false;
      publishedFirstFrame := false;
      nextTraceId := 0;
      failed := false;
      new;
      assert SurfaceSizes() == map[] && CacheSizes() == map[];
    }

    /** Drawing nothing is a composite of no regions. */
    lemma NothingComposited()
      requires Valid()
      ensures Composited(Published(), Published(), [])
      ensures SurfacesSized() && CacheSized()
      ensures forall id | id in surfaces :: surfaces[id].Sized() && surfaces[id].width > 0
    {
      CompositeNothing(Published());
    }

    // ----- compositing -----

    /** Beside `before`, the desktop shows the given part of a mapped surface at the surface's origin. */
    ghost predicate Displays(before: seq<u8>, surfaceId: u16, part: Rect)
      reads `desktopSize, `desktopPixels, desktopPixels, `surfaces
      reads if surfaceId in surfaces then {surfaces[surfaceId], surfaces[surfaceId].pixels} else {}
    {
      if surfaceId in surfaces then
        var surface := surfaces[surfaceId];
        DrawnOn(before, desktopPixels[..], desktopSize, surface.outputOrigin, part, surface.pixels[..], surface.width)
      else desktopPixels[..] == before
    }

    /** The same for several areas of one size. */
    ghost predicate DisplaysAt(before: seq<u8>, surfaceId: u16, size: (u16, u16), points: seq<Point>)
      reads `desktopSize, `desktopPixels, desktopPixels, `surfaces
      reads if surfaceId in surfaces then {surfaces[surfaceId], surfaces[surfaceId].pixels} else {}
    {
      if surfaceId in surfaces then
        var surface := surfaces[surfaceId];
        Refreshed(before, desktopPixels[..], desktopSize, surface.outputOrigin, surface.pixels[..], surface.width, size,
          points)
      else desktopPixels[..] == before
    }

    /** Where a surface's region is visible right now. */
    ghost function VisibleRect(surfaceId: u16, region: SurfaceRegion): Option<Rect>
      reads `surfaces, `desktopSize, if surfaceId in surfaces then {surfaces[surfaceId]} else {}
    {
      if desktopSize.None? || surfaceId !in surfaces then None
      else VisibleAt(surfaces[surfaceId].outputOrigin, desktopSize.value.0, desktopSize.value.1, region)
    }

    /** The surface exists and the region lies inside it. */
    ghost predicate InSurface(surfaceId: u16, region: SurfaceRegion)
      reads `surfaces
    {
      surfaceId in surfaces && RegionInside(surfaces[surfaceId].width, surfaces[surfaceId].height, region)
    }

    /** Copies the visible part of a mapped surface's region onto the desktop and records it as dirty. */
    method CompositeSurfaceRegion(surfaceId: u16, region: SurfaceRegion) returns (ok: bool, ghost regions: seq<Rect>)
      requires Valid()
      modifies this`pendingDesktopDirty, desktopPixels
      ensures Valid()
      ensures ok <==> desktopSize.None? || (surfaceId in surfaces &&
                        (surfaces[surfaceId].outputOrigin.None? || InSurface(surfaceId, region)))
      ensures Composited(old(Published()), Published(), regions)
      ensures !ok || VisibleRect(surfaceId, region).None? ==> Published() == old(Published())
      ensures var visible := VisibleRect(surfaceId, region);
              ok && visible.Some? ==>
                && regions == [visible.value]
                && Readable(surfaces[surfaceId].pixels[..], surfaces[surfaceId].width, region.x, region.y,
                  visible.value.width, visible.value.height)
                && desktopPixels[..] == Pixels.Painted(old(desktopPixels[..]), desktopSize.value.0, visible.value,
                                                       surfaces[surfaceId].pixels[..], surfaces[surfaceId].width,
                                                         region.x, region.y)
      ensures ok ==> Displays(old(desktopPixels[..]), surfaceId, Rect(region.x, region.y, region.width, region.height))
      ensures !ok ==> desktopPixels[..] == old(desktopPixels[..])
    {
      hide Total, Drawn, Readable, VisibleAt, Pixels.Painted, Inv, Composited;
      regions := [];
      NothingComposited();
      if desktopSize.None? {
        return true, regions;
      }
      if surfaceId !in surfaces {
        return false, regions;
      }
      var surface := surfaces[surfaceId];
      if surface.outputOrigin.None? {
        return true, regions;
      }
      if !RegionInside(surface.width, surface.height, region) {
        return false, regions;
      }
      var visible := VisibleAt(surface.outputOrigin, desktopSize.value.0, desktopSize.value.1, region);
      DesktopSized();
      VisibleIsDrawn(desktopPixels[..], desktopSize.value.0, desktopSize.value.1, surface.outputOrigin.value, region,
        surface.pixels[..], surface.width, surface.height);
      if visible.None? {
        return true, regions;
      }
      regions := [visible.value];
      PaintDesktop(surface, region.x, region.y, visible.value);
      ok := true;
    }

    /** Copies the rows of a visible part and queues it as dirty. */
    method PaintDesktop(surface: EgfxSurface, x: u16, y: u16, rect: Rect)
      requires Valid() && desktopSize.Some? && surface.pixels != desktopPixels
      requires rect.Within(Rect(0, 0, desktopSize.value.0, desktopSize.value.1))
      requires Readable(surface.pixels[..], surface.width, x, y, rect.width, rect.height)
      modifies this`pendingDesktopDirty, desktopPixels
      ensures Valid() && Composited(old(Published()), Published(), [rect])
      ensures desktopSize.value.0 > 0
              && desktopPixels[..] == Pixels.Painted(old(desktopPixels[..]), desktopSize.value.0, rect,
                                                     surface.pixels[..], surface.width, x, y)
    {
      hide Total, Readable, Pixels.Painted, Accounted, Separate, Coherent, AgreeOutside, Tight, Absorbed, MergedInTurn,
        MergedCheaply, NoMergeablePair;
      ghost var before := Published();
      PaintedChangesOnly(Desktop().value, rect, surface.pixels[..], surface.width, x, y);
      VisibleRoom(Desktop().value, rect);
      CopyRows(surface.pixels[..], surface.width, x, y, desktopPixels, desktopSize.value.0, rect);
      WithinFits(pendingDesktopDirty + [rect], Desktop().value);
      ghost var inputs := pendingDesktopDirty + [rect];
      pendingDesktopDirty := QueueBoundedDirtyRect(pendingDesktopDirty, rect, MAX_DIRTY_RECTS);
      TightWithin(pendingDesktopDirty, inputs, Desktop().value.Bounds());
      CompositeKeepsInv(before, Published(), channel.State(), [rect]);
    }

    lemma DesktopSized()
      requires Valid() && desktopSize.Some?
      ensures desktopSize.value.0 > 0 && |desktopPixels[..]| == 4 * (desktopSize.value.0 * desktopSize.value.1)
    {
    }

    // ----- drawing -----

    ghost function PixelsOf(surfaceId: u16): set<object>
      reads `surfaces
    {
      if surfaceId in surfaces then {surfaces[surfaceId].pixels} else {}
    }

    /** Paints one region of a surface; a mapped surface shows it on the desktop at once. */
    method WriteSurfaceRegion(surfaceId: u16, region: SurfaceRegion, source: seq<u8>)
      returns (ok: bool, ghost regions: seq<Rect>)
      requires Valid()
      modifies this`pendingDesktopDirty, desktopPixels, PixelsOf(surfaceId)
      ensures Valid()
      ensures ok <==> InSurface(surfaceId, region) && |source| == region.ByteLength()
      ensures Composited(old(Published()), Published(), regions)
      ensures !ok ==>
                && Published() == old(Published()) && desktopPixels[..] == old(desktopPixels[..])
                && (surfaceId in surfaces ==> surfaces[surfaceId].pixels[..] == old(surfaces[surfaceId].pixels[..]))
      ensures ok ==>
                && Readable(source, region.width, 0, 0, region.width, region.height)
                && surfaces[surfaceId].pixels[..]
                   == Pixels.Painted(old(surfaces[surfaceId].pixels[..]), surfaces[surfaceId].width, region.AsRect(),
                     source, region.width, 0, 0)
      ensures ok && VisibleRect(surfaceId, region).Some? ==>
                var visible := VisibleRect(surfaceId, region).value;
                && Readable(surfaces[surfaceId].pixels[..], surfaces[surfaceId].width, region.x, region.y,
                  visible.width, visible.height)
                && desktopPixels[..] == Pixels.Painted(old(desktopPixels[..]), desktopSize.value.0, visible,
                                                       surfaces[surfaceId].pixels[..], surfaces[surfaceId].width,
                                                         region.x, region.y)
      ensures ok ==>
                && Drawn(old(surfaces[surfaceId].pixels[..]), surfaces[surfaceId].pixels[..], surfaces[surfaceId].width,
                     surfaces[surfaceId].height, Rect(0, 0, region.width, region.height), source, region.width,
                     region.x, region.y)
                && Displays(old(desktopPixels[..]), surfaceId, Rect(region.x, region.y, region.width, region.height))
    {
      hide Inv, Total, Composited, CacheSized, Drawn;
      regions := [];
      NothingComposited();
      if surfaceId !in surfaces {
        return false, regions;
      }
      var surface := surfaces[surfaceId];
      if !RegionInside(surface.width, surface.height, region) {
        return false, regions;
      }
      if |source| != region.ByteLength() {
        return false, regions;
      }
      SurfaceRoom(surface, region);
      PaintedIsDrawn(surface.pixels[..], surface.width, surface.height, region.AsRect(), source, region.width, 0, 0,
        Rect(0, 0, region.width, region.height));
      BlitRgbaRegion(source, region.width, surface.pixels, surface.width, region.AsRect());
      ok, regions := CompositeSurfaceRegion(surfaceId, region);
    }

    method CopySurfaceRegion(surfaceId: u16, region: SurfaceRegion) returns (pixels: Option<seq<u8>>)
      requires Valid()
      ensures pixels.Some? <==> InSurface(surfaceId, region)
      ensures pixels.Some? ==>
                && Readable(surfaces[surfaceId].pixels[..], surfaces[surfaceId].width, region.x, region.y, region.width,
                  region.height)
                && pixels.value == Crop(surfaces[surfaceId].pixels[..], surfaces[surfaceId].width, region.AsRect())
    {
      if surfaceId !in surfaces {
        return None;
      }
      var surface := surfaces[surfaceId];
      if !RegionInside(surface.width, surface.height, region) {
        return None;
      }
      RegionReadable(surface.pixels[..], surface.width, surface.height, region, region.width, region.height);
      var extracted := ExtractRgbaRegion(surface.pixels[..], surface.width, region.AsRect());
      pixels := Some(extracted);
    }

    /** Writes the same pixels at each destination point in order, stopping at the first that does not fit. */
    method WriteAtPoints(surfaceId: u16, region: SurfaceRegion, source: seq<u8>, points: seq<Point>)
      returns (ok: bool, ghost done: nat, ghost regions: seq<Rect>)
      requires Valid() && |source| == region.ByteLength()
      modifies this`pendingDesktopDirty, desktopPixels, PixelsOf(surfaceId)
      ensures Valid()
      ensures ok <==> forall i | 0 <= i < |points| :: InSurface(surfaceId, region.At(points[i]))
      ensures done <= |points| && (ok <==> done == |points|) && (!ok ==> !InSurface(surfaceId, region.At(points[done])))
      ensures surfaceId in surfaces ==>
                && surfaces[surfaceId].width > 0
                && surfaces[surfaceId].pixels[..]
                   == Stamped(old(surfaces[surfaceId].pixels[..]), surfaces[surfaceId].width, region, source,
                     points[..done])
      ensures done == 0 ==> desktopPixels[..] == old(desktopPixels[..])
      ensures DisplaysAt(old(desktopPixels[..]), surfaceId, (region.width, region.height), points[..done])
      ensures Composited(old(Published()), Published(), regions)
    {
      hide Valid, Composited, Pixels.Painted, RegionInside, Readable, Published, VisibleRect, Stamped,
        EgfxSurface.Sized, DrawnOn, Refreshed, Drawn;
      ghost var before := Published();
      ghost var desktop := desktopPixels[..];
      ghost var original := if surfaceId in surfaces then surfaces[surfaceId].pixels[..] else [];
      regions := [];
      NothingComposited();
      done := 0;
      var i := 0;
      if surfaceId in surfaces {
        NothingStamped(original, surfaces[surfaceId].width, region, source, points);
        NothingRefreshed(desktop, desktopSize, surfaces[surfaceId].outputOrigin, original, surfaces[surfaceId].width,
          (region.width, region.height), points);
      }
      while i < |points|
        invariant done == i <= |points|
        invariant Valid()
        invariant forall j | 0 <= j < done :: InSurface(surfaceId, region.At(points[j]))
        invariant surfaceId in surfaces ==>
                    && surfaces[surfaceId].width > 0
                    && surfaces[surfaceId].pixels[..]
                      == Stamped(original, surfaces[surfaceId].width, region, source, points[..done])
        invariant done == 0 ==> desktopPixels[..] == desktop
        invariant DisplaysAt(desktop, surfaceId, (region.width, region.height), points[..done])
        invariant Composited(before, Published(), regions)
      {
        ghost var middle := Published();
        ghost var more;
        ghost var shown := desktopPixels[..];
        ghost var stamped := if surfaceId in surfaces then surfaces[surfaceId].pixels[..] else [];
        ok, more := WriteSurfaceRegion(surfaceId, region.At(points[i]), source);
        if !ok {
          return;
        }
        ghost var surface := surfaces[surfaceId];
        PointsInside(surface.width, surface.height, region, points, i);
        RefreshedNext(desktop, shown, desktopPixels[..], desktopSize, surface.outputOrigin, stamped, surface.pixels[..],
          surface.width, surface.height, (region.width, region.height), points, i, source);
        CompositeTwice(before, middle, Published(), regions, more);
        regions := regions + more;
        StampedNext(original, surfaces[surfaceId].width, region, source, points, i);
        i := i + 1;
        done := i;
      }
      assert points[..done] == points;
      ok := true;
    }

    /** The source is read once, before the first write, so an overlapping destination still receives the original. */
    method SurfaceToSurface(sourceId: u16, sourceRectangle: ExclusiveRectangle, destinationId: u16, points: seq<Point>)
      returns (ok: bool, ghost done: nat, ghost regions: seq<Rect>)
      requires Valid()
      modifies this`pendingDesktopDirty, desktopPixels, PixelsOf(destinationId)
      ensures Valid()
      ensures var from := FromExclusive(sourceRectangle);
              ok <==> from.Some? && InSurface(sourceId, from.value)
                      && forall i | 0 <= i < |points| :: InSurface(destinationId, from.value.At(points[i]))
      ensures done <= |points| && (ok ==> done == |points|)
      ensures var from := FromExclusive(sourceRectangle);
              !ok && from.Some? && InSurface(sourceId, from.value) ==>
                done < |points| && !InSurface(destinationId, from.value.At(points[done]))
      ensures done > 0 ==> FromExclusive(sourceRectangle).Some?
      ensures destinationId in surfaces && done > 0 ==>
                var region := FromExclusive(sourceRectangle).value;
                && InSurface(sourceId, region)
                && surfaces[destinationId].width > 0
                && old(Readable(surfaces[sourceId].pixels[..], surfaces[sourceId].width, region.x, region.y,
                  region.width, region.height))
                && surfaces[destinationId].pixels[..]
                   == Stamped(old(surfaces[destinationId].pixels[..]), surfaces[destinationId].width, region,
                              Crop(old(surfaces[sourceId].pixels[..]), surfaces[sourceId].width, region.AsRect()),
                                points[..done])
      ensures destinationId in surfaces && done == 0 ==>
                surfaces[destinationId].pixels[..] == old(surfaces[destinationId].pixels[..])
      ensures done > 0 ==>
                var region := FromExclusive(sourceRectangle).value;
                DisplaysAt(old(desktopPixels[..]), destinationId, (region.width, region.height), points[..done])
      ensures done == 0 ==> desktopPixels[..] == old(desktopPixels[..])
      ensures Composited(old(Published()), Published(), regions)
    {
      done, regions := 0, [];
      CompositeNothing(Published());
      assert SurfacesSized() && CacheSized();
      hide Valid, Composited, Pixels.Painted, RegionInside, Readable, Published, InSurface, Stamped, CropByte,
        Refreshed, Accounted, Total, EgfxSurface.Sized;
      var from := FromExclusive(sourceRectangle);
      if from.None? {
        return false, done, regions;
      }
      var snapshot := CopySurfaceRegion(sourceId, from.value);
      if snapshot.None? {
        return false, done, regions;
      }
      ok, done, regions := WriteAtPoints(destinationId, from.value, snapshot.value, points);
    }

    /** Caches a copy of a surface region; an over-full cache refuses it and keeps what it had. */
    method SurfaceToCache(surfaceId: u16, sourceRectangle: ExclusiveRectangle, slot: u16) returns (ok: bool)
      requires Valid()
      modifies this`cache, this`allocatedCacheBytes
      ensures Valid()
      ensures var from := FromExclusive(sourceRectangle);
              ok <==> from.Some? && InSurface(surfaceId, from.value)
                      && old(Total(CacheSizes() - {slot})) + from.value.ByteLength() <= MAX_CACHE_BYTES
      ensures !ok ==> cache == old(cache)
      ensures ok ==>
                var region := FromExclusive(sourceRectangle).value;
                && Readable(surfaces[surfaceId].pixels[..], surfaces[surfaceId].width, region.x, region.y, region.width,
                  region.height)
                && cache == old(cache)[slot := EgfxCacheEntry(region.width, region.height,
                                                              Crop(surfaces[surfaceId].pixels[..],
                                                                surfaces[surfaceId].width, region.AsRect()))]
    {
      hide Valid, Readable, CropByte, Total;
      var from := FromExclusive(sourceRectangle);
      if from.None? {
        return false;
      }
      var copied := CopySurfaceRegion(surfaceId, from.value);
      if copied.None? {
        return false;
      }
      ok := StoreCacheEntry(slot, EgfxCacheEntry(from.value.width, from.value.height, copied.value));
    }

    /** Replaces one slot if the new total stays under the cap. */
    method StoreCacheEntry(slot: u16, entry: EgfxCacheEntry) returns (ok: bool)
      requires Valid() && entry.Sized()
      modifies this`cache, this`allocatedCacheBytes
      ensures Valid()
      ensures ok <==> old(Total(CacheSizes() - {slot})) + |entry.pixels| <= MAX_CACHE_BYTES
      ensures cache == if ok then old(cache)[slot := entry] else old(cache)
    {
      hide Inv, Total, Published, EgfxCacheEntry.Sized, SurfacesSized, Separate;
      ghost var before := CacheSizes();
      TotalBounds(before, slot);
      var replaced := if slot in cache then |cache[slot].pixels| else 0;
      var nextTotal := (if allocatedCacheBytes <= replaced then 0 else allocatedCacheBytes - replaced) + |entry.pixels|;
      if nextTotal > MAX_CACHE_BYTES {
        return false;
      }
      allocatedCacheBytes := nextTotal;
      cache := cache[slot := entry];
      TotalInsert(before, slot, |entry.pixels|);
      assert CacheSizes() == before[slot := |entry.pixels|];
      ok := true;
    }

    method CacheToSurface(slot: u16, surfaceId: u16, points: seq<Point>)
      returns (ok: bool, ghost done: nat, ghost regions: seq<Rect>)
      requires Valid()
      modifies this`pendingDesktopDirty, desktopPixels, PixelsOf(surfaceId)
      ensures Valid()
      ensures ok <==> slot in cache
                      && forall i | 0 <= i < |points| ::
                           InSurface(surfaceId, SurfaceRegion(points[i].x, points[i].y, cache[slot].width,
                             cache[slot].height))
      ensures done <= |points| && (ok ==> done == |points|) && (done > 0 ==> slot in cache)
      ensures !ok && slot in cache ==>
                && done < |points|
                && !InSurface(surfaceId, SurfaceRegion(points[done].x, points[done].y, cache[slot].width,
                  cache[slot].height))
      ensures surfaceId in surfaces && slot in cache ==>
                && surfaces[surfaceId].width > 0
                && |cache[slot].pixels| == 4 * (cache[slot].width * cache[slot].height)
                && surfaces[surfaceId].pixels[..]
                   == Stamped(old(surfaces[surfaceId].pixels[..]), surfaces[surfaceId].width,
                              SurfaceRegion(0, 0, cache[slot].width, cache[slot].height), cache[slot].pixels,
                                points[..done])
      ensures slot in cache ==>
                DisplaysAt(old(desktopPixels[..]), surfaceId, (cache[slot].width, cache[slot].height), points[..done])
      ensures slot !in cache ==> desktopPixels[..] == old(desktopPixels[..])
      ensures Composited(old(Published()), Published(), regions)
    {
      hide Valid, Composited, Pixels.Painted, RegionInside, Readable, Published, InSurface, Stamped, CropByte,
        Refreshed, EgfxSurface.Sized;
      done, regions := 0, [];
      NothingComposited();
      if slot !in cache {
        return false, done, regions;
      }
      var entry := cache[slot];
      ok, done, regions := WriteAtPoints(surfaceId, SurfaceRegion(0, 0, entry.width, entry.height), entry.pixels,
        points);
    }

    method EvictCacheEntry(slot: u16)
      requires Valid()
      modifies this`cache, this`allocatedCacheBytes
      ensures Valid()
      ensures cache == old(cache) - {slot}
    {
      hide Inv, Total, Published, EgfxCacheEntry.Sized, SurfacesSized, Separate;
      if slot in cache {
        TotalBounds(CacheSizes(), slot);
        ghost var before := CacheSizes();
        var removed := |cache[slot].pixels|;
        cache := cache - {slot};
        allocatedCacheBytes := if allocatedCacheBytes <= removed then 0 else allocatedCacheBytes - removed;
        assert CacheSizes() == before - {slot};
      }
    }

    // ----- surfaces -----

    /** Allocates a black surface, replacing one with the same id. */
    method CreateSurface(surfaceId: u16, width: u16, height: u16) returns (ok: bool)
      requires Valid()
      modifies this`surfaces, this`allocatedSurfaceBytes
      ensures Valid()
      ensures ok <==> 0 < width <= MAX_SURFACE_DIMENSION && 0 < height <= MAX_SURFACE_DIMENSION
                      && 4 * (width * height) <= MAX_SINGLE_SURFACE_BYTES
                      && old(Total(SurfaceSizes() - {surfaceId})) + 4 * (width * height) <= MAX_TOTAL_SURFACE_BYTES
      ensures !ok ==> surfaces == old(surfaces)
      ensures ok ==>
                && surfaceId in surfaces && surfaces == old(surfaces)[surfaceId := surfaces[surfaceId]]
                && fresh(surfaces[surfaceId]) && fresh(surfaces[surfaceId].pixels)
                && surfaces[surfaceId].width == width && surfaces[surfaceId].height == height
                && surfaces[surfaceId].outputOrigin == None
                && surfaces[surfaceId].pixels[..] == BlackPixels(4 * (width * height))
    {
      hide Valid, BlackPixels, Total, EgfxSurface.Sized;
      var byteLength := CheckedPixelBytes(width, height, MAX_SINGLE_SURFACE_BYTES);
      if byteLength.None? {
        return false;
      }
      var pixels := OpaqueBlackPixels(byteLength.value);
      var surface := new EgfxSurface(width, height, pixels);
      NewSurfaceSized(surface);
      ok := InsertSurface(surfaceId, surface);
    }

    /** Replaces one surface if the new total stays under the cap. */
    method InsertSurface(surfaceId: u16, surface: EgfxSurface) returns (ok: bool)
      requires Valid() && surface.Sized()
      requires surface.pixels != desktopPixels
      requires forall id | id in surfaces :: surfaces[id] != surface && surfaces[id].pixels != surface.pixels
      modifies this`surfaces, this`allocatedSurfaceBytes
      ensures Valid()
      ensures ok <==> old(Total(SurfaceSizes() - {surfaceId})) + surface.pixels.Length <= MAX_TOTAL_SURFACE_BYTES
      ensures surfaces == if ok then old(surfaces)[surfaceId := surface] else old(surfaces)
    {
      hide Inv, Total, Published, EgfxSurface.Sized, CacheSized;
      ghost var before := SurfaceSizes();
      TotalBounds(before, surfaceId);
      var replaced := if surfaceId in surfaces then surfaces[surfaceId].pixels.Length else 0;
      var nextTotal := (if allocatedSurfaceBytes <= replaced then 0 else allocatedSurfaceBytes - replaced) +
        surface.pixels.Length;
      if nextTotal > MAX_TOTAL_SURFACE_BYTES {
        return false;
      }
      allocatedSurfaceBytes := nextTotal;
      surfaces := surfaces[surfaceId := surface];
      TotalInsert(before, surfaceId, surface.pixels.Length);
      assert SurfaceSizes() == before[surfaceId := surface.pixels.Length];
      ok := true;
    }

    method DeleteSurface(surfaceId: u16) returns (ok: bool)
      requires Valid()
      modifies this`surfaces, this`allocatedSurfaceBytes
      ensures Valid()
      ensures ok == (surfaceId in old(surfaces))
      ensures surfaces == old(surfaces) - {surfaceId}
    {
      hide Inv, Total, Published, EgfxSurface.Sized, CacheSized;
      if surfaceId !in surfaces {
        return false;
      }
      TotalBounds(SurfaceSizes(), surfaceId);
      ghost var before := SurfaceSizes();
      var removed := surfaces[surfaceId].pixels.Length;
      surfaces := surfaces - {surfaceId};
      allocatedSurfaceBytes := if allocatedSurfaceBytes <= removed then 0 else allocatedSurfaceBytes - removed;
      assert SurfaceSizes() == before - {surfaceId};
      ok := true;
    }

    ghost function Whole(surfaceId: u16): SurfaceRegion
      requires surfaceId in surfaces
      reads `surfaces
    {
      SurfaceRegion(0, 0, surfaces[surfaceId].width, surfaces[surfaceId].height)
    }

    /** Gives a surface its place on the desktop and shows all of it there. */
    method MapSurface(surfaceId: u16, originX: u32, originY: u32) returns (ok: bool, ghost regions: seq<Rect>)
      requires Valid()
      modifies this`pendingDesktopDirty, desktopPixels, if surfaceId in surfaces then {surfaces[surfaceId]} else {}
      ensures Valid()
      ensures ok == (surfaceId in surfaces)
      ensures ok ==> surfaces[surfaceId].outputOrigin == Some((originX, originY))
      ensures Composited(old(Published()), Published(), regions)
      ensures ok && VisibleRect(surfaceId, Whole(surfaceId)).Some? ==>
                var surface, visible := surfaces[surfaceId], VisibleRect(surfaceId, Whole(surfaceId)).value;
                && regions == [visible]
                && Readable(surface.pixels[..], surface.width, 0, 0, visible.width, visible.height)
                && desktopPixels[..] == Pixels.Painted(old(desktopPixels[..]), desktopSize.value.0, visible,
                                                       surface.pixels[..], surface.width, 0, 0)
      ensures !ok || VisibleRect(surfaceId, Whole(surfaceId)).None? ==> Published() == old(Published())
      ensures ok ==>
                Displays(old(desktopPixels[..]), surfaceId,
                  Rect(0, 0, surfaces[surfaceId].width, surfaces[surfaceId].height))
    {
      hide Inv, Total, Composited, CacheSized, Drawn;
      regions := [];
      NothingComposited();
      if surfaceId !in surfaces {
        return false, regions;
      }
      var surface := surfaces[surfaceId];
      surface.outputOrigin := Some((originX, originY));
      ok, regions := CompositeSurfaceRegion(surfaceId, SurfaceRegion(0, 0, surface.width, surface.height));
    }

    // ----- desktop lifetime -----

    /** A new desktop starts opaque black, owing the viewer a base frame; a bad size changes nothing. */
    method ResetGraphics(width: u32, height: u32) returns (ok: bool)
      requires Valid()
      modifies this
      ensures Valid()
      ensures ok <==> 0 < width <= MAX_SURFACE_DIMENSION && 0 < height <= MAX_SURFACE_DIMENSION
                      && 4 * (width * height) <= MAX_DESKTOP_BYTES
      ensures !ok ==> Published() == old(Published()) && surfaces == old(surfaces) && cache == old(cache)
      ensures ok ==>
                && fresh(desktopPixels) && surfaces == map[] && cache == map[]
                && Published() == EgfxPublication.ResetGraphics(old(Published()), BlankImage(width, height))
    {
      if width > U16_MAX || height > U16_MAX {
        return false;
      }
      hide Inv, Total, Image.Valid, BlankImage, BlackPixels, Accounted, Separate, Published;
      var byteLength := CheckedPixelBytes(width, height, MAX_DESKTOP_BYTES);
      if byteLength.None? {
        return false;
      }
      CheckedBytesAreBlank(width, height);
      ResetKeepsInv(Published(), channel.State(), BlankImage(width, height));
      InstallDesktop(width, height, byteLength.value);
      ok := true;
    }

    method InstallDesktop(width: u16, height: u16, byteLength: nat)
      requires byteLength % 4 == 0
      requires BlankImage(width, height) == Image(width, height, BlackPixels(byteLength))
      modifies this
      ensures Accounted() && Separate() && fresh(desktopPixels) && surfaces == map[] && cache == map[]
      ensures Published() == EgfxPublication.ResetGraphics(old(Published()), BlankImage(width, height))
    {
      hide BlankImage, BlackPixels, Accounted;
      DiscardSurfaceState();
      desktopPixels := OpaqueBlackPixels(byteLength);
      desktopSize := Some((width, height));
      pendingDesktopDirty, needsBaseFrame := [Rect(0, 0, width, height)], true;
    }

    method DiscardSurfaceState()
      modifies `surfaces, `allocatedSurfaceBytes, `cache, `allocatedCacheBytes
      ensures Accounted() && surfaces == map[] && cache == map[]
    {
      surfaces, allocatedSurfaceBytes := map[], 0;
      cache, allocatedCacheBytes := map[], 0;
      assert SurfaceSizes() == map[] && CacheSizes() == map[];
    }

    /** Forgets the desktop and every surface, so nothing drawn before can be published after. */
    method DiscardGraphicsState()
      requires Valid()
      modifies this
      ensures Valid() && fresh(desktopPixels) && surfaces == map[] && cache == map[]
      ensures Published() == DiscardGraphics(old(Published()))
    {
      DiscardKeepsInv(Published(), channel.State());
      ForgetEverything();
    }

    method ForgetEverything()
      modifies this
      ensures Accounted() && Separate() && fresh(desktopPixels) && surfaces == map[] && cache == map[]
      ensures Published() == DiscardGraphics(old(Published()))
    {
      hide Accounted;
      DiscardSurfaceState();
      desktopSize := None;
      desktopPixels := new u8[0];
      pendingDesktopDirty, needsBaseFrame := [], true;
    }

    // ----- publication -----

    method PublishBase(publishReady: bool) returns (ok: bool)
      requires Accounted() && Separate()
      modifies this, channel
      ensures Accounted() && Separate() && surfaces == old(surfaces) && cache == old(cache)
              && desktopPixels == old(desktopPixels)
      ensures (Published(), channel.State(), ok)
              == PublishBaseFrame(old(Published()), old(channel.State()), publishReady)
    {
      hide Inv, Total, Accounted, Separate;
      if awaitingReactivation {
        needsBaseFrame := true;
        return true;
      }
      if desktopSize.None? {
        return false;
      }
      nextTraceId := NextTraceId(nextTraceId);
      var size := desktopSize.value;
      var sent := channel.TrySendGraphics(Frame(Image(size.0, size.1, desktopPixels[..]), graphicsEpoch, nextTraceId));
      needsBaseFrame := if sent == Disconnected then needsBaseFrame else sent == Full;
      if sent == Sent {
        pendingDesktopDirty := [];
        if publishReady && !publishedFirstFrame {
          publishedFirstFrame := channel.SendReadyEvents(size.0, size.1);
          return publishedFirstFrame;
        }
      }
      ok := sent != Disconnected;
    }

    /** The update for every dirty rectangle, in order, cut from the desktop as it is now. */
    method BuildUpdates(dirty: seq<Rect>) returns (updates: seq<Update>)
      requires desktopSize.Some? && Desktop().value.Valid() && AllWithin(dirty, Desktop().value.Bounds())
      ensures updates == Deltas(Desktop().value, dirty, graphicsEpoch, nextTraceId)
    {
      hide CropByte, Readable;
      var size := desktopSize.value;
      updates := [];
      for i := 0 to |dirty|
        invariant updates == Deltas(Desktop().value, dirty, graphicsEpoch, nextTraceId)[..i]
      {
        assert dirty[i].Within(Desktop().value.Bounds());
        RectReadable(Desktop().value, dirty[i]);
        var bytes := ExtractRgbaRegion(desktopPixels[..], size.0, dirty[i]);
        updates := updates + [Update(size.0, size.1, dirty[i], bytes, graphicsEpoch, nextTraceId)];
      }
    }

    method PublishCompleted() returns (ok: bool)
      requires Valid()
      modifies this, channel
      ensures Accounted() && Separate() && surfaces == old(surfaces) && cache == old(cache)
              && desktopPixels == old(desktopPixels)
      ensures (Published(), channel.State(), ok) == PublishCompletedFrame(old(Published()), old(channel.State()))
    {
      hide Total, Coherent, Deltas, Accounted, Separate, PromotesToBase;
      if awaitingReactivation {
        pendingDesktopDirty := [];
        return true;
      }
      if pendingDesktopDirty == [] {
        return true;
      }
      var dirtyRects := pendingDesktopDirty;
      pendingDesktopDirty := [];
      if desktopSize.None? {
        return true;
      }
      var size := desktopSize.value;
      if needsBaseFrame || PromotesToBase(dirtyRects, size.0, size.1) {
        ok := PublishBase(true);
        return;
      }
      nextTraceId := NextTraceId(nextTraceId);
      var updates := BuildUpdates(dirtyRects);
      var sent := channel.TrySendGraphics(if |updates| == 1 then FrameUpdate(updates[0])
        else FrameUpdateBatch(updates));
      match sent
      case Sent =>
        return true;
      case Full =>
        // A dropped delta invalidates the viewer's backing frame.
        needsBaseFrame := true;
        return true;
      case Disconnected =>
        return false;
    }

    /** Nothing is published from here until the new epoch is prepared, and then a base frame comes first. */
    method BeginTransition(epoch: u64)
      requires Valid()
      modifies `graphicsEpoch, `awaitingReactivation, `pendingDesktopDirty, `needsBaseFrame
      ensures Valid() && Published() == BeginFrameTransition(old(Published()), epoch)
    {
      TransitionsKeepInv(Published(), channel.State(), epoch);
      hide Inv, Accounted, Separate;
      graphicsEpoch := epoch;
      awaitingReactivation := true;
      pendingDesktopDirty := [];
      needsBaseFrame := true;
    }

    /** Stops the renderer after an error and reports it. */
    method FailWith()
      modifies this, channel
      requires Accounted() && Separate()
      ensures (Published(), channel.State()) == Fail(old(Published()), old(channel.State()))
      ensures Accounted() && Separate() && surfaces == old(surfaces) && cache == old(cache)
              && desktopPixels == old(desktopPixels)
    {
      failed := true;
      var _ := channel.SendControlOutput(ProtocolFailure);
    }

    /** `on_frame_complete`, through the handler that turns an error into a failed renderer. */
    method OnFrameComplete()
      requires Valid()
      modifies this, channel
      ensures Valid() && surfaces == old(surfaces) && cache == old(cache)
      ensures (Published(), channel.State()) == EgfxPublication.OnFrameComplete(old(Published()), old(channel.State()))
    {
      OnFrameCompleteKeepsInv(Published(), channel.State());
      hide Inv, Accounted, Separate, PublishCompletedFrame, Published;
      if failed {
        return;
      }
      var ok := PublishCompleted();
      if !ok {
        FailWith();
      }
    }
  }

  lemma DiscardKeepsInv(p: Publisher, c: Channel)
    requires Inv(p, c)
    ensures Inv(DiscardGraphics(p), c)
  {
  }

  lemma TransitionsKeepInv(p: Publisher, c: Channel, epoch: u64)
    requires Inv(p, c)
    ensures Inv(BeginFrameTransition(p, epoch), c) && Inv(PrepareForReactivation(p, epoch), c)
  {
  }

  lemma ResetKeepsInv(p: Publisher, c: Channel, blank: Image)
    requires Inv(p, c) && blank.Valid()
    ensures Inv(EgfxPublication.ResetGraphics(p, blank), c)
  {
  }

  /** The session's side of the renderer; sessions without the graphics channel have none. */
  class EgfxSessionBridge {
    const renderer: EgfxRenderer?

    constructor (renderer: EgfxRenderer?)
      ensures this.renderer == renderer
    {
      this.renderer := renderer;
    }

    /** None is a session error; Some(false) leaves the request to the bitmap path. */
    method RequestBase() returns (handled: Option<bool>)
      requires renderer != null ==> renderer.Valid()
      modifies if renderer == null then {} else {renderer, renderer.channel}
      ensures renderer == null ==> handled == Some(false)
      ensures renderer != null ==>
                && renderer.Valid()
                && (renderer.Published(), renderer.channel.State(), handled)
                   == RequestBaseFrame(old(renderer.Published()), old(renderer.channel.State()))
    {
      if renderer == null {
        return Some(false);
      }
      RequestKeepsInv(renderer.Published(), renderer.channel.State());
      hide Inv, EgfxRenderer.Accounted, EgfxRenderer.Separate, PublishBaseFrame;
      if renderer.awaitingReactivation {
        return Some(true);
      }
      if renderer.desktopSize.None? {
        return Some(false);
      }
      var ok := renderer.PublishBase(false);
      handled := if ok then Some(true) else None;
    }

    method BeginTransition(graphicsEpoch: u64)
      requires renderer != null ==> renderer.Valid()
      modifies renderer
      ensures renderer != null ==>
                renderer.Valid() && renderer.Published()
                  == BeginFrameTransition(old(renderer.Published()), graphicsEpoch)
    {
      if renderer == null {
        return;
      }
      hide EgfxRenderer.Valid, EgfxRenderer.Published;
      renderer.BeginTransition(graphicsEpoch);
    }

    method PrepareReactivation(graphicsEpoch: u64)
      requires renderer != null ==> renderer.Valid()
      modifies renderer
      ensures renderer != null ==>
                renderer.Valid() && renderer.Published()
                  == PrepareForReactivation(old(renderer.Published()), graphicsEpoch)
    {
      if renderer == null {
        return;
      }
      TransitionsKeepInv(renderer.Published(), renderer.channel.State(), graphicsEpoch);
      hide Inv, EgfxRenderer.Accounted, EgfxRenderer.Separate;
      renderer.DiscardGraphicsState();
      renderer.graphicsEpoch := graphicsEpoch;
      renderer.awaitingReactivation := false;
    }
  }

  ghost function BlankImage(width: u16, height: u16): Image {
    Image(width, height, BlackPixels(4 * (width * height)))
  }

  lemma CheckedBytesAreBlank(width: u16, height: u16)
    ensures CheckedPixelBytes(width, height, MAX_DESKTOP_BYTES).Some? ==>
              var byteLength := CheckedPixelBytes(width, height, MAX_DESKTOP_BYTES).value;
              && byteLength % 4 == 0
              && BlankImage(width, height) == Image(width, height, BlackPixels(byteLength))
              && BlankImage(width, height).Valid()
  {
  }

  lemma NewSurfaceSized(surface: EgfxSurface)
    requires CheckedPixelBytes(surface.width, surface.height, MAX_SINGLE_SURFACE_BYTES) == Some(surface.pixels.Length)
    ensures surface.Sized()
  {
  }

  lemma SurfaceRoom(surface: EgfxSurface, region: SurfaceRegion)
    requires surface.Sized() && RegionInside(surface.width, surface.height, region)
    ensures 4 * (surface.width * (region.y + region.height)) <= surface.pixels.Length
  {
    MulMonotone(surface.width, surface.width, region.y + region.height, surface.height);
  }

  lemma VisibleRoom(image: Image, rect: Rect)
    requires image.Valid() && rect.Within(image.Bounds())
    ensures 4 * (image.width * (rect.y + rect.height)) <= |image.bytes|
  {
    MulMonotone(image.width, image.width, rect.y + rect.height, image.height);
  }

  lemma CompositeNothing(p: Publisher)
    requires WellFormed(p)
    ensures Composited(p, p, [])
  {
    if p.desktop.Some? {
      SelfAgrees(p.desktop.value, []);
      assert p.dirty + [] == p.dirty;
      forall r | r in p.dirty ensures Absorbed(r, p.dirty) {
        assert r.Within(r);
      }
    }
  }
}
