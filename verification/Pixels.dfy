// Row-stride copies between RGBA buffers (plugins/rdp/src/egfx.rs). A buffer `width` pixels
// wide holds pixel (x, y) in the four bytes from 4 * (y * width + x).

module Pixels {
  import opened FixedWidth
  import opened DirtyRects

  const BYTES_PER_PIXEL: nat := 4

  function ColumnOf(width: nat, k: nat): nat
    requires width > 0
  {
    k / 4 % width
  }

  function RowOf(width: nat, k: nat): nat
    requires width > 0
  {
    k / 4 / width
  }

  function FirstByte(width: nat, x: nat, y: nat): nat {
    4 * (y * width + x)
  }

  lemma DivMod(q: nat, d: nat, r: nat)
    requires r < d
    ensures (q * d + r) / d == q && (q * d + r) % d == r
  {
    QuotientIsUnique((q * d + r) / d, (q * d + r) % d, q, r, d);
  }

  lemma QuotientIsUnique(q0: nat, r0: nat, q1: nat, r1: nat, d: nat)
    requires r0 < d && r1 < d && q0 * d + r0 == q1 * d + r1
    ensures q0 == q1 && r0 == r1
  {
    if q0 < q1 {
      MulMonotone(q0 + 1, q1, d, d);
    } else if q1 < q0 {
      MulMonotone(q1 + 1, q0, d, d);
    }
  }

  /** Byte `c` of pixel (x, y) belongs to column x and row y. */
  lemma PixelOfByte(width: nat, x: nat, y: nat, c: nat)
    requires x < width && c < 4
    ensures ColumnOf(width, FirstByte(width, x, y) + c) == x
    ensures RowOf(width, FirstByte(width, x, y) + c) == y
  {
    assert (FirstByte(width, x, y) + c) / 4 == y * width + x;
    DivMod(y, width, x);
  }

  /** Every byte is byte `k % 4` of the pixel in its column and row. */
  lemma ByteOfPixel(width: nat, k: nat)
    requires width > 0
    ensures ColumnOf(width, k) < width
    ensures k == FirstByte(width, ColumnOf(width, k), RowOf(width, k)) + k % 4
  {
  }

  /** Rows are monotone: pixels above row `height` fill exactly the first 4 * width * height bytes. */
  lemma FirstByteBound(width: nat, x: nat, y: nat, height: nat)
    requires x < width
    ensures y < height <==> FirstByte(width, x, y) + 4 <= 4 * (width * height)
    ensures y < height <==> FirstByte(width, x, y) < 4 * (width * height)
  {
    if y < height {
      MulMonotone(y + 1, height, width, width);
      assert (y + 1) * width == y * width + width;
    } else {
      MulMonotone(height, y, width, width);
    }
  }

  lemma RowBound(width: nat, height: nat, k: nat)
    requires width > 0
    ensures RowOf(width, k) < height <==> k < 4 * (width * height)
  {
    ByteOfPixel(width, k);
    FirstByteBound(width, ColumnOf(width, k), RowOf(width, k), height);
  }

  /** The byte a copy of `region` from (sx, sy) of a buffer `sourceWidth` wide puts into byte k. */
  ghost function SourceByte(width: nat, region: Rect, sourceWidth: nat, sx: nat, sy: nat, k: nat): nat
    requires width > 0 && region.Contains(ColumnOf(width, k), RowOf(width, k))
  {
    FirstByte(sourceWidth, ColumnOf(width, k) - region.x + sx, RowOf(width, k) - region.y + sy) + k % 4
  }

  /** The source rectangle lies inside its buffer. */
  ghost predicate Readable(source: seq<u8>, sourceWidth: nat, sx: nat, sy: nat, width: nat, height: nat) {
    sx + width <= sourceWidth && 4 * (sourceWidth * (sy + height)) <= |source|
  }

  lemma SourceByteInBounds(width: nat, region: Rect, source: seq<u8>, sourceWidth: nat, sx: nat, sy: nat, k: nat)
    requires width > 0 && region.Contains(ColumnOf(width, k), RowOf(width, k))
    requires Readable(source, sourceWidth, sx, sy, region.width, region.height)
    ensures SourceByte(width, region, sourceWidth, sx, sy, k) < |source|
  {
    hide FirstByte, ColumnOf, RowOf;
    FirstByteBound(sourceWidth, ColumnOf(width, k) - region.x + sx, RowOf(width, k) - region.y + sy,
                   sy + region.height);
  }

  /** `destination` with `region` replaced by the source rectangle that starts at (sx, sy). */
  ghost function Painted(destination: seq<u8>, width: nat, region: Rect,
                         source: seq<u8>, sourceWidth: nat, sx: nat, sy: nat): (r: seq<u8>)
    requires width > 0
    requires Readable(source, sourceWidth, sx, sy, region.width, region.height)
    ensures |r| == |destination|
  {
    seq(|destination|, k requires 0 <= k < |destination| =>
      PaintedByte(destination, width, region, source, sourceWidth, sx, sy, k))
  }

  ghost function PaintedByte(destination: seq<u8>, width: nat, region: Rect,
                             source: seq<u8>, sourceWidth: nat, sx: nat, sy: nat, k: nat): u8
    requires width > 0 && k < |destination|
    requires Readable(source, sourceWidth, sx, sy, region.width, region.height)
  {
    if region.Contains(ColumnOf(width, k), RowOf(width, k)) then
      SourceByteInBounds(width, region, source, sourceWidth, sx, sy, k);
      source[SourceByte(width, region, sourceWidth, sx, sy, k)]
    else
      destination[k]
  }

  /** The source rectangle at (x, y) as a buffer of its own. */
  ghost function Crop(source: seq<u8>, sourceWidth: nat, region: Rect): (r: seq<u8>)
    requires Readable(source, sourceWidth, region.x, region.y, region.width, region.height)
    ensures |r| == 4 * (region.width * region.height)
  {
    seq(4 * (region.width * region.height), k requires 0 <= k < 4 * (region.width * region.height) =>
      CropByte(source, sourceWidth, region, k))
  }

  ghost function CropByte(source: seq<u8>, sourceWidth: nat, region: Rect, k: nat): u8
    requires Readable(source, sourceWidth, region.x, region.y, region.width, region.height)
    requires k < 4 * (region.width * region.height)
  {
    CropByteInBounds(source, sourceWidth, region, k);
    source[FirstByte(sourceWidth, region.x + ColumnOf(region.width, k), region.y + RowOf(region.width, k)) + k % 4]
  }

  lemma CropByteInBounds(source: seq<u8>, sourceWidth: nat, region: Rect, k: nat)
    requires Readable(source, sourceWidth, region.x, region.y, region.width, region.height)
    requires k < 4 * (region.width * region.height)
    ensures region.width > 0
    ensures FirstByte(sourceWidth, region.x + ColumnOf(region.width, k), region.y + RowOf(region.width, k)) + k % 4
            < |source|
  {
    hide FirstByte, ColumnOf, RowOf;
    ByteOfPixel(region.width, k);
    RowBound(region.width, region.height, k);
    FirstByteBound(sourceWidth, region.x + ColumnOf(region.width, k), region.y + RowOf(region.width, k),
                   region.y + region.height);
  }

  // ----- the copy loops -----

  /** Which bytes row `row` of a region occupies. */
  lemma RowBytes(width: nat, x: nat, y: nat, count: nat, k: nat)
    requires width > 0 && x + count <= width
    ensures FirstByte(width, x, y) <= k < FirstByte(width, x, y) + 4 * count
            <==> RowOf(width, k) == y && x <= ColumnOf(width, k) < x + count
  {
    var cx, cy := ColumnOf(width, k), RowOf(width, k);
    ByteOfPixel(width, k);
    if cy < y {
      MulMonotone(cy + 1, y, width, width);
      assert (cy + 1) * width == cy * width + width;
    } else if cy > y {
      MulMonotone(y + 1, cy, width, width);
      assert (y + 1) * width == y * width + width;
    }
  }

  lemma PaintedNextRow(before: seq<u8>, width: nat, region: Rect, source: seq<u8>, sourceWidth: nat, sx: nat, sy: nat,
                       next: Rect, k: nat)
    requires width > 0 && region.x + region.width <= width
    requires next.height == region.height + 1 && next == region.(height := next.height)
    requires Readable(source, sourceWidth, sx, sy, next.width, next.height)
    requires k < |before|
    requires Readable(source, sourceWidth, sx, sy, region.width, region.height)
    ensures var start := FirstByte(width, region.x, region.y + region.height);
            var from := FirstByte(sourceWidth, sx, sy + region.height);
            if start <= k < start + 4 * region.width then
              && 0 <= from + (k - start) < |source|
              && PaintedByte(before, width, next, source, sourceWidth, sx, sy, k) == source[from + (k - start)]
            else
              PaintedByte(before, width, next, source, sourceWidth, sx, sy, k)
              == PaintedByte(before, width, region, source, sourceWidth, sx, sy, k)
  {
    hide ColumnOf, RowOf;
    RowBytes(width, region.x, region.y + region.height, region.width, k);
    ByteOfPixel(width, k);
    var start := FirstByte(width, region.x, region.y + region.height);
    if start <= k < start + 4 * region.width {
      SourceByteInBounds(width, next, source, sourceWidth, sx, sy, k);
      var x := ColumnOf(width, k);
      AlongRow(width, region.x, x - region.x, region.y + region.height);
      AlongRow(sourceWidth, sx, x - region.x, sy + region.height);
      hide FirstByte;
    }
  }

  lemma RowFits(width: nat, x: nat, y: nat, count: nat, height: nat, length: nat)
    requires x + count <= width && y < height && 4 * (width * height) <= length
    ensures FirstByte(width, x, y) + 4 * count <= length
  {
    MulMonotone(y + 1, height, width, width);
    assert (y + 1) * width == y * width + width;
  }

  lemma ReadableShorter(source: seq<u8>, sourceWidth: nat, sx: nat, sy: nat, width: nat, height: nat, shorter: nat)
    requires Readable(source, sourceWidth, sx, sy, width, height) && shorter <= height
    ensures Readable(source, sourceWidth, sx, sy, width, shorter)
  {
    MulMonotone(sourceWidth, sourceWidth, sy + shorter, sy + height);
  }

  lemma PaintedEmpty(before: seq<u8>, width: nat, region: Rect, source: seq<u8>, sourceWidth: nat, sx: nat, sy: nat)
    requires width > 0 && region.height == 0
    requires Readable(source, sourceWidth, sx, sy, region.width, region.height)
    ensures Painted(before, width, region, source, sourceWidth, sx, sy) == before
  {
    hide FirstByte, ColumnOf, RowOf;
  }

  /** Copying one more row slice paints one more row. */
  lemma RowPainted(before: seq<u8>, current: seq<u8>, after: seq<u8>, width: nat, done: Rect, source: seq<u8>,
                   sourceWidth: nat, sx: nat, sy: nat, next: Rect)
    requires width > 0 && done.x + done.width <= width
    requires next.height == done.height + 1 && next == done.(height := next.height)
    requires Readable(source, sourceWidth, sx, sy, done.width, done.height)
    requires Readable(source, sourceWidth, sx, sy, next.width, next.height)
    requires current == Painted(before, width, done, source, sourceWidth, sx, sy) && |after| == |current|
    requires var from := FirstByte(sourceWidth, sx, sy + done.height);
             var to := FirstByte(width, done.x, done.y + done.height);
             && from + 4 * done.width <= |source|
             && forall k | 0 <= k < |after| ::
                  after[k] == if to <= k < to + 4 * done.width then source[from + (k - to)] else current[k]
    ensures after == Painted(before, width, next, source, sourceWidth, sx, sy)
  {
    hide FirstByte, ColumnOf, RowOf, PaintedByte, Readable;
    forall k | 0 <= k < |after| ensures after[k] == PaintedByte(before, width, next, source, sourceWidth, sx, sy, k) {
      PaintedNextRow(before, width, done, source, sourceWidth, sx, sy, next, k);
    }
  }

  /** Copies a source rectangle over `region` of `destination`, one row slice at a time. */
  method CopyRows(source: seq<u8>, sourceWidth: nat, sx: nat, sy: nat,
                  destination: array<u8>, width: nat, region: Rect)
    requires width > 0 && region.x + region.width <= width
    requires 4 * (width * (region.y + region.height)) <= destination.Length
    requires Readable(source, sourceWidth, sx, sy, region.width, region.height)
    modifies destination
    ensures destination[..] == Painted(old(destination[..]), width, region, source, sourceWidth, sx, sy)
  {
    hide FirstByte, ColumnOf, RowOf, PaintedByte, Painted;
    ghost var before := destination[..];
    var done := region.(height := 0);
    ReadableShorter(source, sourceWidth, sx, sy, region.width, region.height, 0);
    PaintedEmpty(before, width, done, source, sourceWidth, sx, sy);
    for row := 0 to region.height
      invariant done == region.(height := row)
      invariant Readable(source, sourceWidth, sx, sy, region.width, row)
      invariant destination[..] == Painted(before, width, done, source, sourceWidth, sx, sy)
    {
      var from := FirstByte(sourceWidth, sx, sy + row);
      var to := FirstByte(width, region.x, region.y + row);
      RowFits(sourceWidth, sx, sy + row, region.width, sy + region.height, |source|);
      RowFits(width, region.x, region.y + row, region.width, region.y + region.height, destination.Length);
      ghost var current := destination[..];
      forall i | 0 <= i < 4 * region.width {
        destination[to + i] := source[from + i];
      }
      var next := region.(height := row + 1);
      ReadableShorter(source, sourceWidth, sx, sy, region.width, region.height, row + 1);
      forall k | 0 <= k < destination.Length
        ensures destination[k] == if to <= k < to + 4 * region.width then source[from + (k - to)] else current[k]
      {
        if to <= k < to + 4 * region.width {
          assert destination[to + (k - to)] == source[from + (k - to)];
        }
      }
      RowPainted(before, current, destination[..], width, done, source, sourceWidth, sx, sy, next);
      done := next;
    }
  }

  lemma CropNextRow(source: seq<u8>, sourceWidth: nat, region: Rect, next: Rect)
    requires next.height == region.height + 1 && next == region.(height := next.height)
    requires Readable(source, sourceWidth, next.x, next.y, next.width, next.height)
    ensures Readable(source, sourceWidth, region.x, region.y, region.width, region.height)
    ensures var from := FirstByte(sourceWidth, region.x, region.y + region.height);
            && from + 4 * region.width <= |source|
            && Crop(source, sourceWidth, next)
               == Crop(source, sourceWidth, region) + source[from..from + 4 * region.width]
  {
    ReadableShorter(source, sourceWidth, next.x, next.y, next.width, next.height, region.height);
    var from := FirstByte(sourceWidth, region.x, region.y + region.height);
    RowFits(sourceWidth, region.x, region.y + region.height, region.width, next.y + next.height, |source|);
    var done := 4 * (region.width * region.height);
    NextRowLength(region.width, region.height);
    hide FirstByte, CropByte, Readable, ColumnOf, RowOf;
    forall k | 0 <= k < done + 4 * region.width
      ensures CropByte(source, sourceWidth, next, k)
              == if k < done then CropByte(source, sourceWidth, region, k) else source[from + (k - done)]
    {
      CropNextRowByte(source, sourceWidth, region, next, k);
    }
  }

  lemma NextRowLength(width: nat, height: nat)
    ensures 4 * (width * (height + 1)) == 4 * (width * height) + 4 * width
  {
  }

  lemma CropNextRowByte(source: seq<u8>, sourceWidth: nat, region: Rect, next: Rect, k: nat)
    requires next.height == region.height + 1 && next == region.(height := next.height)
    requires Readable(source, sourceWidth, next.x, next.y, next.width, next.height)
    requires Readable(source, sourceWidth, region.x, region.y, region.width, region.height)
    requires k < 4 * (region.width * next.height)
    ensures var done := 4 * (region.width * region.height);
            var from := FirstByte(sourceWidth, region.x, region.y + region.height);
            if k < done then CropByte(source, sourceWidth, next, k) == CropByte(source, sourceWidth, region, k)
            else
              && 0 <= from + (k - done) < |source|
              && CropByte(source, sourceWidth, next, k) == source[from + (k - done)]
  {
    CropByteInBounds(source, sourceWidth, next, k);
    NextRowLength(region.width, region.height);
    RowStart(region.width, region.height);
    hide Readable, FirstByte, ColumnOf, RowOf;
    if k >= 4 * (region.width * region.height) {
      var x, y := ColumnOf(region.width, k), RowOf(region.width, k);
      RowBytes(region.width, 0, region.height, region.width, k);
      ByteOfPixel(region.width, k);
      AlongRow(region.width, 0, x, y);
      AlongRow(sourceWidth, region.x, x, region.y + y);
    }
  }

  lemma RowStart(width: nat, height: nat)
    ensures FirstByte(width, 0, height) == 4 * (width * height)
  {
  }

  lemma AlongRow(width: nat, x: nat, steps: nat, y: nat)
    ensures FirstByte(width, x + steps, y) == FirstByte(width, x, y) + 4 * steps
  {
  }

  method ExtractRgbaRegion(pixels: seq<u8>, sourceWidth: nat, region: Rect) returns (output: seq<u8>)
    requires Readable(pixels, sourceWidth, region.x, region.y, region.width, region.height)
    ensures output == Crop(pixels, sourceWidth, region)
  {
    hide CropByte, FirstByte;
    output := [];
    for row := 0 to region.height
      invariant Readable(pixels, sourceWidth, region.x, region.y, region.width, row)
      invariant output == Crop(pixels, sourceWidth, region.(height := row))
    {
      ReadableShorter(pixels, sourceWidth, region.x, region.y, region.width, region.height, row + 1);
      CropNextRow(pixels, sourceWidth, region.(height := row), region.(height := row + 1));
      var start := FirstByte(sourceWidth, region.x, region.y + row);
      output := output + pixels[start..start + BYTES_PER_PIXEL * region.width];
    }
  }

  method BlitRgbaRegion(source: seq<u8>, sourceWidth: nat, destination: array<u8>, destinationWidth: nat, region: Rect)
    requires destinationWidth > 0 && region.x + region.width <= destinationWidth
    requires 4 * (destinationWidth * (region.y + region.height)) <= destination.Length
    requires Readable(source, sourceWidth, 0, 0, region.width, region.height)
    modifies destination
    ensures destination[..] == Painted(old(destination[..]), destinationWidth, region, source, sourceWidth, 0, 0)
  {
    CopyRows(source, sourceWidth, 0, 0, destination, destinationWidth, region);
  }

  // ----- what the copies mean -----

  /** Reading back a painted region yields the source rectangle. */
  lemma PaintThenCrop(destination: seq<u8>, width: nat, height: nat, region: Rect,
                      source: seq<u8>, sourceWidth: nat, from: Rect)
    requires width > 0 && |destination| == 4 * (width * height)
    requires region.x + region.width <= width && region.y + region.height <= height
    requires from.width == region.width && from.height == region.height
    requires Readable(source, sourceWidth, from.x, from.y, from.width, from.height)
    ensures var painted := Painted(destination, width, region, source, sourceWidth, from.x, from.y);
            && Readable(painted, width, region.x, region.y, region.width, region.height)
            && Crop(painted, width, region) == Crop(source, sourceWidth, from)
  {
    var painted := Painted(destination, width, region, source, sourceWidth, from.x, from.y);
    MulMonotone(width, width, region.y + region.height, height);
    forall k | 0 <= k < 4 * (region.width * region.height)
      ensures CropByte(painted, width, region, k) == CropByte(source, sourceWidth, from, k)
    {
      PaintThenCropByte(destination, width, height, region, source, sourceWidth, from, k);
    }
  }

  lemma PaintThenCropByte(destination: seq<u8>, width: nat, height: nat, region: Rect,
                          source: seq<u8>, sourceWidth: nat, from: Rect, k: nat)
    requires width > 0 && |destination| == 4 * (width * height)
    requires region.x + region.width <= width && region.y + region.height <= height
    requires from.width == region.width && from.height == region.height
    requires Readable(source, sourceWidth, from.x, from.y, from.width, from.height)
    requires k < 4 * (region.width * region.height)
    requires Readable(Painted(destination, width, region, source, sourceWidth, from.x, from.y), width, region.x,
             region.y, region.width, region.height)
    ensures CropByte(Painted(destination, width, region, source, sourceWidth, from.x, from.y), width, region, k)
            == CropByte(source, sourceWidth, from, k)
  {
    hide FirstByte, ColumnOf, RowOf;
    var painted := Painted(destination, width, region, source, sourceWidth, from.x, from.y);
    CropByteInBounds(painted, width, region, k);
    ByteOfPixel(region.width, k);
    RowBound(region.width, region.height, k);
    var x, y := region.x + ColumnOf(region.width, k), region.y + RowOf(region.width, k);
    var at := FirstByte(width, x, y) + k % 4;
    PixelOfByte(width, x, y, k % 4);
    SamePhase(width, x, y, k % 4);
    assert painted[at] == PaintedByte(destination, width, region, source, sourceWidth, from.x, from.y, at);
  }

  lemma SamePhase(width: nat, x: nat, y: nat, c: nat)
    requires c < 4
    ensures (FirstByte(width, x, y) + c) % 4 == c
  {
  }

  /** A buffer that is exactly one region is its own crop. */
  lemma CropWhole(source: seq<u8>, width: nat, height: nat, region: Rect)
    requires region == Rect(0, 0, region.width, region.height) && region.width == width && region.height == height
    requires |source| == 4 * (width * height)
    ensures Readable(source, width, 0, 0, width, height) && Crop(source, width, region) == source
  {
    forall k | 0 <= k < |source| ensures CropByte(source, width, region, k) == source[k] {
      CropByteInBounds(source, width, region, k);
      ByteOfPixel(width, k);
    }
  }

  /** Painting a crop of an equally wide buffer copies the region and nothing else. */
  lemma PaintCrop(destination: seq<u8>, width: nat, height: nat, region: Rect, source: seq<u8>, k: nat)
    requires width > 0 && |destination| == |source| == 4 * (width * height)
    requires region.x + region.width <= width && region.y + region.height <= height
    requires Readable(source, width, region.x, region.y, region.width, region.height)
    requires k < |destination|
    ensures Readable(Crop(source, width, region), region.width, 0, 0, region.width, region.height)
    ensures Painted(destination, width, region, Crop(source, width, region), region.width, 0, 0)[k]
            == if region.Contains(ColumnOf(width, k), RowOf(width, k)) then source[k] else destination[k]
  {
    hide FirstByte, ColumnOf, RowOf, Painted, Readable;
    CropReadable(source, width, region);
    var crop := Crop(source, width, region);
    var x, y := ColumnOf(width, k), RowOf(width, k);
    PaintedAt(destination, width, region, crop, region.width, 0, 0, k);
    if region.Contains(x, y) {
      var at := SourceByte(width, region, region.width, 0, 0, k);
      PixelOfByte(region.width, x - region.x, y - region.y, k % 4);
      SamePhase(region.width, x - region.x, y - region.y, k % 4);
      ByteOfPixel(width, k);
      assert crop[at] == CropByte(source, width, region, at);
    }
  }

  lemma CropReadable(source: seq<u8>, width: nat, region: Rect)
    requires Readable(source, width, region.x, region.y, region.width, region.height)
    ensures Readable(Crop(source, width, region), region.width, 0, 0, region.width, region.height)
  {
  }

  lemma PaintedAt(destination: seq<u8>, width: nat, region: Rect, source: seq<u8>, sourceWidth: nat, sx: nat, sy: nat,
                  k: nat)
    requires width > 0 && k < |destination|
    requires Readable(source, sourceWidth, sx, sy, region.width, region.height)
    ensures if region.Contains(ColumnOf(width, k), RowOf(width, k)) then
              && SourceByte(width, region, sourceWidth, sx, sy, k) < |source|
              && Painted(destination, width, region, source, sourceWidth, sx, sy)[k]
                 == source[SourceByte(width, region, sourceWidth, sx, sy, k)]
            else Painted(destination, width, region, source, sourceWidth, sx, sy)[k] == destination[k]
  {
    hide FirstByte, ColumnOf, RowOf;
    if region.Contains(ColumnOf(width, k), RowOf(width, k)) {
      SourceByteInBounds(width, region, source, sourceWidth, sx, sy, k);
    }
  }

  // ----- pixel by pixel -----

  /** The four bytes of pixel (x, y); none outside the buffer. */
  ghost function PixelAt(bytes: seq<u8>, width: nat, x: int, y: int): seq<u8> {
    if 0 <= x < width && 0 <= y && FirstByte(width, x, y) + 4 <= |bytes|
    then bytes[FirstByte(width, x, y)..FirstByte(width, x, y) + 4]
    else []
  }

  /**
   * `after` is `before` with one part of another picture drawn on it: pixel (x, y) shows the source's pixel
   * (x - dx, y - dy) wherever that one lies in `part`, and is as before wherever it does not.
   */
  ghost predicate Drawn(before: seq<u8>, after: seq<u8>, width: nat, height: nat, part: Rect, source: seq<u8>,
                        sourceWidth: nat, dx: int, dy: int) {
    && |after| == |before|
    && forall x: int, y: int | 0 <= x < width && 0 <= y < height ::
         PixelAt(after, width, x, y)
         == if part.Contains(x - dx, y - dy) then PixelAt(source, sourceWidth, x - dx, y - dy)
            else PixelAt(before, width, x, y)
  }

  lemma PaintedIsDrawn(destination: seq<u8>, width: nat, height: nat, region: Rect, source: seq<u8>, sourceWidth: nat,
                       sx: nat, sy: nat, part: Rect)
    requires width > 0 && |destination| == 4 * (width * height)
    requires Readable(source, sourceWidth, sx, sy, region.width, region.height)
    requires forall x: int, y: int | 0 <= x < width && 0 <= y < height ::
               region.Contains(x, y) <==> part.Contains(x - (region.x - sx), y - (region.y - sy))
    ensures Drawn(destination, Painted(destination, width, region, source, sourceWidth, sx, sy), width, height, part,
              source, sourceWidth, region.x - sx, region.y - sy)
  {
    hide Painted, Readable, PixelAt, FirstByte;
    var dx, dy := region.x - sx, region.y - sy;
    var painted := Painted(destination, width, region, source, sourceWidth, sx, sy);
    forall x: int, y: int | 0 <= x < width && 0 <= y < height
      ensures PixelAt(painted, width, x, y)
              == if part.Contains(x - dx, y - dy) then PixelAt(source, sourceWidth, x - dx, y - dy)
                 else PixelAt(destination, width, x, y)
    {
      PaintedPixel(destination, width, height, region, source, sourceWidth, sx, sy, x, y);
    }
  }

  lemma PaintedPixel(destination: seq<u8>, width: nat, height: nat, region: Rect, source: seq<u8>, sourceWidth: nat,
                     sx: nat, sy: nat, x: nat, y: nat)
    requires x < width && y < height && |destination| == 4 * (width * height)
    requires Readable(source, sourceWidth, sx, sy, region.width, region.height)
    ensures PixelAt(Painted(destination, width, region, source, sourceWidth, sx, sy), width, x, y)
            == if region.Contains(x, y) then PixelAt(source, sourceWidth, x - region.x + sx, y - region.y + sy)
               else PixelAt(destination, width, x, y)
  {
    hide ColumnOf, RowOf, FirstByte, Painted;
    FirstByteBound(width, x, y, height);
    var painted := Painted(destination, width, region, source, sourceWidth, sx, sy);
    var first := FirstByte(width, x, y);
    var pixel := PixelAt(painted, width, x, y);
    forall k | first <= k < first + 4 ensures ColumnOf(width, k) == x && RowOf(width, k) == y && k % 4 == k - first {
      PixelOfByte(width, x, y, k - first);
      SamePhase(width, x, y, k - first);
    }
    if region.Contains(x, y) {
      var from := FirstByte(sourceWidth, x - region.x + sx, y - region.y + sy);
      FirstByteBound(sourceWidth, x - region.x + sx, y - region.y + sy, sy + region.height);
      forall k | first <= k < first + 4 ensures painted[k] == source[from + (k - first)] {
        PaintedAt(destination, width, region, source, sourceWidth, sx, sy, k);
      }
      assert pixel == source[from..from + 4];
    } else {
      forall k | first <= k < first + 4 ensures painted[k] == destination[k] {
        PaintedAt(destination, width, region, source, sourceWidth, sx, sy, k);
      }
    }
  }

  /** A crop is that part of the picture, moved to the origin. */
  lemma CropPixel(source: seq<u8>, sourceWidth: nat, region: Rect, x: nat, y: nat)
    requires Readable(source, sourceWidth, region.x, region.y, region.width, region.height)
    requires x < region.width && y < region.height
    ensures PixelAt(Crop(source, sourceWidth, region), region.width, x, y)
            == PixelAt(source, sourceWidth, region.x + x, region.y + y)
  {
    hide ColumnOf, RowOf, FirstByte;
    FirstByteBound(region.width, x, y, region.height);
    FirstByteBound(sourceWidth, region.x + x, region.y + y, region.y + region.height);
    var crop := Crop(source, sourceWidth, region);
    var first, from := FirstByte(region.width, x, y), FirstByte(sourceWidth, region.x + x, region.y + y);
    forall k | first <= k < first + 4 ensures crop[k] == source[from + (k - first)] {
      PixelOfByte(region.width, x, y, k - first);
      SamePhase(region.width, x, y, k - first);
      assert crop[k] == CropByte(source, sourceWidth, region, k);
    }
    assert PixelAt(crop, region.width, x, y) == source[from..from + 4];
  }

  // ----- opaque alpha -----

  ghost function Opaque(bytes: seq<u8>): (r: seq<u8>)
    ensures |r| == |bytes|
  {
    seq(|bytes|, k requires 0 <= k < |bytes| => if k % 4 == 3 then 0xff else bytes[k])
  }

  /** Colours stay, and the alpha channel, the last byte of a pixel, becomes 0xff. */
  lemma OpaquePixel(bytes: seq<u8>, width: nat, x: nat, y: nat)
    requires x < width && FirstByte(width, x, y) + 4 <= |bytes|
    ensures PixelAt(Opaque(bytes), width, x, y) == PixelAt(bytes, width, x, y)[..3] + [0xff]
  {
    var first := FirstByte(width, x, y);
    forall k | first <= k < first + 4 ensures k % 4 == k - first {
      SamePhase(width, x, y, k - first);
    }
  }

  /** Fills the fourth byte of every whole pixel; a length that is a multiple of four has no remainder. */
  method SetFrameAlphaOpaque(bytes: array<u8>)
    requires bytes.Length % 4 == 0
    modifies bytes
    ensures bytes[..] == Opaque(old(bytes[..]))
    ensures forall k | 0 <= k < bytes.Length :: bytes[k] == if k % 4 == 3 then 0xff else old(bytes[k])
  {
    for pixel := 0 to bytes.Length / 4
      invariant forall k | 0 <= k < bytes.Length ::
        bytes[k] == if k % 4 == 3 && k < 4 * pixel then 0xff else old(bytes[k])
    {
      bytes[4 * pixel + 3] := 0xff;
    }
  }

  ghost function BlackPixels(byteLength: nat): (r: seq<u8>)
    ensures |r| == byteLength && forall k | 0 <= k < byteLength :: r[k] == if k % 4 == 3 then 0xff else 0
  {
    Opaque(seq(byteLength, _ => 0))
  }

  method OpaqueBlackPixels(byteLength: nat) returns (pixels: array<u8>)
    requires byteLength % 4 == 0
    ensures fresh(pixels) && pixels.Length == byteLength
    ensures pixels[..] == BlackPixels(byteLength)
  {
    pixels := new u8[byteLength](_ => 0);
    assert pixels[..] == seq(byteLength, _ => 0);
    SetFrameAlphaOpaque(pixels);
  }

  /** Making a crop opaque is cropping the opaque buffer. */
  lemma OpaqueCrop(source: seq<u8>, sourceWidth: nat, region: Rect)
    requires Readable(source, sourceWidth, region.x, region.y, region.width, region.height)
    ensures Opaque(Crop(source, sourceWidth, region)) == Crop(Opaque(source), sourceWidth, region)
  {
    forall k | 0 <= k < 4 * (region.width * region.height)
      ensures CropByte(Opaque(source), sourceWidth, region, k)
              == if k % 4 == 3 then 0xff else CropByte(source, sourceWidth, region, k)
    {
      CropByteInBounds(source, sourceWidth, region, k);
      SamePhase(sourceWidth, region.x + ColumnOf(region.width, k), region.y + RowOf(region.width, k), k % 4);
    }
  }
}
