// Monitor layouts for DisplayControl: what is accepted, how large it can be, and what is sent
// (plugins/rdp/src/display.rs).

module MonitorLayout {
  import opened Wrappers
  import opened FixedWidth

  type i32 = n: int | -0x8000_0000 <= n <= 0x7fff_ffff

  datatype Orientation = Landscape | Portrait | LandscapeFlipped | PortraitFlipped

  /** How a monitor shows its area, beyond where that area is. */
  datatype Appearance = Appearance(orientation: Orientation, desktopScale: u32, deviceScale: u32)

  datatype Monitor = Monitor(
    left: i32, top: i32, width: u32, height: u32, primary: bool, appearance: Appearance,
    physicalWidth: Option<u32>, physicalHeight: Option<u32>)
  {
    function Right(): int { left + width }

    function Bottom(): int { top + height }

    function Area(): nat { width * height }
  }

  datatype Size = Size(width: u32, height: u32)

  /** One entry of the layout that goes to the server: primaries are placed at the origin by construction. */
  datatype Entry = Entry(
    left: i32, top: i32, width: u32, height: u32, primary: bool, appearance: Appearance, physical: Option<(u32, u32)>)

  datatype Box = Box(left: int, top: int, right: int, bottom: int)

  function BoxOf(m: Monitor): Box {
    Box(m.left, m.top, m.Right(), m.Bottom())
  }

  /** The minima and maxima over all monitors. */
  function BoundingBox(layout: seq<Monitor>): Box
    requires layout != []
  {
    var last := BoxOf(layout[|layout| - 1]);
    if |layout| == 1 then last
    else
      var rest := BoundingBox(layout[..|layout| - 1]);
      Box(Min(rest.left, last.left), Min(rest.top, last.top), Max(rest.right, last.right),
        Max(rest.bottom, last.bottom))
  }

  predicate Inside(m: Monitor, b: Box) {
    b.left <= m.left && b.top <= m.top && m.Right() <= b.right && m.Bottom() <= b.bottom
  }

  lemma {:induction false} BoundingBoxHolds(layout: seq<Monitor>)
    requires layout != []
    ensures forall m | m in layout :: Inside(m, BoundingBox(layout))
  {
    var n := |layout| - 1;
    if n > 0 {
      BoundingBoxHolds(layout[..n]);
      forall m | m in layout ensures Inside(m, BoundingBox(layout)) {
        assert m in layout[..n] ==> Inside(m, BoundingBox(layout[..n]));
      }
    }
  }

  /** The bounding box is the smallest one: any box around all monitors is around it. */
  lemma {:induction false} BoundingBoxIsTight(layout: seq<Monitor>, around: Box)
    requires layout != [] && forall m | m in layout :: Inside(m, around)
    ensures var b := BoundingBox(layout);
            around.left <= b.left && around.top <= b.top && b.right <= around.right && b.bottom <= around.bottom
  {
    assert layout[|layout| - 1] in layout;
    if |layout| > 1 {
      BoundingBoxIsTight(layout[..|layout| - 1], around);
    }
  }

  /** `monitor_desktop_size`; the largest supported dimension comes from another crate. */
  function DesktopSize(layout: seq<Monitor>, maxDimension: u32): Option<Size> {
    if layout == [] then None
    else
      var b := BoundingBox(layout);
      BoundingBoxHolds(layout);
      assert Inside(layout[0], b);
      if b.right - b.left > maxDimension || b.bottom - b.top > maxDimension then None
      else Some(Size(b.right - b.left, b.bottom - b.top))
  }

  predicate Overlap(a: Monitor, b: Monitor) {
    a.left < b.Right() && b.left < a.Right() && a.top < b.Bottom() && b.top < a.Bottom()
  }

  predicate PrimaryPlaced(m: Monitor) {
    m.primary ==> m.left == 0 && m.top == 0
  }

  predicate ScaleSupported(m: Monitor) {
    m.appearance.deviceScale in {100, 140, 180}
  }

  predicate NoOverlap(layout: seq<Monitor>) {
    forall i, j | 0 <= j < i < |layout| :: !Overlap(layout[i], layout[j])
  }

  /** Exactly the layouts that pass the checks made here. */
  predicate Acceptable(layout: seq<Monitor>, maxDimension: u32) {
    && DesktopSize(layout, maxDimension).Some?
    && (forall m | m in layout :: PrimaryPlaced(m) && ScaleSupported(m))
    && NoOverlap(layout)
  }

  /** A physical size is passed on only when both of its sides are known. */
  function EntryOf(m: Monitor): Entry {
    var physical :=
      if m.physicalWidth.None? || m.physicalHeight.None? then None
      else Some((m.physicalWidth.value, m.physicalHeight.value));
    if m.primary then Entry(0, 0, m.width, m.height, true, m.appearance, physical)
    else Entry(m.left, m.top, m.width, m.height, false, m.appearance, physical)
  }

  function Entries(layout: seq<Monitor>): (r: seq<Entry>)
    ensures |r| == |layout|
  {
    seq(|layout|, i requires 0 <= i < |layout| => EntryOf(layout[i]))
  }

  /** The server is told this monitor's own place, sides, flag and appearance, and its physical size if it is known. */
  predicate Describes(e: Entry, m: Monitor) {
    && e.left == m.left && e.top == m.top && e.width == m.width && e.height == m.height
    && e.primary == m.primary && e.appearance == m.appearance
    && (e.physical.Some? <==> m.physicalWidth.Some? && m.physicalHeight.Some?)
    && (e.physical.Some? ==> e.physical.value == (m.physicalWidth.value, m.physicalHeight.value))
  }

  /** `build_display_control_layout`; `encodable` is what the protocol library additionally demands. */
  method BuildDisplayControlLayout(layout: seq<Monitor>, maxDimension: u32, encodable: seq<Entry> -> bool)
    returns (r: Option<seq<Entry>>)
    ensures r.Some? <==> Acceptable(layout, maxDimension) && encodable(Entries(layout))
    ensures r.Some? ==> r.value == Entries(layout)
    ensures r.Some? ==> |r.value| == |layout| && forall i | 0 <= i < |layout| :: Describes(r.value[i], layout[i])
  {
    if DesktopSize(layout, maxDimension).None? {
      return None;
    }
    for index := 0 to |layout|
      invariant forall m | m in layout[..index] :: PrimaryPlaced(m)
      invariant NoOverlap(layout[..index])
    {
      var monitor := layout[index];
      if !PrimaryPlaced(monitor) {
        return None;
      }
      for k := 0 to index
        invariant forall j | 0 <= j < k :: !Overlap(monitor, layout[j])
      {
        if Overlap(monitor, layout[k]) {
          return None;
        }
      }
    }
    assert layout[..|layout|] == layout;
    var entries := [];
    for index := 0 to |layout|
      invariant |entries| == index && forall j | 0 <= j < index :: entries[j] == EntryOf(layout[j])
      invariant forall j | 0 <= j < index :: Describes(entries[j], layout[j])
      invariant forall m | m in layout[..index] :: ScaleSupported(m)
    {
      if !ScaleSupported(layout[index]) {
        return None;
      }
      assert PrimaryPlaced(layout[index]);
      entries := entries + [EntryOf(layout[index])];
    }
    assert entries == Entries(layout);
    return if encodable(entries) then Some(entries) else None;
  }

  // ----- how much area an accepted layout can have -----

  type Cell = (int, int)

  function Cells(b: Box): set<Cell> {
    set x, y | b.left <= x < b.right && b.top <= y < b.bottom :: (x, y)
  }

  /** Two monitors of positive size overlap exactly when they share a cell. */
  lemma OverlapMeansSharedCell(a: Monitor, b: Monitor)
    requires a.Area() > 0 && b.Area() > 0
    ensures Overlap(a, b) <==> Cells(BoxOf(a)) * Cells(BoxOf(b)) != {}
  {
    hide Monitor.Area;
    PositiveSides(a);
    PositiveSides(b);
    var corner := (Max(a.left, b.left), Max(a.top, b.top));
    if Overlap(a, b) {
      assert corner in Cells(BoxOf(a)) * Cells(BoxOf(b));
    } else {
      NoSharedCell(a, b);
    }
  }

  lemma PositiveSides(m: Monitor)
    requires m.Area() > 0
    ensures m.width > 0 && m.height > 0
  {
  }

  lemma NoSharedCell(a: Monitor, b: Monitor)
    requires !Overlap(a, b)
    ensures Cells(BoxOf(a)) !! Cells(BoxOf(b))
  {
  }

  lemma {:induction false} RowCount(x: int, top: int, bottom: int)
    requires top <= bottom
    ensures |Cells(Box(x, top, x + 1, bottom))| == bottom - top
    decreases bottom - top
  {
    var row := Cells(Box(x, top, x + 1, bottom));
    if top == bottom {
      assert row == {};
    } else {
      RowCount(x, top, bottom - 1);
      assert row == Cells(Box(x, top, x + 1, bottom - 1)) + {(x, bottom - 1)};
    }
  }

  lemma LastColumn(b: Box)
    requires b.left < b.right
    ensures var column := Cells(Box(b.right - 1, b.top, b.right - 1 + 1, b.bottom));
            Cells(b) == Cells(b.(right := b.right - 1)) + column && Cells(b.(right := b.right - 1)) !! column
  {
  }

  lemma OneColumnMore(w: nat, h: nat)
    requires w > 0
    ensures w * h == (w - 1) * h + h
  {
  }

  lemma {:induction false} CellCount(b: Box)
    requires b.left <= b.right && b.top <= b.bottom
    ensures |Cells(b)| == (b.right - b.left) * (b.bottom - b.top)
    decreases b.right - b.left
  {
    if b.left == b.right {
      assert Cells(b) == {};
    } else {
      hide Cells;
      CellCount(b.(right := b.right - 1));
      RowCount(b.right - 1, b.top, b.bottom);
      LastColumn(b);
      OneColumnMore(b.right - b.left, b.bottom - b.top);
    }
  }

  function EntryBox(e: Entry): Box {
    Box(e.left, e.top, e.left + e.width, e.top + e.height)
  }

  predicate Around(outer: Box, inner: Box) {
    outer.left <= inner.left && outer.top <= inner.top && inner.right <= outer.right && inner.bottom <= outer.bottom
  }

  /**
   * What is sent lies where the monitors lie: the same boxes are around it as around the monitors' bounding box, and
   * no cell belongs to two entries.
   */
  lemma SentLayoutKeepsShape(layout: seq<Monitor>, sent: seq<Entry>, maxDimension: u32)
    requires Acceptable(layout, maxDimension) && |sent| == |layout|
    requires forall i | 0 <= i < |layout| :: Describes(sent[i], layout[i])
    ensures forall box :: (forall e | e in sent :: Around(box, EntryBox(e))) <==> Around(box, BoundingBox(layout))
    ensures forall i, j | 0 <= j < i < |sent| :: Cells(EntryBox(sent[i])) !! Cells(EntryBox(sent[j]))
  {
    hide BoundingBox;
    BoundingBoxHolds(layout);
    forall box ensures (forall e | e in sent :: Around(box, EntryBox(e))) <==> Around(box, BoundingBox(layout)) {
      if forall e | e in sent :: Around(box, EntryBox(e)) {
        forall m | m in layout ensures Inside(m, box) {
          var i :| 0 <= i < |layout| && layout[i] == m;
          assert sent[i] in sent;
        }
        BoundingBoxIsTight(layout, box);
      } else {
        var i :| 0 <= i < |sent| && !Around(box, EntryBox(sent[i]));
        assert layout[i] in layout;
      }
    }
    forall i, j | 0 <= j < i < |sent| ensures Cells(EntryBox(sent[i])) !! Cells(EntryBox(sent[j])) {
      NoSharedCell(layout[i], layout[j]);
    }
  }

  /** A box around all monitors whose sides are supported. */
  predicate FitsAround(box: Box, layout: seq<Monitor>, maxDimension: u32) {
    && box.right - box.left <= maxDimension && box.bottom - box.top <= maxDimension
    && forall m | m in layout :: Around(box, BoxOf(m))
  }

  lemma WhenSizeSupported(layout: seq<Monitor>, maxDimension: u32)
    requires layout != []
    ensures DesktopSize(layout, maxDimension).Some? <==> exists box :: FitsAround(box, layout, maxDimension)
  {
    hide BoundingBox;
    BoundingBoxHolds(layout);
    if DesktopSize(layout, maxDimension).Some? {
      assert FitsAround(BoundingBox(layout), layout, maxDimension);
    }
    if box :| FitsAround(box, layout, maxDimension) {
      BoundingBoxIsTight(layout, box);
    }
  }

  /** Exactly which layouts pass, said of monitors and cells. */
  lemma WhenAcceptable(layout: seq<Monitor>, maxDimension: u32)
    requires forall m | m in layout :: m.Area() > 0
    ensures Acceptable(layout, maxDimension) <==>
            && layout != []
            && (exists box :: FitsAround(box, layout, maxDimension))
            && (forall m | m in layout && m.primary :: m.left == 0 && m.top == 0)
            && (forall m | m in layout ::
                  var scale := m.appearance.deviceScale; scale == 100 || scale == 140 || scale == 180)
            && (forall i, j | 0 <= j < i < |layout| :: Cells(BoxOf(layout[i])) * Cells(BoxOf(layout[j])) == {})
  {
    hide Cells, BoundingBox, FitsAround, Monitor.Area, Overlap;
    if layout != [] {
      WhenSizeSupported(layout, maxDimension);
      forall i, j | 0 <= j < i < |layout|
        ensures Overlap(layout[i], layout[j]) <==> Cells(BoxOf(layout[i])) * Cells(BoxOf(layout[j])) != {}
      {
        assert layout[i] in layout && layout[j] in layout;
        OverlapMeansSharedCell(layout[i], layout[j]);
      }
    }
  }

  function TotalArea(layout: seq<Monitor>): nat {
    if layout == [] then 0 else TotalArea(layout[..|layout| - 1]) + layout[|layout| - 1].Area()
  }

  ghost function CoveredCells(layout: seq<Monitor>): set<Cell> {
    if layout == [] then {} else CoveredCells(layout[..|layout| - 1]) + Cells(BoxOf(layout[|layout| - 1]))
  }

  lemma {:induction false} CoveredByMonitors(layout: seq<Monitor>, cell: Cell)
    ensures cell in CoveredCells(layout) <==> exists i | 0 <= i < |layout| :: cell in Cells(BoxOf(layout[i]))
  {
    hide Cells;
    if layout != [] {
      CoveredByMonitors(layout[..|layout| - 1], cell);
    }
  }

  /** Monitors that do not overlap cover exactly as many cells as their areas add up to. */
  lemma {:induction false} DisjointAreasAdd(layout: seq<Monitor>)
    requires NoOverlap(layout)
    ensures |CoveredCells(layout)| == TotalArea(layout)
  {
    hide Cells, Monitor.Area;
    if layout != [] {
      var n := |layout| - 1;
      var before, last := CoveredCells(layout[..n]), Cells(BoxOf(layout[n]));
      DisjointAreasAdd(layout[..n]);
      AreaIsCells(layout[n]);
      forall cell | cell in before ensures cell !in last {
        CoveredByMonitors(layout[..n], cell);
        var i :| 0 <= i < n && cell in Cells(BoxOf(layout[i]));
        NoSharedCell(layout[n], layout[i]);
      }
      assert before !! last;
    }
  }

  lemma AreaIsCells(m: Monitor)
    ensures |Cells(BoxOf(m))| == m.Area()
  {
    CellCount(BoxOf(m));
  }

  lemma {:induction false} SubsetCount<T>(a: set<T>, b: set<T>)
    requires a <= b
    ensures |a| <= |b|
    decreases |a|
  {
    if a != {} {
      var x :| x in a;
      SubsetCount(a - {x}, b - {x});
    }
  }

  lemma CoveredInBox(layout: seq<Monitor>)
    requires layout != []
    ensures CoveredCells(layout) <= Cells(BoundingBox(layout))
  {
    BoundingBoxHolds(layout);
    forall cell | cell in CoveredCells(layout) ensures cell in Cells(BoundingBox(layout)) {
      CoveredByMonitors(layout, cell);
      var i :| 0 <= i < |layout| && cell in Cells(BoxOf(layout[i]));
      assert Inside(layout[i], BoundingBox(layout));
    }
  }

  lemma ProductBounded(w: nat, h: nat, m: nat)
    requires w <= m && h <= m
    ensures w * h <= m * m
  {
    assert w * h <= m * h <= m * m;
  }

  /**
   * Any number of monitors that pass the checks share the bounding box between them: their areas add up to at most
   * its area, and so to at most the square of the largest dimension, which a 64-bit sum holds.
   */
  lemma AcceptedAreaBounded(layout: seq<Monitor>, maxDimension: u32)
    requires Acceptable(layout, maxDimension)
    ensures var size := DesktopSize(layout, maxDimension).value;
            TotalArea(layout) <= size.width * size.height <= maxDimension * maxDimension <= U64_MAX
  {
    hide Cells, TotalArea;
    var b, size := BoundingBox(layout), DesktopSize(layout, maxDimension).value;
    BoundingBoxHolds(layout);
    assert Inside(layout[0], b);
    DisjointAreasAdd(layout);
    CoveredInBox(layout);
    SubsetCount(CoveredCells(layout), Cells(b));
    CellCount(b);
    ProductBounded(size.width, size.height, maxDimension);
    ProductBounded(maxDimension, maxDimension, U32_MAX);
  }

  function EntryArea(entries: seq<Entry>): nat {
    if entries == [] then 0
    else EntryArea(entries[..|entries| - 1]) + entries[|entries| - 1].width * entries[|entries| - 1].height
  }

  /** What is sent has the size of what was laid out. */
  lemma {:induction false} EntriesKeepArea(layout: seq<Monitor>)
    ensures EntryArea(Entries(layout)) == TotalArea(layout)
  {
    if layout != [] {
      EntriesKeepArea(layout[..|layout| - 1]);
      assert Entries(layout)[..|layout| - 1] == Entries(layout[..|layout| - 1]);
    }
  }
}

module DisplayState {
  import opened Wrappers
  import opened FixedWidth
  import opened MonitorLayout

  type Layout = seq<Entry>

  datatype Limits = Limits(count: u32, maxArea: u64)

  datatype UpdateError = TooManyMonitors | TooMuchArea

  /** A layout with several monitors is always one that passed the checks. */
  ghost predicate Checked(layout: Layout, maxDimension: u32) {
    exists monitors: seq<Monitor> :: Acceptable(monitors, maxDimension) && layout == Entries(monitors)
  }

  class RdpDisplayState {
    const maxDimension: u32
    const encodable: Layout -> bool
    const useAllMonitors: bool
    var viewport: Layout
    var monitors: Option<Layout>
    var limits: Option<Limits>
    var sent: Option<Layout>

    ghost predicate Valid()
      reads this
    {
      && (|viewport| == 1 || Checked(viewport, maxDimension))
      && (monitors.Some? ==> |monitors.value| > 1 && Checked(monitors.value, maxDimension) && useAllMonitors)
      && (sent.Some? ==> limits.Some? && Fits(sent.value, limits.value))
    }

    static predicate Fits(layout: Layout, limits: Limits) {
      |layout| <= limits.count && EntryArea(layout) <= limits.maxArea
    }

    /** The layout the server should have. */
    function Current(): Layout
      reads this
    {
      monitors.GetOr(viewport)
    }

    constructor (viewport: Entry, maxDimension: u32, encodable: Layout -> bool, useAllMonitors: bool,
                 initial: Option<Layout>)
      requires initial.Some? ==> useAllMonitors && |initial.value| > 1 && Checked(initial.value, maxDimension)
      ensures Valid() && this.maxDimension == maxDimension && this.encodable == encodable
              && this.useAllMonitors == useAllMonitors
      ensures this.viewport == [viewport] && monitors == initial && limits.None? && sent.None?
    {
      this.maxDimension, this.encodable, this.useAllMonitors := maxDimension, encodable, useAllMonitors;
      this.viewport, monitors, limits, sent := [viewport], initial, None, None;
    }

    /** `new`: fails when the viewport cannot be encoded, or the monitors are wanted and refused. */
    static method New(viewport: Entry, maxDimension: u32, encodable: Layout -> bool, all: bool, layout: seq<Monitor>)
      returns (state: RdpDisplayState?)
      ensures state != null <==>
                encodable([viewport])
                && (all && |layout| > 1 ==> Acceptable(layout, maxDimension) && encodable(Entries(layout)))
      ensures state != null ==>
                && fresh(state) && state.Valid() && state.limits.None? && state.sent.None?
                && state.Current() == if all && |layout| > 1 then Entries(layout) else [viewport]
    {
      hide Acceptable, RdpDisplayState.Fits;
      if !encodable([viewport]) {
        return null;
      }
      var monitors: Option<Layout> := None;
      if all && |layout| > 1 {
        monitors := BuildDisplayControlLayout(layout, maxDimension, encodable);
        if monitors.None? {
          return null;
        }
      }
      state := new RdpDisplayState(viewport, maxDimension, encodable, all, monitors);
    }

    /** The latest viewport is remembered, but never replaces an active multi-monitor layout. */
    method Resize(single: Entry) returns (ok: bool)
      requires Valid()
      modifies `viewport
      ensures Valid()
      ensures ok <==> encodable([single])
      ensures viewport == if ok then [single] else old(viewport)
      ensures Current() == if ok && monitors.None? then [single] else old(Current())
    {
      hide Fits, Checked;
      if !encodable([single]) {
        return false;
      }
      viewport := [single];
      return true;
    }

    method UpdateMonitors(layout: seq<Monitor>) returns (ok: bool)
      requires Valid()
      modifies `viewport, `monitors
      ensures Valid()
      ensures ok <==>
                || !useAllMonitors || layout == []
                || (Acceptable(layout, maxDimension) && encodable(Entries(layout)))
      ensures ok && useAllMonitors && layout != [] ==>
                Current() == Entries(layout) && (monitors.Some? <==> |layout| > 1)
      ensures !ok || !useAllMonitors || layout == [] ==> viewport == old(viewport) && monitors == old(monitors)
    {
      hide Fits, EntryArea, Acceptable;
      if !useAllMonitors || layout == [] {
        return true;
      }
      var built := BuildDisplayControlLayout(layout, maxDimension, encodable);
      if built.None? {
        return false;
      }
      if |built.value| > 1 {
        monitors := Some(built.value);
      } else {
        viewport := built.value;
        monitors := None;
      }
      return true;
    }

    /** The sum `take_update` computes, entry by entry, in 64 bits. */
    method SumArea(layout: Layout) returns (area: u64)
      requires EntryArea(layout) <= U64_MAX
      ensures area == EntryArea(layout)
    {
      area := 0;
      for i := 0 to |layout|
        invariant area == EntryArea(layout[..i])
      {
        assert layout[..i + 1][..i] == layout[..i];
        PrefixArea(layout, i + 1);
        area := area + layout[i].width * layout[i].height;
      }
      assert layout[..|layout|] == layout;
    }

    /** The current layout goes out exactly when it fits the server's limits and was not the last one sent. */
    method TakeUpdate() returns (r: Result<Option<Layout>, UpdateError>)
      requires Valid()
      modifies `sent
      ensures Valid()
      ensures limits.None? ==> r == Ok(None)
      ensures limits.Some? ==>
                (r.Ok? <==> |Current()| <= limits.value.count && EntryArea(Current()) <= limits.value.maxArea)
                && (r == Err(TooManyMonitors) <==> |Current()| > limits.value.count)
                && (r.Ok? ==> r.value == if old(sent) == Some(Current()) then None else Some(Current()))
                && (r.Ok? ==> sent == Some(Current()))
      ensures limits.None? || r.Err? ==> sent == old(sent)
    {
      hide EntryArea, Checked;
      if limits.None? {
        return Ok(None);
      }
      var layout := monitors.GetOr(viewport);
      CurrentAreaFits(layout, maxDimension);
      var area := SumArea(layout);
      if |layout| > limits.value.count {
        return Err(TooManyMonitors);
      }
      if area > limits.value.maxArea {
        return Err(TooMuchArea);
      }
      if sent == Some(layout) {
        return Ok(None);
      }
      sent := Some(layout);
      return Ok(Some(layout));
    }

    /** New limits make the server learn the current layout again, if it fits them. */
    method Capabilities(count: u32, maxArea: u64) returns (r: Result<Option<Layout>, UpdateError>)
      requires Valid()
      modifies `limits, `sent
      ensures Valid() && limits == Some(Limits(count, maxArea))
      ensures r.Ok? <==> |Current()| <= count && EntryArea(Current()) <= maxArea
      ensures r.Ok? ==> r.value == Some(Current()) && sent == Some(Current())
      ensures r.Err? ==> sent.None?
    {
      limits := Some(Limits(count, maxArea));
      sent := None;
      r := TakeUpdate();
    }
  }

  lemma {:induction false} PrefixArea(layout: Layout, n: nat)
    requires n <= |layout|
    ensures EntryArea(layout[..n]) <= EntryArea(layout)
    decreases |layout| - n
  {
    if n < |layout| {
      assert layout[..n + 1][..n] == layout[..n];
      PrefixArea(layout, n + 1);
    } else {
      assert layout[..n] == layout;
    }
  }

  /** No layout the state can hold makes the 64-bit sum overflow. */
  lemma CurrentAreaFits(layout: Layout, maxDimension: u32)
    requires |layout| == 1 || Checked(layout, maxDimension)
    ensures EntryArea(layout) <= U64_MAX
    ensures Checked(layout, maxDimension) ==> EntryArea(layout) <= maxDimension * maxDimension
  {
    hide Acceptable, TotalArea, BoundingBox;
    if Checked(layout, maxDimension) {
      var monitors: seq<Monitor> :| Acceptable(monitors, maxDimension) && layout == Entries(monitors);
      AcceptedAreaBounded(monitors, maxDimension);
      EntriesKeepArea(monitors);
    } else {
      ProductBounded(layout[0].width, layout[0].height, U32_MAX);
      assert layout[..0] == [];
    }
  }
}
