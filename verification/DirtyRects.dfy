// Dirty-rectangle bookkeeping shared by both RDP graphics producers
// (plugins/rdp/src/frame.rs).

module DirtyRects {
  import opened Wrappers
  import opened FixedWidth

  const MERGE_INFLATION_LIMIT: u64 := 2
  const MAX_DIRTY_RECTS: nat := 16

  datatype Rect = Rect(x: u32, y: u32, width: u32, height: u32) {
    ghost predicate Contains(px: int, py: int) {
      x <= px < x + width && y <= py < y + height
    }

    /** The right and bottom edges are representable, as for every rectangle on a desktop. */
    ghost predicate Fits() {
      x + width <= U32_MAX && y + height <= U32_MAX
    }

    ghost predicate Within(box: Rect) {
      && box.x <= x && x + width <= box.x + box.width
      && box.y <= y && y + height <= box.y + box.height
    }
  }

  /**
   * `RemoteDesktopRect::union` lives in a crate outside this repository. Assumed contract:
   * the bounding box, or None when that box is not representable.
   */
  function Union(a: Rect, b: Rect): Option<Rect> {
    var left, top := Min(a.x, b.x), Min(a.y, b.y);
    var right, bottom := Max(a.x + a.width, b.x + b.width), Max(a.y + a.height, b.y + b.height);
    if right <= U32_MAX && bottom <= U32_MAX then Some(Rect(left, top, right - left, bottom - top))
    else None
  }

  function RectPixels(r: Rect): u64 {
    SaturatingMul64(r.width, r.height)
  }

  predicate RectsTouch(a: Rect, b: Rect) {
    && a.x <= SaturatingAdd32(b.x, b.width)
    && b.x <= SaturatingAdd32(a.x, a.width)
    && a.y <= SaturatingAdd32(b.y, b.height)
    && b.y <= SaturatingAdd32(a.y, a.height)
  }

  /** The rectangle with its edges: one more column and row of corner points than of pixels. */
  ghost predicate HasPoint(r: Rect, px: int, py: int) {
    r.x <= px <= r.x + r.width && r.y <= py <= r.y + r.height
  }

  predicate Mergeable(a: Rect, b: Rect) {
    && Union(a, b).Some?
    && RectsTouch(a, b)
    && RectPixels(Union(a, b).value)
       <= SaturatingMul64(SaturatingAdd64(RectPixels(a), RectPixels(b)), MERGE_INFLATION_LIMIT)
  }

  function Inflation(a: Rect, b: Rect, union: Rect): u64 {
    SaturatingSub64(RectPixels(union), SaturatingAdd64(RectPixels(a), RectPixels(b)))
  }

  ghost predicate AllFit(rects: seq<Rect>) {
    forall r | r in rects :: r.Fits()
  }

  ghost predicate AllWithin(rects: seq<Rect>, box: Rect) {
    forall r | r in rects :: r.Within(box)
  }

  ghost predicate Covered(rects: seq<Rect>, px: int, py: int) {
    exists r | r in rects :: r.Contains(px, py)
  }

  /** Every pixel some rectangle of `inputs` contains is still in some rectangle of `outputs`. */
  ghost predicate CoversAll(outputs: seq<Rect>, inputs: seq<Rect>) {
    forall r | r in inputs :: Absorbed(r, outputs)
  }

  /** Some rectangle of `outputs` contains `r` whole. */
  ghost predicate Absorbed(r: Rect, outputs: seq<Rect>) {
    exists o | o in outputs :: r.Within(o)
  }

  /** `r` is exactly as large as the inputs inside it require: each edge belongs to one of them. */
  ghost predicate Tight(r: Rect, inputs: seq<Rect>) {
    && (exists a | a in inputs :: a.Within(r) && a.x == r.x)
    && (exists a | a in inputs :: a.Within(r) && a.y == r.y)
    && (exists a | a in inputs :: a.Within(r) && a.x + a.width == r.x + r.width)
    && (exists a | a in inputs :: a.Within(r) && a.y + a.height == r.y + r.height)
  }

  ghost predicate AllTight(outputs: seq<Rect>, inputs: seq<Rect>) {
    forall r | r in outputs :: Tight(r, inputs)
  }

  ghost predicate NoMergeablePair(rects: seq<Rect>) {
    forall i, j | 0 <= i < j < |rects| :: !Mergeable(rects[i], rects[j])
  }

  /** `Vec::swap_remove`. */
  function SwapRemove(rects: seq<Rect>, index: nat): (r: seq<Rect>)
    requires index < |rects|
  {
    rects[index := rects[|rects| - 1]][..|rects| - 1]
  }

  /** One merge: `first` becomes the union, `second` is removed by `swap_remove`. */
  function MergePair(rects: seq<Rect>, first: nat, second: nat, union: Rect): (r: seq<Rect>)
    requires first < second < |rects|
    ensures |r| == |rects| - 1
  {
    SwapRemove(rects[first := union], second)
  }

  // ----- what a merge keeps -----

  lemma SwapRemoveMembers(rects: seq<Rect>, index: nat)
    requires index < |rects|
    ensures forall r :: r in SwapRemove(rects, index) ==> r in rects
    ensures forall i :: 0 <= i < |rects| && i != index ==> rects[i] in SwapRemove(rects, index)
  {
    var out := SwapRemove(rects, index);
    forall i | 0 <= i < |rects| && i != index ensures rects[i] in out {
      if i == |rects| - 1 {
        assert out[index] == rects[i];
      } else {
        assert out[i] == rects[i];
      }
    }
  }

  /** A merge loses no rectangle, adds only the union, and stays tight over the inputs. */
  lemma MergePairKeeps(rects: seq<Rect>, first: nat, second: nat, inputs: seq<Rect>)
    requires first < second < |rects|
    requires Union(rects[first], rects[second]).Some?
    requires CoversAll(rects, inputs) && AllTight(rects, inputs)
    ensures var out := MergePair(rects, first, second, Union(rects[first], rects[second]).value);
            && CoversAll(out, inputs) && AllTight(out, inputs)
            && |out| == |rects| - 1
            && (AllFit(rects) ==> AllFit(out))
  {
    hide RectPixels, Mergeable, Tight;
    var union := Union(rects[first], rects[second]).value;
    var replaced := rects[first := union];
    var out := MergePair(rects, first, second, union);
    SwapRemoveMembers(replaced, second);
    assert replaced[first] == union;
    assert union in out;
    forall r | r in inputs ensures Absorbed(r, out) {
      assert Absorbed(r, rects);
      var o :| o in rects && r.Within(o);
      var i :| 0 <= i < |rects| && rects[i] == o;
      if i == first || i == second {
        assert r.Within(union);
      } else {
        assert replaced[i] == o;
      }
    }
    UnionTight(rects[first], rects[second], inputs);
  }

  lemma UnionTight(a: Rect, b: Rect, inputs: seq<Rect>)
    requires Union(a, b).Some? && Tight(a, inputs) && Tight(b, inputs)
    ensures Tight(Union(a, b).value, inputs)
  {
    var u := Union(a, b).value;
    forall c | c in inputs && (c.Within(a) || c.Within(b)) ensures c.Within(u) {
    }
  }

  lemma AbsorbedCovers(outputs: seq<Rect>, inputs: seq<Rect>, px: int, py: int)
    requires CoversAll(outputs, inputs) && Covered(inputs, px, py)
    ensures Covered(outputs, px, py)
  {
    var r :| r in inputs && r.Contains(px, py);
    assert Absorbed(r, outputs);
  }

  lemma TightWithin(outputs: seq<Rect>, inputs: seq<Rect>, box: Rect)
    requires AllTight(outputs, inputs) && AllWithin(inputs, box)
    ensures AllWithin(outputs, box)
  {
    forall r | r in outputs ensures r.Within(box) {
      assert Tight(r, inputs);
    }
  }

  lemma UnionOfFits(a: Rect, b: Rect)
    requires a.Fits() && b.Fits()
    ensures Union(a, b).Some? && Union(a, b).value.Fits()
  {
  }

  lemma MergeableHasUnion(a: Rect, b: Rect)
    requires Mergeable(a, b)
    ensures Union(a, b).Some? && (a.Fits() && b.Fits() ==> Union(a, b).value.Fits())
  {
    hide RectPixels;
  }

  lemma AllKeptInitially(inputs: seq<Rect>)
    ensures CoversAll(inputs, inputs) && AllTight(inputs, inputs)
  {
    hide RectPixels;
    forall r | r in inputs ensures Absorbed(r, inputs) && Tight(r, inputs) {
      assert r.Within(r);
    }
  }

  /** Rectangles touch exactly when they share a point, be it only on their edges. */
  lemma TouchMeansSharedPoint(a: Rect, b: Rect)
    requires a.Fits() && b.Fits()
    ensures RectsTouch(a, b) <==> exists px, py :: HasPoint(a, px, py) && HasPoint(b, px, py)
  {
    if RectsTouch(a, b) {
      var px, py := Max(a.x, b.x), Max(a.y, b.y);
      assert HasPoint(a, px, py) && HasPoint(b, px, py);
    }
  }

  function Area(r: Rect): nat {
    r.width * r.height
  }

  /**
   * Saturation never decides anything: rectangles are merged exactly when they share a point and their bounding box
   * is at most twice as large as both together, and a merge costs exactly the pixels it adds.
   */
  lemma WhenMergeable(a: Rect, b: Rect)
    requires a.Fits() && b.Fits()
    ensures Mergeable(a, b) <==>
            && (exists px, py :: HasPoint(a, px, py) && HasPoint(b, px, py))
            && Area(Union(a, b).value) <= 2 * (Area(a) + Area(b))
    ensures Inflation(a, b, Union(a, b).value) == Max(0, Area(Union(a, b).value) - Area(a) - Area(b))
  {
    TouchMeansSharedPoint(a, b);
    var union := Union(a, b).value;
    RectPixelsBelowMax(a);
    RectPixelsBelowMax(b);
    RectPixelsBelowMax(union);
    hide RectPixels, Union, RectsTouch, HasPoint;
  }

  // ----- which rectangles are merged -----

  /** Pairs in the order the loops visit them. */
  predicate Earlier(i: nat, j: nat, first: nat, second: nat) {
    i < first || (i == first && j < second)
  }

  ghost predicate FirstMergeable(rects: seq<Rect>, first: nat, second: nat) {
    && first < second < |rects| && Mergeable(rects[first], rects[second])
    && forall i, j | 0 <= i < j < |rects| && Earlier(i, j, first, second) :: !Mergeable(rects[i], rects[j])
  }

  /** A pair without a union keeps its first rectangle. */
  function AfterMerge(rects: seq<Rect>, first: nat, second: nat): (r: seq<Rect>)
    requires first < second < |rects|
    ensures |r| == |rects| - 1
  {
    MergePair(rects, first, second, Union(rects[first], rects[second]).GetOr(rects[first]))
  }

  /** Nothing but mergeable pairs was merged, always the first there was, until there was none. */
  ghost predicate MergedInTurn(from: seq<Rect>, to: seq<Rect>)
    decreases |from|
  {
    || (NoMergeablePair(from) && to == from)
    || exists i: nat, j: nat :: i < j < |from| && FirstMergeable(from, i, j) && MergedInTurn(AfterMerge(from, i, j), to)
  }

  /** Of the pairs whose union inflates least, the first. */
  ghost predicate FirstCheapest(rects: seq<Rect>, first: nat, second: nat) {
    && first < second < |rects|
    && (forall i, j | 0 <= i < j < |rects| :: PairCost(rects[first], rects[second]) <= PairCost(rects[i], rects[j]))
    && forall i, j | 0 <= i < j < |rects| && Earlier(i, j, first, second) ::
         PairCost(rects[first], rects[second]) < PairCost(rects[i], rects[j])
  }

  /** Only the cheapest pairs were merged, and no more than the limit demands. */
  ghost predicate MergedCheaply(from: seq<Rect>, to: seq<Rect>, limit: nat)
    decreases |from|
  {
    if |from| <= limit then to == from
    else
      exists i: nat, j: nat :: i < j < |from| && FirstCheapest(from, i, j)
        && MergedCheaply(AfterMerge(from, i, j), to, limit)
  }

  lemma OneMoreInTurn(inputs: seq<Rect>, rects: seq<Rect>, i: nat, j: nat)
    requires forall to | MergedInTurn(rects, to) :: MergedInTurn(inputs, to)
    requires i < j < |rects| && FirstMergeable(rects, i, j)
    ensures forall to | MergedInTurn(AfterMerge(rects, i, j), to) :: MergedInTurn(inputs, to)
  {
    hide FirstMergeable, AfterMerge, NoMergeablePair;
    forall to | MergedInTurn(AfterMerge(rects, i, j), to) ensures MergedInTurn(inputs, to) {
      assert MergedInTurn(rects, to);
    }
  }

  lemma OneMoreCheaply(inputs: seq<Rect>, rects: seq<Rect>, i: nat, j: nat, limit: nat)
    requires |rects| > limit
    requires forall to | MergedCheaply(rects, to, limit) :: MergedCheaply(inputs, to, limit)
    requires i < j < |rects| && FirstCheapest(rects, i, j)
    ensures forall to | MergedCheaply(AfterMerge(rects, i, j), to, limit) :: MergedCheaply(inputs, to, limit)
  {
    hide FirstCheapest, AfterMerge;
    forall to | MergedCheaply(AfterMerge(rects, i, j), to, limit) ensures MergedCheaply(inputs, to, limit) {
      assert MergedCheaply(rects, to, limit);
    }
  }

  // ----- the passes -----

  method MergeTouching(inputs: seq<Rect>) returns (rects: seq<Rect>)
    ensures NoMergeablePair(rects) && MergedInTurn(inputs, rects)
    ensures CoversAll(rects, inputs) && AllTight(rects, inputs)
    ensures AllFit(inputs) ==> AllFit(rects)
    ensures |rects| <= |inputs| && (inputs != [] ==> rects != [])
  {
    hide RectPixels, Mergeable, Tight, Absorbed, CoversAll, AllTight, MergePair, AllFit, MergedInTurn;
    rects := inputs;
    AllKeptInitially(inputs);
    var index := 0;
    while index < |rects|
      invariant 0 <= index <= |rects| <= |inputs|
      invariant inputs != [] ==> rects != []
      invariant CoversAll(rects, inputs) && AllTight(rects, inputs)
      invariant AllFit(inputs) ==> AllFit(rects)
      invariant forall to | MergedInTurn(rects, to) :: MergedInTurn(inputs, to)
      invariant forall i, j | 0 <= i < index && i < j < |rects| :: !Mergeable(rects[i], rects[j])
      decreases |rects|, |rects| - index
    {
      var candidate := index + 1;
      ghost var length, start := |rects|, index;
      while candidate < |rects|
        invariant 0 <= index < candidate <= |rects| <= |inputs|
        invariant |rects| < length || (|rects| == length && index == start)
        invariant CoversAll(rects, inputs) && AllTight(rects, inputs)
        invariant AllFit(inputs) ==> AllFit(rects)
        invariant forall to | MergedInTurn(rects, to) :: MergedInTurn(inputs, to)
        invariant forall i, j | 0 <= i < index && i < j < |rects| :: !Mergeable(rects[i], rects[j])
        invariant forall j | index < j < candidate :: !Mergeable(rects[index], rects[j])
        decreases |rects|, |rects| - candidate
      {
        if Mergeable(rects[index], rects[candidate]) {
          MergeableHasUnion(rects[index], rects[candidate]);
          MergePairKeeps(rects, index, candidate, inputs);
          OneMoreInTurn(inputs, rects, index, candidate);
          rects := MergePair(rects, index, candidate, Union(rects[index], rects[candidate]).value);
          index := 0;
          candidate := 1;
          continue;
        }
        candidate := candidate + 1;
      }
      index := index + 1;
    }
    NothingToMerge(rects);
  }

  lemma NothingToMerge(rects: seq<Rect>)
    requires NoMergeablePair(rects)
    ensures MergedInTurn(rects, rects)
  {
  }

  /** What merging a pair costs: the inflation of its union, or the sentinel when it has none. */
  function PairCost(a: Rect, b: Rect): u64 {
    var union := Union(a, b);
    if union.None? then U64_MAX else Inflation(a, b, union.value)
  }

  /** Among the pairs visited before (i, j) none costs less than `best`, and those before the chosen one cost more. */
  ghost predicate BestSoFar(rects: seq<Rect>, best: u64, first: nat, second: nat, i: nat, j: nat) {
    && first < second < |rects|
    && (if best == U64_MAX then first == 0 && second == 1 else best == PairCost(rects[first], rects[second]))
    && (forall a, b | 0 <= a < b < |rects| && Earlier(a, b, i, j) :: best <= PairCost(rects[a], rects[b]))
    && (forall a, b | 0 <= a < b < |rects| && Earlier(a, b, first, second) :: best < PairCost(rects[a], rects[b]))
  }

  lemma NextPair(rects: seq<Rect>, best: u64, first: nat, second: nat, i: nat, j: nat)
    requires i < j < |rects| && BestSoFar(rects, best, first, second, i, j)
    ensures var cost := PairCost(rects[i], rects[j]);
            if cost < best then BestSoFar(rects, cost, i, j, i, j + 1)
            else BestSoFar(rects, best, first, second, i, j + 1)
  {
    hide PairCost;
    assert forall a: nat, b: nat | Earlier(a, b, i, j + 1) :: Earlier(a, b, i, j) || (a == i && b == j);
  }

  lemma NextRow(rects: seq<Rect>, best: u64, first: nat, second: nat, i: nat)
    requires i < |rects| && BestSoFar(rects, best, first, second, i, |rects|)
    ensures BestSoFar(rects, best, first, second, i + 1, i + 2)
  {
    hide PairCost;
    assert forall a: nat, b: nat | b < |rects| && a < b && Earlier(a, b, i + 1, i + 2) :: Earlier(a, b, i, |rects|);
  }

  lemma AllPairsVisited(rects: seq<Rect>, best: u64, first: nat, second: nat)
    requires BestSoFar(rects, best, first, second, |rects|, |rects| + 1)
    ensures first < second < |rects| && FirstCheapest(rects, first, second)
    ensures forall i, j | 0 <= i < j < |rects| :: PairCost(rects[first], rects[second]) <= PairCost(rects[i], rects[j])
    ensures Union(rects[first], rects[second]).None? ==>
              forall i, j | 0 <= i < j < |rects| :: Union(rects[i], rects[j]).None?
  {
    hide PairCost, Union;
    PairCostSentinel(rects[first], rects[second]);
    forall i, j | 0 <= i < j < |rects|
      ensures best <= PairCost(rects[i], rects[j]) <= U64_MAX
      ensures PairCost(rects[i], rects[j]) == U64_MAX <==> Union(rects[i], rects[j]).None?
    {
      PairCostSentinel(rects[i], rects[j]);
      assert Earlier(i, j, |rects|, |rects| + 1);
    }
  }

  lemma NothingVisited(rects: seq<Rect>)
    requires |rects| >= 2
    ensures BestSoFar(rects, U64_MAX, 0, 1, 0, 1)
  {
    hide PairCost;
    assert forall a: nat, b: nat | a < b :: !Earlier(a, b, 0, 1);
  }

  /**
   * The inner double loop of the limit pass: no pair costs less, so a pair without a union is chosen only if none has
   * one; of equally cheap pairs it is the first.
   */
  method CheapestPair(rects: seq<Rect>) returns (first: nat, second: nat)
    requires |rects| >= 2
    ensures first < second < |rects|
    ensures forall i, j | 0 <= i < j < |rects| :: PairCost(rects[first], rects[second]) <= PairCost(rects[i], rects[j])
    ensures Union(rects[first], rects[second]).None? ==>
              forall i, j | 0 <= i < j < |rects| :: Union(rects[i], rects[j]).None?
    ensures FirstCheapest(rects, first, second)
  {
    hide Inflation, RectPixels, PairCost, BestSoFar, FirstCheapest, Union;
    first, second := 0, 1;
    var bestInflation: u64 := U64_MAX;
    NothingVisited(rects);
    for i := 0 to |rects|
      invariant BestSoFar(rects, bestInflation, first, second, i, i + 1)
    {
      for j := i + 1 to |rects|
        invariant BestSoFar(rects, bestInflation, first, second, i, j)
      {
        NextPair(rects, bestInflation, first, second, i, j);
        PairCostSentinel(rects[i], rects[j]);
        var union := Union(rects[i], rects[j]);
        if union.None? {
          continue;
        }
        var inflation := Inflation(rects[i], rects[j], union.value);
        if inflation < bestInflation {
          first, second := i, j;
          bestInflation := inflation;
        }
      }
      NextRow(rects, bestInflation, first, second, i);
    }
    AllPairsVisited(rects, bestInflation, first, second);
  }

  lemma PairCostSentinel(a: Rect, b: Rect)
    ensures PairCost(a, b) == U64_MAX <==> Union(a, b).None?
    ensures Union(a, b).Some? ==> PairCost(a, b) == Inflation(a, b, Union(a, b).value)
    ensures PairCost(a, b) <= U64_MAX
  {
    if Union(a, b).Some? {
      InflationBelowMax(a, b);
    }
    hide Inflation;
  }

  /** A product of two u32 never reaches u64::MAX, so a representable union always beats the start value. */
  lemma InflationBelowMax(a: Rect, b: Rect)
    requires Union(a, b).Some?
    ensures Inflation(a, b, Union(a, b).value) < U64_MAX
  {
    RectPixelsBelowMax(Union(a, b).value);
    hide RectPixels;
  }

  lemma RectPixelsBelowMax(r: Rect)
    ensures RectPixels(r) < U64_MAX
    ensures RectPixels(r) == r.width * r.height
  {
    MulMonotone(r.width, U32_MAX, r.height, U32_MAX);
  }

  lemma MulMonotone(a: nat, b: nat, c: nat, d: nat)
    requires a <= b && c <= d
    ensures a * c <= b * d
  {
  }

  /** A limit of zero would index past the end in the source. */
  method MergeToLimit(inputs: seq<Rect>, limit: nat) returns (rects: seq<Rect>)
    requires limit >= 1
    ensures |rects| == Min(|inputs|, limit)
    ensures |inputs| <= limit ==> rects == inputs
    ensures MergedCheaply(inputs, rects, limit)
    ensures AllFit(inputs) ==> CoversAll(rects, inputs) && AllTight(rects, inputs) && AllFit(rects)
  {
    hide RectPixels, Inflation, PairCost, Tight, Absorbed, CoversAll, AllTight, AllFit, MergedCheaply, FirstCheapest;
    rects := inputs;
    AllKeptInitially(inputs);
    while |rects| > limit
      invariant |rects| >= Min(|inputs|, limit) && |rects| <= |inputs|
      invariant |inputs| <= limit ==> rects == inputs
      invariant forall to | MergedCheaply(rects, to, limit) :: MergedCheaply(inputs, to, limit)
      invariant AllFit(inputs) ==> CoversAll(rects, inputs) && AllTight(rects, inputs) && AllFit(rects)
    {
      var first, second := CheapestPair(rects);
      OneMoreCheaply(inputs, rects, first, second, limit);
      if AllFit(inputs) {
        FittingPairHasUnion(rects, first, second);
        MergePairKeeps(rects, first, second, inputs);
      }
      var merged := Union(rects[first], rects[second]).GetOr(rects[first]);
      rects := SwapRemove(rects[first := merged], second);
    }
    WithinLimit(rects, limit);
  }

  lemma WithinLimit(rects: seq<Rect>, limit: nat)
    requires |rects| <= limit
    ensures MergedCheaply(rects, rects, limit)
  {
  }

  lemma FittingPairHasUnion(rects: seq<Rect>, i: nat, j: nat)
    requires AllFit(rects) && i < |rects| && j < |rects|
    ensures Union(rects[i], rects[j]).Some?
  {
    UnionOfFits(rects[i], rects[j]);
  }

  lemma CoversAllTrans(a: seq<Rect>, b: seq<Rect>, c: seq<Rect>)
    requires CoversAll(a, b) && CoversAll(b, c)
    ensures CoversAll(a, c)
  {
    forall r | r in c ensures Absorbed(r, a) {
      assert Absorbed(r, b);
      var o :| o in b && r.Within(o);
      assert Absorbed(o, a);
    }
  }

  lemma AllTightTrans(a: seq<Rect>, b: seq<Rect>, c: seq<Rect>)
    requires AllTight(a, b) && AllTight(b, c)
    ensures AllTight(a, c)
  {
    forall r | r in a ensures Tight(r, c) {
      assert Tight(r, b);
      forall o | o in b && o.Within(r) ensures Tight(o, c) && forall i | i in c && i.Within(o) :: i.Within(r) {
      }
    }
  }

  method QueueBoundedDirtyRect(rects: seq<Rect>, rect: Rect, limit: nat) returns (queued: seq<Rect>)
    requires limit >= 1
    ensures 1 <= |queued| <= limit && |queued| <= |rects| + 1
    ensures |queued| < limit ==> NoMergeablePair(queued)
    ensures exists touching :: MergedInTurn(rects + [rect], touching) && MergedCheaply(touching, queued, limit)
    ensures AllFit(rects + [rect]) ==>
              && CoversAll(queued, rects + [rect])
              && AllTight(queued, rects + [rect])
              && AllFit(queued)
  {
    var touching := MergeTouching(rects + [rect]);
    queued := MergeToLimit(touching, limit);
    if AllFit(rects + [rect]) {
      CoversAllTrans(queued, touching, rects + [rect]);
      AllTightTrans(queued, touching, rects + [rect]);
    }
  }
}
