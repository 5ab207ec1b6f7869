// The bitmap path: how `ClientRdpFrameState` publishes the decoded image
// (plugins/rdp/src/client_session.rs and plugins/rdp/src/frame.rs).

module FramePublication {
  import opened Wrappers
  import opened FixedWidth
  import opened DirtyRects
  import opened Pixels
  import opened Viewer
  import opened GraphicsChannel
  import opened EgfxPublication

  const BASE_AREA_DIVISOR: u64 := 3

  /** Both its corners belong to it. */
  datatype InclusiveRectangle = InclusiveRectangle(left: u16, top: u16, right: u16, bottom: u16) {
    ghost predicate Includes(px: int, py: int) {
      left <= px <= right && top <= py <= bottom
    }
  }

  datatype FrameState = FrameState(
    needsBase: bool, accumulator: seq<Rect>, epoch: u64, awaiting: bool,
    pendingBase: bool, pendingBaseReady: bool, publishedFirst: bool, traceId: u64)

  function InitialFrame(epoch: u64): FrameState {
    FrameState(true, [], epoch, false, false, false, false, 0)
  }

  /** The picture the viewer should see: the decoded image with opaque alpha. */
  ghost function OpaqueImage(image: Image): Image {
    image.(bytes := Opaque(image.bytes))
  }

  /**
   * `normalized_update_rect`: a region left over from another desktop size is dropped, any other is kept pixel for
   * pixel.
   */
  function NormalizedRect(width: u16, height: u16, region: InclusiveRectangle): (r: Option<Rect>)
    ensures r.Some? ==> r.value.Within(Rect(0, 0, width, height)) && r.value.width > 0 && r.value.height > 0
    ensures r.Some? <==> region.left <= region.right < width && region.top <= region.bottom < height
    ensures r.Some? ==> forall px: int, py: int :: r.value.Contains(px, py) <==> region.Includes(px, py)
  {
    if region.right >= width || region.bottom >= height || region.left > region.right
      || region.top > region.bottom then None
    else Some(Rect(region.left, region.top, region.right - region.left + 1, region.bottom - region.top + 1))
  }

  function UpdateRect(width: u16, height: u16, region: InclusiveRectangle, needsBase: bool): Option<Rect> {
    var rect := NormalizedRect(width, height, region);
    if rect.None? then None
    else if needsBase || CoversFrame(rect.value, width, height) then Some(Rect(0, 0, width, height))
    else rect
  }

  predicate ShouldPromote(rects: seq<Rect>, width: u16, height: u16) {
    && rects != []
    && ((exists r | r in rects :: CoversFrame(r, width, height))
        || SaturatingMul64(DirtyPixels(rects), BASE_AREA_DIVISOR) >= SaturatingMul64(width, height))
  }

  /** The bitmap path sends a whole frame exactly when a third of the image is dirty, or one rectangle is all of it. */
  lemma WhenPromoted(rects: seq<Rect>, width: u16, height: u16)
    requires rects != []
    ensures ShouldPromote(rects, width, height)
            <==> 3 * PixelSum(rects) >= width * height || Rect(0, 0, width, height) in rects
  {
    DirtyPixelsAreSummed(rects);
    RectPixelsBelowMax(Rect(0, 0, width, height));
    hide DirtyPixels, PixelSum, RectPixels;
    assert forall r: Rect :: CoversFrame(r, width, height) <==> r == Rect(0, 0, width, height);
  }

  // ----- steps -----

  ghost function BeginReactivation(f: FrameState): Option<FrameState> {
    if f.awaiting then None
    else Some(f.(epoch := Max(SaturatingAdd64(f.epoch, 1), 1), awaiting := true, needsBase := true, accumulator := [],
                 pendingBase := false, pendingBaseReady := false))
  }

  ghost function FinishReactivation(f: FrameState): FrameState {
    f.(awaiting := false, needsBase := true, accumulator := [], pendingBase := false, pendingBaseReady := false)
  }

  ghost function SendBase(f: FrameState, c: Channel, image: Image, publishReady: bool): (FrameState, Channel, bool) {
    if f.awaiting then (f.(needsBase := true), c, true)
    else
      var f1 := f.(traceId := NextTraceId(f.traceId), accumulator := []);
      var (c1, sent) := TrySend(c, Frame(OpaqueImage(image), f.epoch, f1.traceId));
      match sent
      case Sent =>
        var f2 := f1.(pendingBase := false, pendingBaseReady := false, needsBase := false);
        if publishReady && !f.publishedFirst then
          var (c2, ok) := SendReady(c1, image.width, image.height);
          (f2.(publishedFirst := ok), c2, ok)
        else (f2, c1, true)
      case Full =>
        (f1.(pendingBase := true, pendingBaseReady := f.pendingBaseReady || publishReady, needsBase := true), c1, true)
      case Disconnected => (f1, c1, false)
  }

  /** Sends a dirty update; a refusal breaks the delta chain, so a base frame becomes due. */
  ghost function SendDelta(f: FrameState, c: Channel, output: Output): (FrameState, Channel, bool) {
    if f.awaiting || f.pendingBase || f.needsBase then (f.(needsBase := true), c, true)
    else
      var (c1, sent) := TrySend(c, output);
      match sent
      case Sent => (f, c1, true)
      case Full => (f.(pendingBase := true, needsBase := true), c1, true)
      case Disconnected => (f, c1, false)
  }

  /** `send_client_rdp_graphics_event`: a frame event restores the chain that dirty updates depend on. */
  ghost function SendEvent(f: FrameState, c: Channel, output: Output): (FrameState, Channel, bool) {
    if f.awaiting || !output.Frame? then SendDelta(f, c, output)
    else
      var (c1, sent) := TrySend(c, output);
      match sent
      case Sent => (f.(pendingBase := false, pendingBaseReady := false, needsBase := false), c1, true)
      case Full => (f.(pendingBase := true, needsBase := true), c1, true)
      case Disconnected => (f, c1, false)
  }

  /** `ready` says whether the accumulation window has passed (or the flush is forced). */
  ghost function Flush(f: FrameState, c: Channel, image: Image, ready: bool): (FrameState, Channel, bool)
    requires FrameWellFormed(f, image)
  {
    if f.awaiting || !ready || f.accumulator == [] then (f, c, true)
    else
      var f1 := f.(accumulator := []);
      if f.pendingBase || f.needsBase || exists r | r in f.accumulator :: CoversFrame(r, image.width, image.height) then
        SendBase(f1, c, image, true)
      else
        var f2 := f1.(traceId := NextTraceId(f.traceId));
        SendDelta(f2, c, DeltaOutput(Deltas(OpaqueImage(image), f.accumulator, f.epoch, f2.traceId)))
  }

  ghost function FlushPendingBase(f: FrameState, c: Channel, image: Image): (FrameState, Channel, bool) {
    if f.awaiting || !f.pendingBase then (f, c, true) else SendBase(f, c, image, f.pendingBaseReady)
  }

  /** What queueing `rect` may leave in the accumulator. */
  ghost predicate QueuedAs(queued: seq<Rect>, accumulator: seq<Rect>, rect: Rect) {
    1 <= |queued| <= MAX_DIRTY_RECTS && CoversAll(queued, accumulator + [rect])
      && AllTight(queued, accumulator + [rect])
  }

  /** The region goes through the accumulator instead of being dropped or forcing a base frame. */
  ghost predicate Accumulates(f: FrameState, image: Image, region: InclusiveRectangle) {
    var rect := UpdateRect(image.width, image.height, region, f.needsBase);
    !f.awaiting && !f.needsBase && rect.Some? && !CoversFrame(rect.value, image.width, image.height)
  }

  ghost function SendUpdate(f: FrameState, c: Channel, image: Image, region: InclusiveRectangle, queued: seq<Rect>,
                            ready: bool)
    : (FrameState, Channel, bool)
    requires FrameWellFormed(f, image)
    requires Accumulates(f, image, region) ==>
               QueuedAs(queued, f.accumulator, UpdateRect(image.width, image.height, region, f.needsBase).value)
  {
    if f.awaiting then (f, c, true)
    else
      var rect := UpdateRect(image.width, image.height, region, f.needsBase);
      if rect.None? then (f, c, true)
      else if f.needsBase || CoversFrame(rect.value, image.width, image.height) then SendBase(f, c, image, true)
      else
        var f1 := f.(accumulator := queued);
        if ShouldPromote(queued, image.width, image.height) then SendBase(f1.(accumulator := []), c, image, true)
        else
          QueuedWellFormed(f, image, rect.value, queued);
          Flush(f1, c, image, ready)
  }

  // ----- what the steps keep -----

  ghost predicate FrameWellFormed(f: FrameState, image: Image) {
    && image.Valid()
    && AllWithin(f.accumulator, image.Bounds())
    && (f.pendingBase ==> f.needsBase)
    && (f.awaiting ==> f.needsBase && !f.pendingBase)
    && (f.needsBase ==> f.accumulator == [])
  }

  lemma QueuedWellFormed(f: FrameState, image: Image, rect: Rect, queued: seq<Rect>)
    requires FrameWellFormed(f, image) && !f.needsBase
    requires rect.Within(image.Bounds()) && QueuedAs(queued, f.accumulator, rect)
    ensures FrameWellFormed(f.(accumulator := queued), image)
  {
    hide Image.Valid, Tight, Absorbed, CoversAll;
    TightWithin(queued, f.accumulator + [rect], image.Bounds());
  }

  /** Synced means the viewer will show the opaque image outside `dirty`; otherwise nothing is claimed. */
  ghost predicate InSync(f: FrameState, c: Channel, image: Image, dirty: seq<Rect>) {
    !f.needsBase ==> Coherent(Shown(c), OpaqueImage(image), dirty, f.epoch)
  }

  ghost predicate FrameInv(f: FrameState, c: Channel, image: Image, unhandled: seq<Rect>) {
    && FrameWellFormed(f, image)
    && InSync(f, c, image, f.accumulator + unhandled)
  }

  /** A step that did not end the session kept the invariant; any step only sent. */
  ghost predicate Kept(f: FrameState, c: Channel, r: (FrameState, Channel, bool), image: Image, unhandled: seq<Rect>) {
    && r.1 == c.(queue := r.1.queue, log := r.1.log)
    && r.0.epoch == f.epoch && r.0.awaiting == f.awaiting
    && (r.2 ==> FrameInv(r.0, r.1, image, unhandled))
  }

  lemma OpaqueValid(image: Image)
    requires image.Valid()
    ensures OpaqueImage(image).Valid() && OpaqueImage(image).Bounds() == image.Bounds()
  {
  }

  /** A base frame that gets through brings the viewer up to date whatever was dirty before. */
  lemma SendBaseKeeps(f: FrameState, c: Channel, image: Image, publishReady: bool, unhandled: seq<Rect>)
    requires image.Valid() && (f.pendingBase ==> f.needsBase)
             && (f.awaiting ==> f.needsBase && !f.pendingBase && f.accumulator == [])
    ensures Kept(f, c, SendBase(f, c, image, publishReady), image, unhandled)
    ensures var (g, d, ok) := SendBase(f, c, image, publishReady);
            !f.awaiting && c.receiverAlive ==>
              !g.needsBase && !g.pendingBase && !g.pendingBaseReady
                && Shown(d) == Some(Screen(OpaqueImage(image), f.epoch))
  {
    hide Replay, Coherent;
    if !f.awaiting && c.receiverAlive {
      OpaqueValid(image);
      var f1 := f.(traceId := NextTraceId(f.traceId), accumulator := []);
      var base := Frame(OpaqueImage(image), f.epoch, f1.traceId);
      SentIsShown(c, base);
      var d := SendBase(f, c, image, publishReady).1;
      ExactIsCoherent(d, OpaqueImage(image), [] + unhandled, f.epoch);
    }
  }

  /** Sending the accumulated rectangles leaves only the unhandled regions dirty. */
  lemma SendAccumulatedKeeps(f: FrameState, c: Channel, image: Image, rects: seq<Rect>, traceId: u64,
                             unhandled: seq<Rect>)
    requires image.Valid() && AllWithin(rects, image.Bounds()) && f.accumulator == []
    requires !f.awaiting && !f.pendingBase && !f.needsBase
    requires Coherent(Shown(c), OpaqueImage(image), rects + unhandled, f.epoch)
    ensures Kept(f, c, SendDelta(f, c, DeltaOutput(Deltas(OpaqueImage(image), rects, f.epoch, traceId))), image,
            unhandled)
  {
    hide Replay, Coherent, Image.Valid;
    OpaqueValid(image);
    var wanted := OpaqueImage(image);
    var updates := Deltas(wanted, rects, f.epoch, traceId);
    var output := DeltaOutput(updates);
    if TrySend(c, output).1 == Sent {
      SentIsShown(c, output);
      DeltasLeave(Shown(c), wanted, rects, unhandled, f.epoch, traceId);
      if |updates| == 1 {
        SingleUpdate(Shown(c), updates);
      }
      assert [] + unhandled == unhandled;
    }
  }

  /** Whatever was owed or dirty, a frame event with the current image brings the viewer up to date. */
  lemma FrameEventKeeps(f: FrameState, c: Channel, image: Image, traceId: u64, unhandled: seq<Rect>)
    requires FrameWellFormed(f, image)
    ensures var output := Frame(OpaqueImage(image), f.epoch, traceId);
            && Kept(f, c, SendEvent(f, c, output), image, unhandled)
            && (!f.awaiting && c.receiverAlive ==>
                  var (g, d, ok) := SendEvent(f, c, output);
                  ok && !g.needsBase && !g.pendingBase && !g.pendingBaseReady
                    && Shown(d) == Some(Screen(OpaqueImage(image), f.epoch)))
  {
    hide Replay, Coherent, Image.Valid;
    if !f.awaiting && c.receiverAlive {
      OpaqueValid(image);
      var output := Frame(OpaqueImage(image), f.epoch, traceId);
      SentIsShown(c, output);
      ExactIsCoherent(SendEvent(f, c, output).1, OpaqueImage(image), f.accumulator + unhandled, f.epoch);
    }
  }

  /** Deltas for some of the dirty rectangles leave at most the others dirty. */
  lemma {:induction false} DeltasLeave(view: Option<Screen>, wanted: Image, sent: seq<Rect>, rest: seq<Rect>,
                                       epoch: u64, traceId: u64)
    requires Coherent(view, wanted, sent + rest, epoch)
    requires AllWithin(sent, wanted.Bounds())
    ensures Coherent(ApplyUpdates(view, Deltas(wanted, sent, epoch, traceId)), wanted, rest, epoch)
    decreases |sent|
  {
    hide AgreeOutside;
    if sent == [] {
      assert sent + rest == rest;
    } else {
      assert sent + rest == [sent[0]] + (sent[1..] + rest);
      CoherentValid(view, wanted, sent + rest, epoch);
      DeltaRepairs(view, wanted, sent[0], sent[1..] + rest, epoch, traceId);
      DeltasLeave(ApplyUpdate(view, Delta(wanted, sent[0], epoch, traceId)), wanted, sent[1..], rest, epoch, traceId);
      assert Deltas(wanted, sent, epoch, traceId)[1..] == Deltas(wanted, sent[1..], epoch, traceId);
    }
  }

  lemma CoherentValid(view: Option<Screen>, wanted: Image, dirty: seq<Rect>, epoch: u64)
    requires Coherent(view, wanted, dirty, epoch)
    ensures wanted.Valid()
  {
  }

  lemma FlushKeeps(f: FrameState, c: Channel, image: Image, ready: bool, unhandled: seq<Rect>)
    requires FrameInv(f, c, image, unhandled)
    ensures Kept(f, c, Flush(f, c, image, ready), image, unhandled)
  {
    hide Replay, Coherent, Image.Valid, SendBase, SendDelta, AllWithin;
    if !f.awaiting && ready && f.accumulator != [] {
      if exists r | r in f.accumulator :: CoversFrame(r, image.width, image.height) {
        SendBaseKeeps(f.(accumulator := []), c, image, true, unhandled);
      } else {
        var f2 := f.(accumulator := [], traceId := NextTraceId(f.traceId));
        SendAccumulatedKeeps(f2, c, image, f.accumulator, f2.traceId, unhandled);
      }
    }
  }

  /**
   * What accumulated goes out as soon as it may: nothing happens before, and then the viewer is brought up to date
   * outside the regions not yet handled, unless the full queue refuses rectangles, which a base frame then replaces.
   */
  lemma AccumulatedIsSent(f: FrameState, c: Channel, image: Image, ready: bool, unhandled: seq<Rect>)
    requires FrameInv(f, c, image, unhandled)
    ensures var (g, d, ok) := Flush(f, c, image, ready);
            && (f.awaiting || !ready || f.accumulator == [] ==> (g, d, ok) == (f, c, true))
            && (!f.awaiting && ready && f.accumulator != [] && c.receiverAlive ==>
                  var whole := image.Bounds() in f.accumulator;
                  && g.accumulator == [] && (!whole ==> ok)
                  && (whole || |c.queue| < c.capacity ==>
                        && !g.needsBase && |d.log| > |c.log| && d.log[|c.log|].ToGraphics?
                        && (d.log[|c.log|].output.Frame? <==> whole)
                        && (d.log[|c.log|].output.FrameUpdate? <==> !whole && |f.accumulator| == 1)
                        && Traced(c, d, f.traceId, g.traceId)
                        && Coherent(Shown(d), OpaqueImage(image), if whole then [] else unhandled, f.epoch))
                  && (!whole && |c.queue| >= c.capacity ==> g.needsBase && g.pendingBase && d == c))
  {
    hide Replay, Coherent, Image.Valid, SendBase, AllWithin, Traced;
    if !f.awaiting && ready && f.accumulator != [] && c.receiverAlive {
      OpaqueValid(image);
      assert forall r: Rect :: CoversFrame(r, image.width, image.height) <==> r == image.Bounds();
      if image.Bounds() in f.accumulator {
        assert CoversFrame(image.Bounds(), image.width, image.height);
        SendBaseKeeps(f.(accumulator := []), c, image, true, []);
        BaseIsLogged(f.(accumulator := []), c, image);
        ExactIsCoherent(Flush(f, c, image, ready).1, OpaqueImage(image), [], f.epoch);
      } else {
        var f2 := f.(accumulator := [], traceId := NextTraceId(f.traceId));
        SendAccumulatedKeeps(f2, c, image, f.accumulator, f2.traceId, unhandled);
        DeltaIsTraced(c, OpaqueImage(image), f.accumulator, f.epoch, f.traceId);
        assert [] + unhandled == unhandled;
      }
    }
  }

  lemma BaseIsLogged(f: FrameState, c: Channel, image: Image)
    requires !f.awaiting && c.receiverAlive
    ensures var (g, d, ok) := SendBase(f, c, image, true);
            && |d.log| > |c.log| && d.log[|c.log|].ToGraphics? && d.log[|c.log|].output.Frame? && g.accumulator == []
            && Traced(c, d, f.traceId, g.traceId)
  {
  }

  /** As for the renderer, Connected follows the first base frame that may report it, with the image's own size. */
  lemma FirstBaseAnnounces(f: FrameState, c: Channel, image: Image)
    requires !f.awaiting && c.receiverAlive
    ensures var (g, d, ok) := SendBase(f, c, image, true);
            && (ok <==> f.publishedFirst || c.controlOpen) && g.publishedFirst == ok && |d.log| > |c.log|
            && d.log[|c.log| + 1..]
               == if f.publishedFirst || !ok then []
                  else [ToControl(Connected(image.width, image.height)), ToControl(ConnectedStatus)]
  {
  }

  /** A pending base frame is sent as soon as it is retried. */
  lemma PendingBaseIsSent(f: FrameState, c: Channel, image: Image)
    requires FrameWellFormed(f, image) && c.receiverAlive
    ensures var (g, d, ok) := FlushPendingBase(f, c, image);
            if f.pendingBase then
              !g.pendingBase && !g.needsBase && Shown(d) == Some(Screen(OpaqueImage(image), f.epoch))
            else (g, d, ok) == (f, c, true)
  {
    hide Replay, Coherent, Image.Valid, SendBase;
    if f.pendingBase {
      SendBaseKeeps(f, c, image, f.pendingBaseReady, []);
    }
  }

  /** The first region handled while a base frame is owed pays the debt. */
  lemma OwedBaseIsSent(f: FrameState, c: Channel, image: Image, region: InclusiveRectangle, queued: seq<Rect>,
                       ready: bool)
    requires FrameWellFormed(f, image) && c.receiverAlive && !f.awaiting && f.needsBase
    requires region.left <= region.right < image.width && region.top <= region.bottom < image.height
    ensures var (g, d, ok) := SendUpdate(f, c, image, region, queued, ready);
            !g.needsBase && !g.pendingBase && Shown(d) == Some(Screen(OpaqueImage(image), f.epoch))
  {
    hide Replay, Coherent, Image.Valid, SendBase;
    SendBaseKeeps(f, c, image, true, []);
  }

  /**
   * Handling a region does no more than it must: while a reactivation is awaited, or out of bounds, the region is
   * dropped without an effect; a part of a synced image is queued as the rectangle it is, and nothing is sent before
   * its time unless so much is dirty that a whole frame pays.
   */
  lemma SmallRegionIsQueued(f: FrameState, c: Channel, image: Image, region: InclusiveRectangle, queued: seq<Rect>)
    requires FrameWellFormed(f, image)
    requires Accumulates(f, image, region) ==>
               QueuedAs(queued, f.accumulator, UpdateRect(image.width, image.height, region, f.needsBase).value)
    ensures var rect := NormalizedRect(image.width, image.height, region);
            var r := SendUpdate(f, c, image, region, queued, false);
            && (f.awaiting || rect.None? ==> r == (f, c, true))
            && (!f.awaiting && !f.needsBase && rect.Some? && rect.value != image.Bounds() ==>
                  && QueuedAs(queued, f.accumulator, rect.value)
                  && (3 * PixelSum(queued) < image.width * image.height && image.Bounds() !in queued ==>
                        r == (f.(accumulator := queued), c, true)))
  {
    hide Image.Valid, AllWithin, PixelSum, ShouldPromote, QueuedAs, SendBase;
    QueuedNotEmpty(queued, f.accumulator, image);
    if queued != [] {
      WhenPromoted(queued, image.width, image.height);
    }
  }

  lemma QueuedNotEmpty(queued: seq<Rect>, accumulator: seq<Rect>, image: Image)
    ensures forall rect | QueuedAs(queued, accumulator, rect) :: queued != []
    ensures forall rect: Rect :: CoversFrame(rect, image.width, image.height) <==> rect == image.Bounds()
  {
  }

  lemma FlushPendingBaseKeeps(f: FrameState, c: Channel, image: Image, unhandled: seq<Rect>)
    requires FrameInv(f, c, image, unhandled)
    ensures Kept(f, c, FlushPendingBase(f, c, image), image, unhandled)
  {
    hide Replay, Coherent, Image.Valid, SendBase;
    if !f.awaiting && f.pendingBase {
      SendBaseKeeps(f, c, image, f.pendingBaseReady, unhandled);
    }
  }

  /** Handling one reported region moves it from the unhandled regions into the accumulator or a base frame. */
  lemma SendUpdateKeeps(f: FrameState, c: Channel, image: Image, region: InclusiveRectangle, queued: seq<Rect>,
                        ready: bool, rest: seq<Rect>)
    requires image.Valid()
    requires var rect := NormalizedRect(image.width, image.height, region);
             FrameInv(f, c, image, (if rect.Some? then [rect.value] else []) + rest)
    requires Accumulates(f, image, region) ==>
               QueuedAs(queued, f.accumulator, UpdateRect(image.width, image.height, region, f.needsBase).value)
    ensures Kept(f, c, SendUpdate(f, c, image, region, queued, ready), image, rest)
  {
    hide Replay, Coherent, Image.Valid, SendBase, Flush, AllWithin, ShouldPromote, QueuedAs;
    var rect := UpdateRect(image.width, image.height, region, f.needsBase);
    if f.awaiting {
    } else if rect.None? {
      assert [] + rest == rest;
    } else if f.needsBase || CoversFrame(rect.value, image.width, image.height) {
      SendBaseKeeps(f, c, image, true, rest);
    } else if ShouldPromote(queued, image.width, image.height) {
      SendBaseKeeps(f.(accumulator := []), c, image, true, rest);
    } else {
      QueuedWellFormed(f, image, rect.value, queued);
      var f1 := f.(accumulator := queued);
      assert f.accumulator + ((if rect.Some? then [rect.value] else []) + rest)
             == f.accumulator + ([rect.value] + rest);
      QueuedStaysCoherent(Shown(c), OpaqueImage(image), f.accumulator, rect.value, queued, rest, f.epoch);
      FlushKeeps(f1, c, image, ready, rest);
    }
  }

  lemma QueuedStaysCoherent(view: Option<Screen>, wanted: Image, accumulator: seq<Rect>, rect: Rect, queued: seq<Rect>,
                            rest: seq<Rect>, epoch: u64)
    requires Coherent(view, wanted, accumulator + ([rect] + rest), epoch)
    requires QueuedAs(queued, accumulator, rect)
    ensures Coherent(view, wanted, queued + rest, epoch)
  {
    hide AgreeOutside, Tight, AllTight;
    forall r | r in accumulator + ([rect] + rest) ensures Absorbed(r, queued + rest) {
      if r in rest {
        assert r.Within(r);
      } else {
        assert r in accumulator + [rect];
        var o :| o in queued && r.Within(o);
        assert o in queued + rest;
      }
    }
    AgreeWeaken(view.value.image, wanted, accumulator + ([rect] + rest), queued + rest);
  }
}
