// `ClientRdpFrameState` and the functions that update it in place
// (plugins/rdp/src/client_session.rs, plugins/rdp/src/frame.rs).

module ClientFrameState {
  import opened Wrappers
  import opened FixedWidth
  import opened DirtyRects
  import opened Pixels
  import opened Viewer
  import opened GraphicsChannel
  import opened EgfxPublication
  import opened FramePublication

  datatype RdpGraphicsSyncState = NeedsBase | Synced

  method OpaqueFrameBytes(bytes: seq<u8>) returns (opaqueBytes: seq<u8>)
    requires |bytes| % 4 == 0
    ensures opaqueBytes == Opaque(bytes)
  {
    var buffer := new u8[|bytes|](i requires 0 <= i < |bytes| => bytes[i]);
    assert buffer[..] == bytes;
    SetFrameAlphaOpaque(buffer);
    opaqueBytes := buffer[..];
  }

  lemma CropIsWholePixels(source: seq<u8>, sourceWidth: nat, region: Rect)
    requires Readable(source, sourceWidth, region.x, region.y, region.width, region.height)
    ensures |Crop(source, sourceWidth, region)| % 4 == 0
  {
  }

  /** One dirty rectangle of the image, row by row, with its alpha forced opaque. */
  method CopyImageRect(image: Image, rect: Rect) returns (bytes: seq<u8>)
    requires image.Valid() && rect.Within(image.Bounds())
    ensures OpaqueImage(image).Valid() && rect.Within(OpaqueImage(image).Bounds())
    ensures bytes == Delta(OpaqueImage(image), rect, 0, 0).bytes
  {
    RectReadable(image, rect);
    OpaqueCrop(image.bytes, image.width, rect);
    CropIsWholePixels(image.bytes, image.width, rect);
    hide CropByte, Readable;
    var rows := ExtractRgbaRegion(image.bytes, image.width, rect);
    bytes := OpaqueFrameBytes(rows);
  }

  method BaseFrameEvent(image: Image, epoch: u64, traceId: u64) returns (output: Output)
    requires image.Valid()
    ensures output == Frame(OpaqueImage(image), epoch, traceId)
  {
    var bytes := OpaqueFrameBytes(image.bytes);
    output := Frame(image.(bytes := bytes), epoch, traceId);
  }

  /** The event for the accumulated rectangles: one that covers the image makes it a whole frame. */
  method AccumulatedGraphicsEvent(image: Image, rects: seq<Rect>, epoch: u64, traceId: u64) returns (output: Output)
    requires image.Valid() && AllWithin(rects, image.Bounds())
    ensures OpaqueImage(image).Valid() && AllWithin(rects, OpaqueImage(image).Bounds())
    ensures output == if exists r | r in rects :: CoversFrame(r, image.width, image.height)
                      then Frame(OpaqueImage(image), epoch, traceId)
                      else DeltaOutput(Deltas(OpaqueImage(image), rects, epoch, traceId))
  {
    OpaqueValid(image);
    hide CropByte, Readable, Image.Valid;
    if exists r | r in rects :: CoversFrame(r, image.width, image.height) {
      output := BaseFrameEvent(image, epoch, traceId);
      return;
    }
    var updates := [];
    for i := 0 to |rects|
      invariant updates == Deltas(OpaqueImage(image), rects, epoch, traceId)[..i]
    {
      assert rects[i].Within(image.Bounds());
      var bytes := CopyImageRect(image, rects[i]);
      updates := updates + [Update(image.width, image.height, rects[i], bytes, epoch, traceId)];
    }
    output := if |updates| == 1 then FrameUpdate(updates[0]) else FrameUpdateBatch(updates);
  }

  class ClientRdpFrameState {
    var graphicsSync: RdpGraphicsSyncState
    var graphicsAccumulator: seq<Rect>
    var graphicsEpoch: u64
    var awaitingReactivation: bool
    var pendingBaseFrame: bool
    var pendingBaseFrameCanPublishReady: bool
    var publishedFirstDesktopFrame: bool
    var nextGraphicsTraceId: u64

    constructor (graphicsEpoch: u64)
      ensures State() == InitialFrame(graphicsEpoch)
      ensures graphicsSync == NeedsBase && graphicsAccumulator == [] && this.graphicsEpoch == graphicsEpoch
      ensures !awaitingReactivation && !pendingBaseFrame && !pendingBaseFrameCanPublishReady
      ensures !publishedFirstDesktopFrame && nextGraphicsTraceId == 0
    {
      graphicsSync, graphicsAccumulator := NeedsBase, [];
      this.graphicsEpoch := graphicsEpoch;
      awaitingReactivation, pendingBaseFrame, pendingBaseFrameCanPublishReady := false, false, false;
      publishedFirstDesktopFrame, nextGraphicsTraceId := false, 0;
    }

    ghost function State(): FrameState
      reads this
    {
      FrameState(graphicsSync == NeedsBase, graphicsAccumulator, graphicsEpoch, awaitingReactivation, pendingBaseFrame,
                 pendingBaseFrameCanPublishReady, publishedFirstDesktopFrame, nextGraphicsTraceId)
    }

    method BeginReactivationState() returns (epoch: Option<u64>)
      modifies this
      ensures var begun := BeginReactivation(old(State()));
              if begun.None? then epoch == None && State() == old(State())
              else epoch == Some(begun.value.epoch) && State() == begun.value
    {
      if awaitingReactivation {
        return None;
      }
      graphicsEpoch := Max(SaturatingAdd64(graphicsEpoch, 1), 1);
      awaitingReactivation := true;
      graphicsSync := NeedsBase;
      graphicsAccumulator := [];
      pendingBaseFrame, pendingBaseFrameCanPublishReady := false, false;
      epoch := Some(graphicsEpoch);
    }

    method FinishReactivationState()
      modifies this
      ensures State() == FinishReactivation(old(State()))
    {
      awaitingReactivation := false;
      graphicsSync := NeedsBase;
      graphicsAccumulator := [];
      pendingBaseFrame, pendingBaseFrameCanPublishReady := false, false;
    }

    method SendBaseFrame(output: ClientRdpOutputChannel, image: Image, publishReady: bool) returns (ok: bool)
      requires image.Valid()
      modifies this, output
      ensures (State(), output.State(), ok) == SendBase(old(State()), old(output.State()), image, publishReady)
    {
      hide Image.Valid, Opaque;
      if awaitingReactivation {
        graphicsSync := NeedsBase;
        return true;
      }
      nextGraphicsTraceId := NextTraceId(nextGraphicsTraceId);
      graphicsAccumulator := [];
      var event := BaseFrameEvent(image, graphicsEpoch, nextGraphicsTraceId);
      var sent := output.TrySendGraphics(event);
      if sent != Disconnected {
        pendingBaseFrame := sent == Full;
        pendingBaseFrameCanPublishReady := sent == Full && (pendingBaseFrameCanPublishReady || publishReady);
        graphicsSync := if sent == Full then NeedsBase else Synced;
      }
      if sent == Sent && publishReady && !publishedFirstDesktopFrame {
        publishedFirstDesktopFrame := output.SendReadyEvents(image.width, image.height);
        return publishedFirstDesktopFrame;
      }
      ok := sent != Disconnected;
    }

    method SendGraphicsEvent(output: ClientRdpOutputChannel, event: Output) returns (ok: bool)
      modifies this, output
      ensures (State(), output.State(), ok) == SendEvent(old(State()), old(output.State()), event)
    {
      if awaitingReactivation {
        graphicsSync := NeedsBase;
        return true;
      }
      if event.Frame? {
        var sent := output.TrySendGraphics(event);
        if sent != Disconnected {
          pendingBaseFrame := sent == Full;
          pendingBaseFrameCanPublishReady := sent == Full && pendingBaseFrameCanPublishReady;
          graphicsSync := if sent == Full then NeedsBase else Synced;
        }
        return sent != Disconnected;
      }
      if pendingBaseFrame || graphicsSync == NeedsBase {
        graphicsSync := NeedsBase;
        return true;
      }
      var sent := output.TrySendGraphics(event);
      if sent == Full {
        // The delta chain is broken: only a complete frame is safe now.
        pendingBaseFrame := true;
        graphicsSync := NeedsBase;
      }
      ok := sent != Disconnected;
    }

    method FlushGraphicsUpdates(output: ClientRdpOutputChannel, image: Image, ready: bool) returns (ok: bool)
      requires FrameWellFormed(State(), image)
      modifies this, output
      ensures (State(), output.State(), ok) == Flush(old(State()), old(output.State()), image, ready)
    {
      hide SendBase, SendDelta, Deltas, Image.Valid, AllWithin, CoversFrame, OpaqueImage;
      if awaitingReactivation {
        return true;
      }
      if !ready || graphicsAccumulator == [] {
        return true;
      }
      var rects := graphicsAccumulator;
      graphicsAccumulator := [];
      if pendingBaseFrame || graphicsSync == NeedsBase
        || exists r | r in rects :: CoversFrame(r, image.width, image.height) {
        ok := SendBaseFrame(output, image, true);
        return;
      }
      nextGraphicsTraceId := NextTraceId(nextGraphicsTraceId);
      var event := AccumulatedGraphicsEvent(image, rects, graphicsEpoch, nextGraphicsTraceId);
      ok := SendGraphicsEvent(output, event);
    }

    method FlushPendingBaseFrame(output: ClientRdpOutputChannel, image: Image) returns (ok: bool)
      requires image.Valid()
      modifies this, output
      ensures (State(), output.State(), ok) == FlushPendingBase(old(State()), old(output.State()), image)
    {
      hide SendBase, Image.Valid;
      if awaitingReactivation || !pendingBaseFrame {
        return true;
      }
      ok := SendBaseFrame(output, image, pendingBaseFrameCanPublishReady);
    }

    method SendGraphicsUpdate(output: ClientRdpOutputChannel, image: Image, region: InclusiveRectangle, ready: bool)
      returns (ok: bool, ghost queued: seq<Rect>)
      requires FrameWellFormed(State(), image)
      modifies this, output
      ensures Accumulates(old(State()), image, region) ==>
                QueuedAs(queued, old(State()).accumulator,
                  UpdateRect(image.width, image.height, region, old(State()).needsBase).value)
      ensures (State(), output.State(), ok)
              == SendUpdate(old(State()), old(output.State()), image, region, queued, ready)
    {
      hide SendBase, Flush, Image.Valid, CoversFrame, ShouldPromote, Tight, Absorbed, CoversAll, AllTight;
      var rect := UpdateRect(image.width, image.height, region, graphicsSync == NeedsBase);
      queued := [];
      if awaitingReactivation {
        return true, queued;
      }
      if rect.None? {
        return true, queued;
      }
      if graphicsSync == NeedsBase || CoversFrame(rect.value, image.width, image.height) {
        ok := SendBaseFrame(output, image, true);
        return;
      }
      WithinFits(graphicsAccumulator + [rect.value], image);
      var merged := QueueBoundedDirtyRect(graphicsAccumulator, rect.value, MAX_DIRTY_RECTS);
      queued := merged;
      QueuedWellFormed(State(), image, rect.value, queued);
      graphicsAccumulator := merged;
      if ShouldPromote(graphicsAccumulator, image.width, image.height) {
        graphicsAccumulator := [];
        ok := SendBaseFrame(output, image, true);
        return;
      }
      ok := FlushGraphicsUpdates(output, image, ready);
    }
  }
}
