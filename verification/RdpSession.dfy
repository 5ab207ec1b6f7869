// The active RDP session (plugins/rdp/src/client_session.rs, plugins/rdp/src/runtime.rs):
// both graphics producers over one channel, deactivation and reactivation, and epochs
// across reconnects.

/** Epoch order in a log of everything enqueued. */
module Epochs {
  import opened FixedWidth
  import opened Viewer
  import opened GraphicsChannel

  ghost predicate OutputInEpoch(o: Output, epoch: u64) {
    match o
    case Frame(_, e, _) => e == epoch
    case FrameUpdate(u) => u.epoch == epoch
    case FrameUpdateBatch(us) => forall u | u in us :: u.epoch == epoch
    case Cursor => true
  }

  predicate IsReset(e: Emission) {
    e.ToControl? && e.control.FrameStreamReset?
  }

  /** The epoch announced by the last reset, or the one the session started in. */
  function CurrentEpoch(log: seq<Emission>, start: u64): u64 {
    if log == [] then start
    else if IsReset(log[|log| - 1]) then log[|log| - 1].control.epoch
    else CurrentEpoch(log[..|log| - 1], start)
  }

  /** Epochs grow until the counter saturates. */
  predicate Advances(before: u64, after: u64) {
    after > before || (before == U64_MAX && after == U64_MAX)
  }

  ghost predicate InOrder(e: Emission, current: u64) {
    match e
    case ToGraphics(o) => OutputInEpoch(o, current)
    case ToControl(FrameStreamReset(r)) => Advances(current, r)
    case ToControl(_) => true
  }

  /** Every picture carries the epoch in force when it was enqueued, and every reset announces a later one. */
  ghost predicate LogInOrder(log: seq<Emission>, start: u64) {
    forall i | 0 <= i < |log| :: InOrder(log[i], CurrentEpoch(log[..i], start))
  }

  lemma LogInOrderExtend(log: seq<Emission>, start: u64, e: Emission)
    requires LogInOrder(log, start) && InOrder(e, CurrentEpoch(log, start))
    ensures LogInOrder(log + [e], start)
    ensures CurrentEpoch(log + [e], start) == if IsReset(e) then e.control.epoch else CurrentEpoch(log, start)
  {
    var more := log + [e];
    assert more[..|more| - 1] == log;
    forall i | 0 <= i < |more| ensures InOrder(more[i], CurrentEpoch(more[..i], start)) {
      if i < |log| {
        assert more[..i] == log[..i];
      }
    }
  }

  /** Between two resets of an ordered log the announced epochs strictly increase, short of saturation. */
  lemma {:induction false} ResetsIncrease(log: seq<Emission>, start: u64, i: nat, j: nat)
    requires LogInOrder(log, start) && i < j < |log| && IsReset(log[i]) && IsReset(log[j])
    requires log[i].control.epoch < U64_MAX
    ensures log[i].control.epoch < log[j].control.epoch
  {
    EpochNeverFalls(log, start, i + 1, j);
    assert log[..i + 1][..i] == log[..i];
    assert InOrder(log[j], CurrentEpoch(log[..j], start));
  }

  lemma {:induction false} EpochNeverFalls(log: seq<Emission>, start: u64, i: nat, j: nat)
    requires LogInOrder(log, start) && i <= j <= |log|
    ensures CurrentEpoch(log[..i], start) <= CurrentEpoch(log[..j], start)
    decreases j
  {
    if i < j {
      EpochNeverFalls(log, start, i, j - 1);
      assert log[..j][..j - 1] == log[..j - 1];
      assert InOrder(log[j - 1], CurrentEpoch(log[..j - 1], start));
    }
  }

  /** A picture enqueued after a reset and before the next one carries exactly the reset's epoch. */
  lemma {:induction false} PicturesMatchReset(log: seq<Emission>, start: u64, reset: nat, picture: nat)
    requires LogInOrder(log, start) && reset < picture < |log|
    requires IsReset(log[reset]) && log[picture].ToGraphics?
    requires forall k | reset < k < picture :: !IsReset(log[k])
    ensures OutputInEpoch(log[picture].output, log[reset].control.epoch)
  {
    LastReset(log, start, reset, picture);
    assert InOrder(log[picture], CurrentEpoch(log[..picture], start));
  }

  lemma {:induction false} LastReset(log: seq<Emission>, start: u64, reset: nat, at: nat)
    requires reset < at <= |log| && IsReset(log[reset])
    requires forall k | reset < k < at :: !IsReset(log[k])
    ensures CurrentEpoch(log[..at], start) == log[reset].control.epoch
    decreases at
  {
    assert log[..at][..at - 1] == log[..at - 1];
    if reset + 1 < at {
      LastReset(log, start, reset, at - 1);
    }
  }

  // ----- what one step may enqueue -----

  /** Between these two moments no picture was enqueued. */
  ghost predicate NoPicture(c: Channel, d: Channel) {
    && |c.log| <= |d.log| && d.log[..|c.log|] == c.log
    && forall i | |c.log| <= i < |d.log| :: d.log[i].ToGraphics? ==> d.log[i].output.Cursor?
  }

  /**
   * A step only sent: no reset, only pictures of `epoch`, and no picture at all when muted. Nothing but a picture
   * changes what will be shown.
   */
  ghost predicate Emits(c: Channel, d: Channel, epoch: u64, muted: bool) {
    && d == c.(queue := d.queue, log := d.log)
    && |c.log| <= |d.log| && d.log[..|c.log|] == c.log
    && (forall i | |c.log| <= i < |d.log| :: Ordinary(d.log[i], epoch, muted))
    && (NoPicture(c, d) ==> Shown(d) == Shown(c))
  }

  ghost predicate Ordinary(e: Emission, epoch: u64, muted: bool) {
    match e
    case ToGraphics(o) => o.Cursor? || (!muted && OutputInEpoch(o, epoch))
    case ToControl(control) => !control.FrameStreamReset?
  }

  lemma EmitsTrans(a: Channel, b: Channel, c: Channel, epoch: u64, muted: bool)
    requires Emits(a, b, epoch, muted) && Emits(b, c, epoch, muted)
    ensures Emits(a, c, epoch, muted)
  {
    forall i | |a.log| <= i < |c.log| ensures Ordinary(c.log[i], epoch, muted) {
      if i < |b.log| {
        assert c.log[i] == c.log[..|b.log|][i] == b.log[i];
      }
    }
    assert c.log[..|a.log|] == c.log[..|b.log|][..|a.log|];
    if NoPicture(a, c) {
      NoPictureSplits(a, b, c);
    }
  }

  lemma NoPictureSplits(a: Channel, b: Channel, c: Channel)
    requires |a.log| <= |b.log| <= |c.log| && b.log[..|a.log|] == a.log && c.log[..|b.log|] == b.log
    requires NoPicture(a, c)
    ensures NoPicture(a, b) && NoPicture(b, c)
  {
    forall i | |a.log| <= i < |b.log| ensures b.log[i].ToGraphics? ==> b.log[i].output.Cursor? {
      assert c.log[i] == c.log[..|b.log|][i];
    }
  }

  lemma OrdinaryInOrder(e: Emission, epoch: u64, muted: bool)
    requires Ordinary(e, epoch, muted)
    ensures InOrder(e, epoch) && !IsReset(e)
  {
  }

  lemma {:induction false} OrdinaryKeepsOrder(log: seq<Emission>, more: seq<Emission>, start: u64, muted: bool)
    requires LogInOrder(log, start) && |log| <= |more| && more[..|log|] == log
    requires forall i | |log| <= i < |more| :: Ordinary(more[i], CurrentEpoch(log, start), muted)
    ensures LogInOrder(more, start) && CurrentEpoch(more, start) == CurrentEpoch(log, start)
    decreases |more|
  {
    hide InOrder, LogInOrder, Ordinary, IsReset;
    if |more| == |log| {
      assert more == log;
    } else {
      var shorter := more[..|more| - 1];
      assert shorter[..|log|] == log;
      OrdinaryKeepsOrder(log, shorter, start, muted);
      OrdinaryInOrder(more[|more| - 1], CurrentEpoch(log, start), muted);
      LogInOrderExtend(shorter, start, more[|more| - 1]);
      assert shorter + [more[|more| - 1]] == more;
    }
  }

  lemma SendEmits(c: Channel, o: Output, epoch: u64, muted: bool)
    requires o.Cursor? || (!muted && OutputInEpoch(o, epoch))
    ensures Emits(c, TrySend(c, o).0, epoch, muted)
  {
    hide Replay, OutputInEpoch;
    var d := TrySend(c, o).0;
    if TrySend(c, o).1 == Sent {
      SentIsShown(c, o);
      assert d.log[|c.log|] == ToGraphics(o);
    }
  }

  lemma ControlEmits(c: Channel, control: Control, epoch: u64, muted: bool)
    requires !control.FrameStreamReset?
    ensures Emits(c, SendControl(c, control).0, epoch, muted)
  {
  }
}

module RdpSession {
  import opened Wrappers
  import opened FixedWidth
  import opened DirtyRects
  import opened Pixels
  import opened Viewer
  import opened GraphicsChannel
  import opened EgfxPublication
  import opened FramePublication
  import opened Epochs

  // ----- what each publication step enqueues -----

  lemma DeltasInEpoch(wanted: Image, rects: seq<Rect>, epoch: u64, traceId: u64)
    requires wanted.Valid() && AllWithin(rects, wanted.Bounds()) && rects != []
    ensures OutputInEpoch(DeltaOutput(Deltas(wanted, rects, epoch, traceId)), epoch)
  {
    hide Image.Valid, AllWithin;
    var updates := Deltas(wanted, rects, epoch, traceId);
    forall u | u in updates ensures u.epoch == epoch {
      var i :| 0 <= i < |updates| && updates[i] == u;
    }
  }

  lemma PublishBaseFrameEmits(p: Publisher, c: Channel, publishReady: bool)
    requires WellFormed(p)
    ensures var (q, d, ok) := PublishBaseFrame(p, c, publishReady);
            WellFormed(q) && q.epoch == p.epoch && q.awaiting == p.awaiting && Emits(c, d, p.epoch, p.awaiting)
            && (p.needsBase && p.awaiting ==> q.needsBase)
  {
    if !p.awaiting && p.desktop.Some? {
      var frame := Frame(p.desktop.value, p.epoch, NextTraceId(p.traceId));
      SendEmits(c, frame, p.epoch, false);
      var c1 := TrySend(c, frame).0;
      var c2 := SendControl(c1, Connected(p.desktop.value.width, p.desktop.value.height)).0;
      ControlEmits(c1, Connected(p.desktop.value.width, p.desktop.value.height), p.epoch, false);
      ControlEmits(c2, ConnectedStatus, p.epoch, false);
      EmitsTrans(c, c1, c2, p.epoch, false);
      EmitsTrans(c, c2, SendControl(c2, ConnectedStatus).0, p.epoch, false);
    }
  }

  lemma OnFrameCompleteEmits(p: Publisher, c: Channel)
    requires WellFormed(p)
    ensures var (q, d) := OnFrameComplete(p, c);
            WellFormed(q) && q.epoch == p.epoch && q.awaiting == p.awaiting && Emits(c, d, p.epoch, p.awaiting)
  {
    hide Image.Valid, PublishBaseFrame, Deltas, PromotesToBase, Emits;
    EmitsNothing(c, p.epoch, p.awaiting);
    if !p.failed {
      var (q, d, ok) := PublishCompletedFrame(p, c);
      if !p.awaiting && p.dirty != [] && p.desktop.Some? {
        var desktop := p.desktop.value;
        if p.needsBase || PromotesToBase(p.dirty, desktop.width, desktop.height) {
          PublishBaseFrameEmits(p.(dirty := []), c, true);
        } else {
          DeltasInEpoch(desktop, p.dirty, p.epoch, NextTraceId(p.traceId));
          SendEmits(c, DeltaOutput(Deltas(desktop, p.dirty, p.epoch, NextTraceId(p.traceId))), p.epoch, false);
        }
      }
      ControlEmits(d, ProtocolFailure, p.epoch, p.awaiting);
      EmitsTrans(c, d, Fail(q, d).1, p.epoch, p.awaiting);
    }
  }

  lemma EmitsNothing(c: Channel, epoch: u64, muted: bool)
    ensures Emits(c, c, epoch, muted)
  {
  }

  lemma SendBaseEmits(f: FrameState, c: Channel, image: Image, publishReady: bool)
    requires FrameWellFormed(f, image) || (image.Valid() && !f.awaiting)
    ensures var (g, d, ok) := SendBase(f, c, image, publishReady);
            && g.epoch == f.epoch && g.awaiting == f.awaiting && Emits(c, d, f.epoch, f.awaiting)
            && (ok ==> FrameWellFormed(g, image))
  {
    if !f.awaiting {
      var base := Frame(OpaqueImage(image), f.epoch, NextTraceId(f.traceId));
      SendEmits(c, base, f.epoch, false);
      var c1 := TrySend(c, base).0;
      var c2 := SendControl(c1, Connected(image.width, image.height)).0;
      ControlEmits(c1, Connected(image.width, image.height), f.epoch, false);
      ControlEmits(c2, ConnectedStatus, f.epoch, false);
      EmitsTrans(c, c1, c2, f.epoch, false);
      EmitsTrans(c, c2, SendControl(c2, ConnectedStatus).0, f.epoch, false);
    }
  }

  lemma FlushEmits(f: FrameState, c: Channel, image: Image, ready: bool)
    requires FrameWellFormed(f, image)
    ensures var (g, d, ok) := Flush(f, c, image, ready);
            && g.epoch == f.epoch && g.awaiting == f.awaiting && Emits(c, d, f.epoch, f.awaiting)
            && (ok ==> FrameWellFormed(g, image))
  {
    hide Image.Valid, SendBase, Deltas, Emits, CoversFrame;
    EmitsNothing(c, f.epoch, f.awaiting);
    if !f.awaiting && ready && f.accumulator != [] {
      if exists r | r in f.accumulator :: CoversFrame(r, image.width, image.height) {
        SendBaseEmits(f.(accumulator := []), c, image, true);
      } else if f.needsBase {
        SendBaseEmits(f.(accumulator := []), c, image, true);
      } else {
        OpaqueValid(image);
        DeltasInEpoch(OpaqueImage(image), f.accumulator, f.epoch, NextTraceId(f.traceId));
        SendEmits(c, DeltaOutput(Deltas(OpaqueImage(image), f.accumulator, f.epoch, NextTraceId(f.traceId))), f.epoch,
          false);
      }
    }
  }

  lemma SendUpdateEmits(f: FrameState, c: Channel, image: Image, region: InclusiveRectangle, queued: seq<Rect>,
                        ready: bool)
    requires FrameWellFormed(f, image)
    requires Accumulates(f, image, region) ==>
               QueuedAs(queued, f.accumulator, UpdateRect(image.width, image.height, region, f.needsBase).value)
    ensures var (g, d, ok) := SendUpdate(f, c, image, region, queued, ready);
            && g.epoch == f.epoch && g.awaiting == f.awaiting && Emits(c, d, f.epoch, f.awaiting)
            && (ok ==> FrameWellFormed(g, image))
  {
    hide Image.Valid, SendBase, Flush, Emits, CoversFrame, ShouldPromote, QueuedAs;
    EmitsNothing(c, f.epoch, f.awaiting);
    var rect := UpdateRect(image.width, image.height, region, f.needsBase);
    if !f.awaiting && rect.Some? {
      if f.needsBase || CoversFrame(rect.value, image.width, image.height) {
        SendBaseEmits(f, c, image, true);
      } else if ShouldPromote(queued, image.width, image.height) {
        SendBaseEmits(f.(accumulator := []), c, image, true);
      } else {
        QueuedWellFormed(f, image, rect.value, queued);
        FlushEmits(f.(accumulator := queued), c, image, ready);
      }
    }
  }

  // ----- the session as a state machine -----

  datatype StageOutput = GraphicsUpdate(region: InclusiveRectangle) | DeactivateAll | Pointer

  /** `reactivation` is Some(negotiated) while a deactivation-reactivation exchange is under way. */
  datatype Session = Session(
    frame: FrameState, image: Image, outputs: seq<StageOutput>, egfx: Option<Publisher>, channel: Channel,
    reactivation: Option<bool>, latestEpoch: u64, ended: bool)

  datatype Event =
    | ServerFrame(image: Image, outputs: seq<StageOutput>)
    | HandleOutput(queued: seq<Rect>, ready: bool)
    | Negotiated
    | ReactivationFinished
    | FlushBase
    | FlushGraphics(ready: bool)
    | RequestFrame
    | Egfx(event: EgfxPublication.Event)
    | Receive
    | ReceiverGone

  /** The in-bounds regions still waiting to be handled. */
  ghost function Regions(image: Image, outputs: seq<StageOutput>): seq<Rect> {
    if outputs == [] then []
    else
      var rest := Regions(image, outputs[1..]);
      if outputs[0].GraphicsUpdate? && NormalizedRect(image.width, image.height, outputs[0].region).Some?
      then [NormalizedRect(image.width, image.height, outputs[0].region).value] + rest
      else rest
  }

  /** Some reported region, corners included, lies inside the image and has this pixel. */
  ghost predicate Reported(image: Image, outputs: seq<StageOutput>, px: int, py: int) {
    exists o | o in outputs ::
      && o.GraphicsUpdate? && o.region.right < image.width && o.region.bottom < image.height
      && o.region.left <= px <= o.region.right && o.region.top <= py <= o.region.bottom
  }

  ghost predicate ChangedAsReported(before: Image, after: Image, outputs: seq<StageOutput>) {
    && before.Valid() && after.Valid() && before.width == after.width && before.height == after.height
    && forall k | 0 <= k < |after.bytes| ::
         || Reported(after, outputs, ColumnOf(after.width, k), RowOf(after.width, k))
         || before.bytes[k] == after.bytes[k]
  }

  /** The rectangles this client keeps of the reported regions have exactly the reported pixels. */
  lemma {:induction false} RegionsAreReported(image: Image, outputs: seq<StageOutput>, px: int, py: int)
    ensures Covered(Regions(image, outputs), px, py) <==> Reported(image, outputs, px, py)
    decreases |outputs|
  {
    if outputs != [] {
      RegionsAreReported(image, outputs[1..], px, py);
      assert outputs == [outputs[0]] + outputs[1..];
      if outputs[0].GraphicsUpdate? {
        var rect := NormalizedRect(image.width, image.height, outputs[0].region);
        assert rect.Some? ==> (rect.value.Contains(px, py) <==> outputs[0].region.Includes(px, py));
      }
    }
  }

  lemma ChangedInRegions(before: Image, after: Image, outputs: seq<StageOutput>)
    requires ChangedAsReported(before, after, outputs)
    ensures ChangedOnlyIn(before, after, Regions(after, outputs))
  {
    hide Regions, Reported, Covered, ColumnOf, RowOf;
    forall k | 0 <= k < |after.bytes|
      ensures Covered(Regions(after, outputs), ColumnOf(after.width, k), RowOf(after.width, k))
              || before.bytes[k] == after.bytes[k]
    {
      RegionsAreReported(after, outputs, ColumnOf(after.width, k), RowOf(after.width, k));
    }
  }

  /** The renderer's own callbacks; reactivation reaches it only through the session. */
  ghost predicate RendererEvent(e: EgfxPublication.Event) {
    e.FrameComplete? || e.Composite? || e.Reset? || e.HandlerError?
  }

  ghost predicate Enabled(s: Session, e: Event) {
    match e
    case ServerFrame(image, outputs) =>
      && s.outputs == [] && image.Valid()
      // Outside a reactivation the decoder changes pixels only inside in-bounds regions that it reports.
      && (s.reactivation.None? ==> ChangedAsReported(s.image, image, outputs))
    case HandleOutput(queued, _) =>
      && s.outputs != []
      && (s.outputs[0].GraphicsUpdate? && Accumulates(s.frame, s.image, s.outputs[0].region) ==>
            QueuedAs(queued, s.frame.accumulator,
              UpdateRect(s.image.width, s.image.height, s.outputs[0].region, s.frame.needsBase).value))
    case Negotiated => s.reactivation == Some(false)
    case ReactivationFinished => s.reactivation.Some?
    case Egfx(event) =>
      s.egfx.Some? && RendererEvent(event)
        && EgfxPublication.Enabled(EgfxPublication.State(s.egfx.value, s.channel), event)
    case _ => true
  }

  ghost function FromFrame(s: Session, r: (FrameState, Channel, bool)): Session {
    s.(frame := r.0, channel := r.1, ended := !r.2)
  }

  /** `begin_rdp_frame_transition`, for the DeactivateAll output. */
  ghost function Deactivate(s: Session): Session {
    var frame := if s.reactivation == Some(true) then FinishReactivation(s.frame) else s.frame;
    var begun := BeginReactivation(frame);
    if begun.None? then s.(frame := frame, latestEpoch := frame.epoch, reactivation := Some(false))
    else
      var epoch := begun.value.epoch;
      var egfx := if s.egfx.Some? then Some(BeginFrameTransition(s.egfx.value, epoch)) else None;
      var (channel, ok) := SendControl(s.channel, FrameStreamReset(epoch));
      if ok then
        s.(frame := begun.value, egfx := egfx, channel := channel, latestEpoch := epoch, reactivation := Some(false))
      else s.(frame := begun.value, egfx := egfx, channel := channel, ended := true)
  }

  ghost function Handle(s: Session, output: StageOutput, queued: seq<Rect>, ready: bool): Session
    requires FrameWellFormed(s.frame, s.image)
    requires output.GraphicsUpdate? && Accumulates(s.frame, s.image, output.region) ==>
               QueuedAs(queued, s.frame.accumulator,
                 UpdateRect(s.image.width, s.image.height, output.region, s.frame.needsBase).value)
  {
    match output
    case GraphicsUpdate(region) => FromFrame(s, SendUpdate(s.frame, s.channel, s.image, region, queued, ready))
    case DeactivateAll => Deactivate(s)
    case Pointer =>
      var (channel, sent) := TrySend(s.channel, Cursor);
      s.(channel := channel, ended := sent == Disconnected)
  }

  ghost function HandleRequestFrame(s: Session): Session {
    if s.egfx.None? then FromFrame(s, SendBase(s.frame, s.channel, s.image, false))
    else
      var (egfx, channel, handled) := RequestBaseFrame(s.egfx.value, s.channel);
      var t := s.(egfx := Some(egfx), channel := channel);
      match handled
      case None => t.(ended := true)
      case Some(true) => t
      case Some(false) => FromFrame(t, SendBase(t.frame, t.channel, t.image, false))
  }

  ghost predicate SessionWellFormed(s: Session) {
    && (!s.ended ==> FrameWellFormed(s.frame, s.image))
    && (s.egfx.Some? ==> WellFormed(s.egfx.value))
    && (!s.ended ==> (s.frame.awaiting <==> s.reactivation.Some?))
  }

  /** One event of a session that has not ended. */
  ghost function ActiveStep(s: Session, e: Event): Session
    requires SessionWellFormed(s) && Enabled(s, e) && !s.ended
  {
    match e
    case ServerFrame(image, outputs) => s.(image := image, outputs := outputs)
    case HandleOutput(queued, ready) => Handle(s, s.outputs[0], queued, ready).(outputs := s.outputs[1..])
    case Negotiated =>
      s.(reactivation := Some(true),
         egfx := if s.egfx.Some? then Some(PrepareForReactivation(s.egfx.value, s.frame.epoch)) else None)
    case ReactivationFinished => s.(reactivation := None, frame := FinishReactivation(s.frame))
    case FlushBase => FromFrame(s, FlushPendingBase(s.frame, s.channel, s.image))
    case FlushGraphics(ready) => FromFrame(s, Flush(s.frame, s.channel, s.image, ready))
    case RequestFrame => HandleRequestFrame(s)
    case Egfx(event) =>
      var t := EgfxPublication.Step(EgfxPublication.State(s.egfx.value, s.channel), event);
      s.(egfx := Some(t.publisher), channel := t.channel)
    case Receive => s.(channel := TryRecv(s.channel).0)
    case ReceiverGone => s.(channel := DropReceiver(s.channel))
  }

  /** The receiving side goes on after the session has ended. */
  ghost function Step(s: Session, e: Event): Session
    requires SessionWellFormed(s) && Enabled(s, e)
  {
    if !s.ended then ActiveStep(s, e)
    else if e.Receive? then s.(channel := TryRecv(s.channel).0)
    else if e.ReceiverGone? then s.(channel := DropReceiver(s.channel))
    else s
  }

  ghost function StartSession(epoch: u64, image: Image, withEgfx: bool, capacity: nat): Session {
    Session(InitialFrame(epoch), image, [], if withEgfx then Some(Initial.(epoch := epoch)) else None,
            Channel([], capacity, true, true, None, []), None, epoch, false)
  }

  // ----- epochs -----

  /** The log is in order, the session knows the announced epoch, and both producers use it. */
  ghost predicate EpochInv(s: Session, start: u64) {
    && SessionWellFormed(s)
    && LogInOrder(s.channel.log, start)
    && s.latestEpoch == CurrentEpoch(s.channel.log, start)
    && (!s.ended ==> s.frame.epoch == s.latestEpoch && (s.egfx.Some? ==> s.egfx.value.epoch == s.frame.epoch))
  }

  lemma EmitsKeepsOrder(c: Channel, d: Channel, start: u64, muted: bool)
    requires LogInOrder(c.log, start) && Emits(c, d, CurrentEpoch(c.log, start), muted)
    ensures LogInOrder(d.log, start) && CurrentEpoch(d.log, start) == CurrentEpoch(c.log, start)
  {
    OrdinaryKeepsOrder(c.log, d.log, start, muted);
  }

  lemma DeactivateKeepsEpochs(s: Session, start: u64)
    requires EpochInv(s, start) && !s.ended
    ensures EpochInv(Deactivate(s), start)
    ensures !Deactivate(s).ended ==> Deactivate(s).frame.awaiting
  {
    hide LogInOrder, CurrentEpoch, Image.Valid, WellFormed;
    DeactivatedRenderer(s);
    var frame := if s.reactivation == Some(true) then FinishReactivation(s.frame) else s.frame;
    if !frame.awaiting {
      var epoch := Max(SaturatingAdd64(frame.epoch, 1), 1);
      LogInOrderExtend(s.channel.log, start, ToControl(FrameStreamReset(epoch)));
    }
  }

  /**
   * A deactivation outside a reactivation announces a later epoch, and both producers stop in it: they owe base frames
   * and may send none before the reactivation. One that comes before the capabilities are negotiated again changes
   * nothing.
   */
  lemma DeactivationAnnounced(s: Session)
    requires SessionWellFormed(s) && !s.ended && s.channel.controlOpen
    ensures var t := Deactivate(s);
            && !t.ended && t.reactivation == Some(false) && t.frame.awaiting && t.frame.needsBase
            && t.latestEpoch == t.frame.epoch
            && (s.reactivation == Some(false) ==> t.frame == s.frame && t.egfx == s.egfx && t.channel == s.channel)
            && (s.reactivation != Some(false) ==>
                  && t.channel == s.channel.(log := s.channel.log + [ToControl(FrameStreamReset(t.frame.epoch))])
                  && t.frame.epoch == Min(s.frame.epoch + 1, U64_MAX)
                  && (t.egfx.Some? <==> s.egfx.Some?)
                  && !t.frame.pendingBase && !t.frame.pendingBaseReady && t.frame.accumulator == []
                  && (t.egfx.Some? ==>
                        && t.egfx.value.epoch == t.frame.epoch && t.egfx.value.awaiting && t.egfx.value.needsBase
                        && t.egfx.value.dirty == []))
  {
    hide Image.Valid, WellFormed, AllWithin;
    if s.reactivation.Some? {
      assert s.reactivation == Some(s.reactivation.value) && s.frame.awaiting;
      assert s.reactivation.value ==> !FinishReactivation(s.frame).awaiting;
    } else {
      assert !s.frame.awaiting;
    }
  }

  /** A deactivation that cannot be announced ends the session, with both producers stopped. */
  lemma UnannouncedDeactivationEnds(s: Session)
    requires SessionWellFormed(s) && !s.ended && !s.channel.controlOpen && s.reactivation.None?
    ensures var t := Deactivate(s);
            t.ended && t.channel == s.channel && t.frame.awaiting && (t.egfx.Some? ==> t.egfx.value.awaiting)
  {
    hide Image.Valid, WellFormed, AllWithin;
  }

  /**
   * Negotiating again discards the renderer's desktop and lets it publish in the announced epoch; finishing lets the
   * bitmap path send, and both begin with a base frame.
   */
  lemma ReactivationResumes(s: Session)
    requires SessionWellFormed(s) && !s.ended && s.reactivation == Some(false)
    ensures var negotiated := ActiveStep(s, Negotiated);
            && negotiated.reactivation == Some(true) && negotiated.frame == s.frame
            && (negotiated.egfx.Some? <==> s.egfx.Some?)
            && (s.egfx.Some? ==>
                  var p := negotiated.egfx.value;
                  p.desktop.None? && p.dirty == [] && p.needsBase && !p.awaiting && p.epoch == s.frame.epoch)
            && var finished := ActiveStep(s, ReactivationFinished);
            && finished.reactivation.None? && finished.egfx == s.egfx
            && finished.frame == s.frame.(awaiting := false, needsBase := true, accumulator := [], pendingBase := false,
                                          pendingBaseReady := false)
  {
    hide Image.Valid, WellFormed, AllWithin;
  }

  lemma DeactivatedRenderer(s: Session)
    requires SessionWellFormed(s)
    ensures Deactivate(s).egfx.Some? ==> WellFormed(Deactivate(s).egfx.value)
  {
  }

  lemma HandleKeepsEpochs(s: Session, output: StageOutput, queued: seq<Rect>, ready: bool, start: u64)
    requires EpochInv(s, start) && !s.ended
    requires output.GraphicsUpdate? && Accumulates(s.frame, s.image, output.region) ==>
               QueuedAs(queued, s.frame.accumulator,
                 UpdateRect(s.image.width, s.image.height, output.region, s.frame.needsBase).value)
    ensures EpochInv(Handle(s, output, queued, ready), start)
  {
    hide LogInOrder, Emits, SendUpdate, Deactivate, FrameWellFormed, WellFormed;
    match output
    case GraphicsUpdate(region) =>
      SendUpdateEmits(s.frame, s.channel, s.image, region, queued, ready);
      EmitsKeepsOrder(s.channel, SendUpdate(s.frame, s.channel, s.image, region, queued, ready).1, start,
        s.frame.awaiting);
    case DeactivateAll => DeactivateKeepsEpochs(s, start);
    case Pointer =>
      SendEmits(s.channel, Cursor, s.latestEpoch, true);
      EmitsKeepsOrder(s.channel, TrySend(s.channel, Cursor).0, start, true);
  }

  lemma RequestKeepsEpochs(s: Session, start: u64)
    requires EpochInv(s, start) && !s.ended
    ensures EpochInv(HandleRequestFrame(s), start)
  {
    hide LogInOrder, Emits, SendBase, FrameWellFormed, WellFormed, PublishBaseFrame;
    var t := s;
    if s.egfx.Some? {
      PublishBaseFrameEmits(s.egfx.value, s.channel, false);
      EmitsNothing(s.channel, s.latestEpoch, s.egfx.value.awaiting);
      var (egfx, channel, handled) := RequestBaseFrame(s.egfx.value, s.channel);
      EmitsKeepsOrder(s.channel, channel, start, s.egfx.value.awaiting);
      t := s.(egfx := Some(egfx), channel := channel);
    }
    SendBaseEmits(t.frame, t.channel, t.image, false);
    EmitsKeepsOrder(t.channel, SendBase(t.frame, t.channel, t.image, false).1, start, t.frame.awaiting);
  }

  lemma RendererEmits(p: Publisher, c: Channel, event: EgfxPublication.Event)
    requires WellFormed(p) && RendererEvent(event) && EgfxPublication.Enabled(EgfxPublication.State(p, c), event)
    ensures var t := EgfxPublication.Step(EgfxPublication.State(p, c), event);
            && WellFormed(t.publisher) && t.publisher.epoch == p.epoch && t.publisher.awaiting == p.awaiting
            && Emits(c, t.channel, p.epoch, p.awaiting)
  {
    hide Emits, OnFrameComplete;
    EmitsNothing(c, p.epoch, p.awaiting);
    OnFrameCompleteEmits(p, c);
    ControlEmits(c, ProtocolFailure, p.epoch, p.awaiting);
  }

  lemma RendererKeepsEpochs(p: Publisher, c: Channel, event: EgfxPublication.Event, start: u64)
    requires WellFormed(p) && RendererEvent(event) && EgfxPublication.Enabled(EgfxPublication.State(p, c), event)
    requires LogInOrder(c.log, start) && p.epoch == CurrentEpoch(c.log, start)
    ensures var t := EgfxPublication.Step(EgfxPublication.State(p, c), event);
            && WellFormed(t.publisher) && t.publisher.epoch == p.epoch && t.publisher.awaiting == p.awaiting
            && LogInOrder(t.channel.log, start) && CurrentEpoch(t.channel.log, start) == p.epoch
  {
    hide LogInOrder, Emits, EgfxPublication.Step, WellFormed;
    RendererEmits(p, c, event);
    EmitsKeepsOrder(c, EgfxPublication.Step(EgfxPublication.State(p, c), event).channel, start, p.awaiting);
  }

  lemma StepKeepsEpochs(s: Session, e: Event, start: u64)
    requires EpochInv(s, start) && Enabled(s, e)
    ensures EpochInv(Step(s, e), start)
  {
    hide LogInOrder, Emits, SendBase, Flush, FlushPendingBase, Handle, HandleRequestFrame, WellFormed, FrameWellFormed;
    hide EgfxPublication.Step, ChangedAsReported, Regions;
    if !s.ended {
      match e
      case HandleOutput(queued, ready) => HandleKeepsEpochs(s, s.outputs[0], queued, ready, start);
      case FlushBase => FlushBaseKeepsEpochs(s, start);
      case FlushGraphics(ready) =>
        FlushEmits(s.frame, s.channel, s.image, ready);
        EmitsKeepsOrder(s.channel, Flush(s.frame, s.channel, s.image, ready).1, start, s.frame.awaiting);
      case RequestFrame => RequestKeepsEpochs(s, start);
      case Egfx(event) => RendererKeepsEpochs(s.egfx.value, s.channel, event, start);
      case Negotiated => PrepareWellFormed(s.egfx, s.frame.epoch);
      case ServerFrame(image, outputs) => NewImageWellFormed(s, image, outputs);
      case ReactivationFinished => FinishedWellFormed(s.frame, s.image);
      case _ =>
    }
  }

  lemma NewImageWellFormed(s: Session, image: Image, outputs: seq<StageOutput>)
    requires SessionWellFormed(s) && !s.ended && Enabled(s, ServerFrame(image, outputs))
    ensures FrameWellFormed(s.frame, image)
  {
    hide Regions;
  }

  lemma FinishedWellFormed(f: FrameState, image: Image)
    requires FrameWellFormed(f, image)
    ensures FrameWellFormed(FinishReactivation(f), image)
  {
    hide Image.Valid;
  }

  lemma PrepareWellFormed(egfx: Option<Publisher>, epoch: u64)
    ensures egfx.Some? ==> WellFormed(PrepareForReactivation(egfx.value, epoch))
  {
  }

  lemma FlushBaseKeepsEpochs(s: Session, start: u64)
    requires EpochInv(s, start) && !s.ended
    ensures EpochInv(FromFrame(s, FlushPendingBase(s.frame, s.channel, s.image)), start)
  {
    hide LogInOrder, Emits, SendBase, Image.Valid, AllWithin, WellFormed;
    SendBaseEmits(s.frame, s.channel, s.image, s.frame.pendingBaseReady);
    EmitsKeepsOrder(s.channel, SendBase(s.frame, s.channel, s.image, s.frame.pendingBaseReady).1, start,
      s.frame.awaiting);
  }

  // ----- what a session takes in, and when it ends -----

  /** The decoded image is always the latest one, and its outputs are handled from the first to the last. */
  lemma PictureIsTaken(s: Session, e: Event)
    requires SessionWellFormed(s) && Enabled(s, e) && !s.ended
    ensures var t := ActiveStep(s, e);
            && t.image == (if e.ServerFrame? then e.image else s.image)
            && t.outputs == (if e.ServerFrame? then e.outputs
                             else if e.HandleOutput? then s.outputs[1..] else s.outputs)
  {
    hide SendUpdate, Flush, SendBase, ChangedAsReported, FrameWellFormed, WellFormed, PublishBaseFrame;
  }

  /** A cursor is forwarded if there is room for it, and dropped without harm if there is not. */
  lemma PointerIsForwarded(s: Session, ready: bool)
    requires SessionWellFormed(s) && !s.ended && s.channel.receiverAlive
    ensures var t := Handle(s, Pointer, [], ready);
            && !t.ended && t == s.(channel := t.channel)
            && t.channel.queue == if |s.channel.queue| < s.channel.capacity then s.channel.queue + [Cursor]
                                  else s.channel.queue
  {
  }

  /** While the receiver and the control channel are there nothing ends a session. */
  lemma OpenSessionsGoOn(s: Session, e: Event)
    requires SessionWellFormed(s) && Enabled(s, e) && !s.ended && s.channel.receiverAlive && s.channel.controlOpen
    ensures !ActiveStep(s, e).ended
  {
    hide Image.Valid, AllWithin, ChangedAsReported, OpaqueImage, Deltas, ShouldPromote, QueuedAs, CoversFrame;
    hide EgfxPublication.Step, RequestBaseFrame;
    if s.egfx.Some? {
      RequestIsAnswered(s.egfx.value, s.channel);
    }
  }

  /** Without a receiver the next thing that has to be sent ends it. */
  lemma ClosedSessionsEnd(s: Session, ready: bool)
    requires SessionWellFormed(s) && !s.ended && !s.channel.receiverAlive
    ensures Handle(s, Pointer, [], ready).ended
    ensures var t := ActiveStep(s, RequestFrame);
            var byRenderer := s.egfx.Some? && (s.egfx.value.awaiting || s.egfx.value.desktop.Some?);
            t.ended <==> if byRenderer then !s.egfx.value.awaiting else !s.frame.awaiting
  {
    hide Image.Valid, AllWithin, OpaqueImage, WellFormed, RequestBaseFrame;
    if s.egfx.Some? {
      AnsweredWithWellFormed(s);
    }
  }

  lemma AnsweredWithWellFormed(s: Session)
    requires SessionWellFormed(s) && s.egfx.Some?
    ensures var r := RequestBaseFrame(s.egfx.value, s.channel).2;
            && (r == Some(false) <==> !s.egfx.value.awaiting && s.egfx.value.desktop.None?)
            && (r == None <==> !s.egfx.value.awaiting && s.egfx.value.desktop.Some? && !s.channel.receiverAlive)
            && (!s.channel.receiverAlive ==> !RequestBaseFrame(s.egfx.value, s.channel).1.receiverAlive)
  {
    RequestIsAnswered(s.egfx.value, s.channel);
  }

  /** Before the first picture has been decoded there is nothing to flush. */
  lemma StartsQuiet(epoch: u64, image: Image, withEgfx: bool, capacity: nat, ready: bool)
    requires image.Valid()
    ensures var s := StartSession(epoch, image, withEgfx, capacity);
            ActiveStep(s, FlushBase) == s && ActiveStep(s, FlushGraphics(ready)) == s
  {
  }

  // ----- a producer that is waiting enqueues nothing -----

  /** The renderer acts on this event, rather than the bitmap path. */
  predicate ByRenderer(s: Session, e: Event) {
    e.Egfx? || (e.RequestFrame? && s.egfx.Some? && s.egfx.value.desktop.Some?)
  }

  lemma MutedMeansNoPicture(c: Channel, d: Channel, epoch: u64)
    requires Emits(c, d, epoch, true)
    ensures NoPicture(c, d)
  {
  }

  /**
   * From the deactivation until the reactivation has finished the bitmap path enqueues no picture, whatever happens.
   */
  lemma AwaitingBitmapEnqueuesNoPicture(s: Session, e: Event)
    requires SessionWellFormed(s) && Enabled(s, e) && !s.ended
    requires s.frame.awaiting && !ByRenderer(s, e)
    ensures NoPicture(s.channel, Step(s, e).channel)
  {
    hide SendUpdate, Flush, WellFormed, Image.Valid, AllWithin, EgfxPublication.Step, ChangedAsReported, Regions, Emits;
    match e
    case HandleOutput(queued, ready) =>
      if s.outputs[0].GraphicsUpdate? {
        SendUpdateEmits(s.frame, s.channel, s.image, s.outputs[0].region, queued, ready);
        MutedMeansNoPicture(s.channel, Step(s, e).channel, s.frame.epoch);
      }
    case FlushGraphics(ready) =>
      FlushEmits(s.frame, s.channel, s.image, ready);
      MutedMeansNoPicture(s.channel, Step(s, e).channel, s.frame.epoch);
    case _ =>
  }

  /** From the deactivation until the new capabilities are negotiated the renderer enqueues no picture. */
  lemma AwaitingRendererEnqueuesNoPicture(s: Session, e: Event)
    requires SessionWellFormed(s) && Enabled(s, e) && !s.ended
    requires s.egfx.Some? && s.egfx.value.awaiting && ByRenderer(s, e)
    ensures NoPicture(s.channel, Step(s, e).channel)
  {
    hide OnFrameComplete, Emits, WellFormed, FrameWellFormed;
    match e
    case Egfx(event) =>
      RendererEmits(s.egfx.value, s.channel, event);
      MutedMeansNoPicture(s.channel, Step(s, e).channel, s.egfx.value.epoch);
    case RequestFrame =>
  }

  // ----- each producer's pictures beside the other's -----

  /** The bitmap path's claim on the shared channel, for as long as the session lives. */
  ghost predicate BitmapInv(s: Session) {
    !s.ended ==> FrameInv(s.frame, s.channel, s.image, Regions(s.image, s.outputs))
  }

  /** The renderer's claim on the same channel. */
  ghost predicate RendererInv(s: Session) {
    s.egfx.Some? ==> Inv(s.egfx.value, s.channel)
  }

  /** On the way from `s` to `t` the renderer enqueued no picture, or the bitmap path owed a base frame anyway. */
  ghost predicate BitmapUndisturbed(s: Session, e: Event, t: Session) {
    ByRenderer(s, e) ==> s.frame.needsBase || NoPicture(s.channel, t.channel)
  }

  /** The same with the producers exchanged. */
  ghost predicate RendererUndisturbed(s: Session, e: Event, t: Session) {
    s.egfx.Some? && !ByRenderer(s, e) ==> s.egfx.value.needsBase || NoPicture(s.channel, t.channel)
  }

  lemma RendererActs(s: Session, e: Event)
    requires SessionWellFormed(s) && Enabled(s, e) && !s.ended && ByRenderer(s, e)
    ensures var t := ActiveStep(s, e);
            && t == s.(egfx := t.egfx, channel := t.channel, ended := t.ended)
            && Emits(s.channel, t.channel, s.egfx.value.epoch, s.egfx.value.awaiting)
  {
    hide EgfxPublication.Step, PublishBaseFrame, Emits, WellFormed, FrameWellFormed;
    match e
    case Egfx(event) => RendererEmits(s.egfx.value, s.channel, event);
    case RequestFrame =>
      EmitsNothing(s.channel, s.egfx.value.epoch, s.egfx.value.awaiting);
      PublishBaseFrameEmits(s.egfx.value, s.channel, false);
  }

  /** Any other step leaves the renderer alone or suspends it. */
  lemma OthersSpareRenderer(s: Session, e: Event)
    requires SessionWellFormed(s) && Enabled(s, e) && !s.ended && !ByRenderer(s, e)
    ensures var t := ActiveStep(s, e);
            && (t.egfx.Some? ==> WellFormed(t.egfx.value) && (t.egfx.value.needsBase || t.egfx == s.egfx))
            && (t.channel.receiverAlive ==> s.channel.receiverAlive)
  {
    hide SendUpdate, Flush, SendBase, Regions, ChangedAsReported, Image.Valid, AllWithin, EgfxPublication.Step,
      FrameWellFormed;
    match e
    case HandleOutput(queued, ready) =>
      if s.outputs[0].GraphicsUpdate? {
        SendUpdateEmits(s.frame, s.channel, s.image, s.outputs[0].region, queued, ready);
      }
      DeactivatedRenderer(s);
    case FlushBase => SendBaseEmits(s.frame, s.channel, s.image, s.frame.pendingBaseReady);
    case FlushGraphics(ready) => FlushEmits(s.frame, s.channel, s.image, ready);
    case RequestFrame => SendBaseEmits(s.frame, s.channel, s.image, false);
    case _ =>
  }

  /** Whatever happens, only an enqueued picture changes what will be shown. */
  lemma OnlyPicturesShow(s: Session, e: Event)
    requires SessionWellFormed(s) && Enabled(s, e) && NoPicture(s.channel, Step(s, e).channel)
    ensures Shown(Step(s, e).channel) == Shown(s.channel)
  {
    hide SendUpdate, Flush, SendBase, Replay, Regions, ChangedAsReported, Image.Valid, AllWithin, EgfxPublication.Step,
      WellFormed, PublishBaseFrame, TryRecv;
    RecvKeepsShown(s.channel);
    if !s.ended {
      if ByRenderer(s, e) {
        RendererActs(s, e);
      } else {
        match e
        case HandleOutput(queued, ready) =>
          if s.outputs[0].GraphicsUpdate? {
            SendUpdateEmits(s.frame, s.channel, s.image, s.outputs[0].region, queued, ready);
          } else if s.outputs[0].Pointer? {
            SendEmits(s.channel, Cursor, s.latestEpoch, true);
          }
        case FlushBase => SendBaseEmits(s.frame, s.channel, s.image, s.frame.pendingBaseReady);
        case FlushGraphics(ready) => FlushEmits(s.frame, s.channel, s.image, ready);
        case RequestFrame => SendBaseEmits(s.frame, s.channel, s.image, false);
        case _ =>
      }
    }
  }

  /**
   * A requested frame is shown: the renderer's desktop if it has one, the decoded image otherwise, unless the producer
   * in charge is waiting for a reactivation.
   */
  lemma RequestIsShown(s: Session)
    requires SessionWellFormed(s) && !s.ended && s.channel.receiverAlive
    ensures var t := ActiveStep(s, RequestFrame);
            var byRenderer := s.egfx.Some? && s.egfx.value.desktop.Some?;
            && !t.ended
            && (byRenderer && !s.egfx.value.awaiting ==>
                  Shown(t.channel) == Some(Screen(s.egfx.value.desktop.value, s.egfx.value.epoch)))
            && ((s.egfx.Some? ==> !s.egfx.value.awaiting) && !byRenderer && !s.frame.awaiting ==>
                  Shown(t.channel) == Some(Screen(OpaqueImage(s.image), s.frame.epoch)))
  {
    hide Image.Valid, WellFormed, AllWithin, SendBase, RequestBaseFrame, Replay;
    if s.egfx.Some? {
      RequestIsAnswered(s.egfx.value, s.channel);
    }
    SendBaseKeeps(s.frame, s.channel, s.image, false, []);
    BaseSucceeds(s.frame, s.channel, s.image);
  }

  lemma BaseSucceeds(f: FrameState, c: Channel, image: Image)
    requires c.receiverAlive
    ensures SendBase(f, c, image, false).2
  {
  }

  lemma OpaqueChange(before: Image, after: Image, regions: seq<Rect>)
    requires ChangedOnlyIn(before, after, regions)
    ensures ChangedOnlyIn(OpaqueImage(before), OpaqueImage(after), regions)
  {
    hide Covered, ColumnOf, RowOf;
  }

  lemma ServerFrameKeepsBitmap(s: Session, image: Image, outputs: seq<StageOutput>)
    requires SessionWellFormed(s) && BitmapInv(s) && !s.ended && Enabled(s, ServerFrame(image, outputs))
    ensures BitmapInv(ActiveStep(s, ServerFrame(image, outputs)))
  {
    hide Replay, Image.Valid, AllWithin;
    NewImageWellFormed(s, image, outputs);
    if s.reactivation.None? {
      ChangedInRegions(s.image, image, outputs);
      OpaqueChange(s.image, image, Regions(image, outputs));
      if !s.frame.needsBase {
        assert s.frame.accumulator + Regions(s.image, s.outputs) == s.frame.accumulator;
        AgreeAfterChange(Shown(s.channel).value.image, OpaqueImage(s.image), OpaqueImage(image), s.frame.accumulator,
          Regions(image, outputs));
      }
    }
  }

  lemma HandleKeepsBitmap(s: Session, queued: seq<Rect>, ready: bool)
    requires SessionWellFormed(s) && BitmapInv(s) && !s.ended && Enabled(s, HandleOutput(queued, ready))
    ensures BitmapInv(ActiveStep(s, HandleOutput(queued, ready)))
  {
    hide Replay, Image.Valid, AllWithin, SendUpdate, Deactivate, Coherent;
    var rest := Regions(s.image, s.outputs[1..]);
    match s.outputs[0]
    case GraphicsUpdate(region) =>
      var rect := NormalizedRect(s.image.width, s.image.height, region);
      assert Regions(s.image, s.outputs) == (if rect.Some? then [rect.value] else []) + rest;
      SendUpdateKeeps(s.frame, s.channel, s.image, region, queued, ready, rest);
    case DeactivateAll => DeactivatedFrame(s);
    case Pointer =>
      if TrySend(s.channel, Cursor).1 == Sent {
        SentIsShown(s.channel, Cursor);
      }
  }

  lemma DeactivatedFrame(s: Session)
    requires SessionWellFormed(s) && !s.ended
    ensures var t := Deactivate(s);
            && t.image == s.image && t.outputs == s.outputs
            && (!t.ended ==> FrameWellFormed(t.frame, t.image) && t.frame.needsBase)
  {
    hide Image.Valid;
  }

  /** A synced bitmap path stays right through its own steps and through every step that disturbs no picture of it. */
  lemma StepKeepsBitmap(s: Session, e: Event)
    requires SessionWellFormed(s) && BitmapInv(s) && Enabled(s, e) && BitmapUndisturbed(s, e, Step(s, e))
    ensures BitmapInv(Step(s, e))
  {
    hide Replay, Image.Valid, SendBase, Flush, FlushPendingBase, Handle, Coherent, Regions, TryRecv, AllWithin,
      EgfxPublication.Step, PublishBaseFrame, NoPicture, WellFormed;
    var unhandled := Regions(s.image, s.outputs);
    if !s.ended && ByRenderer(s, e) {
      RendererActs(s, e);
      if !s.frame.needsBase {
        OnlyPicturesShow(s, e);
      }
    } else if !s.ended {
      RecvKeepsShown(s.channel);
      match e
      case ServerFrame(image, outputs) => ServerFrameKeepsBitmap(s, image, outputs);
      case HandleOutput(queued, ready) => HandleKeepsBitmap(s, queued, ready);
      case ReactivationFinished => FinishedWellFormed(s.frame, s.image);
      case FlushBase => FlushPendingBaseKeeps(s.frame, s.channel, s.image, unhandled);
      case FlushGraphics(ready) => FlushKeeps(s.frame, s.channel, s.image, ready, unhandled);
      case RequestFrame => SendBaseKeeps(s.frame, s.channel, s.image, false, unhandled);
      case _ =>
    }
  }

  /** The same for the renderer, which starts again with every reset and reactivation. */
  lemma StepKeepsRenderer(s: Session, e: Event)
    requires SessionWellFormed(s) && RendererInv(s) && Enabled(s, e) && RendererUndisturbed(s, e, Step(s, e))
    ensures RendererInv(Step(s, e))
  {
    hide Replay, FrameWellFormed, SendBase, Flush, FlushPendingBase, Handle, Coherent, TryRecv, EgfxPublication.Step,
      PublishBaseFrame, NoPicture, WellFormed, Deactivate;
    if s.ended {
      if s.egfx.Some? {
        ReceiveKeepsInv(s.egfx.value, s.channel);
      }
    } else if ByRenderer(s, e) {
      match e
      case Egfx(event) => StepKeepsInv(EgfxPublication.State(s.egfx.value, s.channel), event);
      case RequestFrame => RequestKeepsInv(s.egfx.value, s.channel);
    } else {
      OthersSpareRenderer(s, e);
      if s.egfx.Some? && !s.egfx.value.needsBase {
        OnlyPicturesShow(s, e);
      }
    }
  }

  lemma RecvKeepsLog(c: Channel)
    ensures var d := TryRecv(c).0; d == c.(queue := d.queue, view := d.view)
  {
  }

  // ----- whole runs -----

  /** As for the renderer, a run owes nothing after a state the steps are not defined on. */
  ghost predicate IsRun(run: seq<Session>, events: seq<Event>, epoch: u64, image: Image, withEgfx: bool,
                        capacity: nat) {
    && |run| == |events| + 1 && image.Valid()
    && run[0] == StartSession(epoch, image, withEgfx, capacity)
    && forall i | 0 <= i < |events| ::
         Enabled(run[i], events[i]) && (SessionWellFormed(run[i]) ==> run[i + 1] == Step(run[i], events[i]))
  }

  /** Epoch discipline within one connection, for both producers together, at every point of every run. */
  lemma {:induction false} RunsKeepEpochOrder(run: seq<Session>, events: seq<Event>, epoch: u64, image: Image,
                                              withEgfx: bool, capacity: nat, at: nat)
    requires IsRun(run, events, epoch, image, withEgfx, capacity) && at < |run|
    ensures EpochInv(run[at], epoch)
  {
    if at > 0 {
      RunsKeepEpochOrder(run, events, epoch, image, withEgfx, capacity, at - 1);
      StepKeepsEpochs(run[at - 1], events[at - 1], epoch);
    } else {
      StartInOrder(epoch, image, withEgfx, capacity);
    }
  }

  lemma StartInOrder(epoch: u64, image: Image, withEgfx: bool, capacity: nat)
    requires image.Valid()
    ensures EpochInv(StartSession(epoch, image, withEgfx, capacity), epoch)
  {
  }

  /**
   * Delta-chain soundness of the bitmap path, beside a renderer or without one. From the start of the session, or
   * any later moment at which it owes a base frame, and until the renderer enqueues a picture while the bitmap path
   * is synced: a viewer that drains the queue shows, whenever a live session is synced, the opaque image outside the
   * accumulated rectangles and the regions not yet handled.
   */
  lemma {:induction false} RunsStayCoherent(run: seq<Session>, events: seq<Event>, epoch: u64, image: Image,
                                            withEgfx: bool, capacity: nat, from: nat, at: nat)
    requires IsRun(run, events, epoch, image, withEgfx, capacity) && from <= at < |run|
    requires run[from].frame.needsBase
    requires forall i | from <= i < at :: BitmapUndisturbed(run[i], events[i], run[i + 1])
    ensures BitmapInv(run[at])
    ensures var s := run[at];
            !s.ended && !s.frame.needsBase ==>
              Coherent(Shown(s.channel), OpaqueImage(s.image), s.frame.accumulator + Regions(s.image, s.outputs),
                s.frame.epoch)
    ensures !run[at].ended && run[at].frame.pendingBase ==> run[at].frame.needsBase
  {
    hide Step, Enabled, BitmapUndisturbed;
    RunsKeepEpochOrder(run, events, epoch, image, withEgfx, capacity, at);
    if at > from {
      RunsStayCoherent(run, events, epoch, image, withEgfx, capacity, from, at - 1);
      RunsKeepEpochOrder(run, events, epoch, image, withEgfx, capacity, at - 1);
      assert BitmapUndisturbed(run[at - 1], events[at - 1], run[at]);
      StepKeepsBitmap(run[at - 1], events[at - 1]);
    }
  }

  /**
   * The same for the renderer, which owes a base frame at the start, after every reset of the graphics and after
   * every reactivation, until the bitmap path enqueues a picture while the renderer is synced.
   */
  lemma {:induction false} RendererStaysCoherent(run: seq<Session>, events: seq<Event>, epoch: u64, image: Image,
                                                 withEgfx: bool, capacity: nat, from: nat, at: nat)
    requires IsRun(run, events, epoch, image, withEgfx, capacity) && from <= at < |run|
    requires run[from].egfx.Some? ==> run[from].egfx.value.needsBase
    requires forall i | from <= i < at :: RendererUndisturbed(run[i], events[i], run[i + 1])
    ensures RendererInv(run[at])
    ensures run[at].egfx.Some? ==>
              var p := run[at].egfx.value;
              !p.failed && !p.needsBase ==>
                p.desktop.Some? && Coherent(Shown(run[at].channel), p.desktop.value, p.dirty, p.epoch)
  {
    hide Step, Enabled, RendererUndisturbed, Coherent;
    RunsKeepEpochOrder(run, events, epoch, image, withEgfx, capacity, at);
    if at > from {
      RendererStaysCoherent(run, events, epoch, image, withEgfx, capacity, from, at - 1);
      RunsKeepEpochOrder(run, events, epoch, image, withEgfx, capacity, at - 1);
      assert RendererUndisturbed(run[at - 1], events[at - 1], run[at]);
      StepKeepsRenderer(run[at - 1], events[at - 1]);
    }
  }

  // ----- the ordinary bitmap session: a renderer that the server never gives a desktop -----

  ghost predicate NoDesktop(s: Session) {
    s.egfx.Some? ==> s.egfx.value.desktop.None?
  }

  lemma StepKeepsNoDesktop(s: Session, e: Event)
    requires SessionWellFormed(s) && Enabled(s, e) && NoDesktop(s) && !(e.Egfx? && e.event.Reset?)
    ensures NoDesktop(Step(s, e)) && BitmapUndisturbed(s, e, Step(s, e))
  {
    hide SendUpdate, Flush, SendBase, Regions, ChangedAsReported, FrameWellFormed;
  }

  /** Present or not, a renderer that no reset gives a desktop never disturbs the bitmap path. */
  lemma {:induction false} WithoutResetUndisturbed(run: seq<Session>, events: seq<Event>, epoch: u64, image: Image,
                                                   withEgfx: bool, capacity: nat, at: nat)
    requires IsRun(run, events, epoch, image, withEgfx, capacity) && at < |run|
    requires forall i | 0 <= i < at :: !(events[i].Egfx? && events[i].event.Reset?)
    ensures NoDesktop(run[at])
    ensures forall i | 0 <= i < at :: BitmapUndisturbed(run[i], events[i], run[i + 1])
  {
    hide Step, Enabled, BitmapUndisturbed;
    if at > 0 {
      WithoutResetUndisturbed(run, events, epoch, image, withEgfx, capacity, at - 1);
      RunsKeepEpochOrder(run, events, epoch, image, withEgfx, capacity, at - 1);
      StepKeepsNoDesktop(run[at - 1], events[at - 1]);
    }
  }

  /** So every session in which the server resets no graphics stays coherent, whatever its configuration. */
  lemma BitmapSessionsStayCoherent(run: seq<Session>, events: seq<Event>, epoch: u64, image: Image, withEgfx: bool,
                                   capacity: nat, at: nat)
    requires IsRun(run, events, epoch, image, withEgfx, capacity) && at < |run|
    requires forall i | 0 <= i < at :: !(events[i].Egfx? && events[i].event.Reset?)
    ensures BitmapInv(run[at])
  {
    hide BitmapUndisturbed, BitmapInv;
    WithoutResetUndisturbed(run, events, epoch, image, withEgfx, capacity, at);
    RunsStayCoherent(run, events, epoch, image, withEgfx, capacity, 0, at);
  }
}
