// How the EGFX renderer publishes its desktop image: the publication fields of `EgfxRenderer`
// and every step that touches them (plugins/rdp/src/egfx.rs), as a state machine over the
// renderer and the output channel.

module EgfxPublication {
  import opened Wrappers
  import opened FixedWidth
  import opened DirtyRects
  import opened Viewer
  import opened GraphicsChannel

  datatype Publisher = Publisher(
    desktop: Option<Image>, dirty: seq<Rect>, needsBase: bool, epoch: u64, awaiting: bool,
    publishedFirst: bool, traceId: u64, failed: bool)

  const Initial: Publisher := Publisher(None, [], true, 0, false, false, 0, false)

  function NextTraceId(traceId: u64): u64 {
    Max(SaturatingAdd64(traceId, 1), 1)
  }

  function DirtyPixels(rects: seq<Rect>): u64 {
    if rects == [] then 0
    else SaturatingAdd64(DirtyPixels(rects[..|rects| - 1]), RectPixels(rects[|rects| - 1]))
  }

  predicate CoversFrame(rect: Rect, width: nat, height: nat) {
    rect.x == 0 && rect.y == 0 && rect.width == width && rect.height == height
  }

  /** The threshold at which a whole frame replaces the dirty rectangles. */
  predicate PromotesToBase(dirty: seq<Rect>, width: u32, height: u32) {
    || DirtyPixels(dirty) >= SaturatingMul64(width, height)
    || exists r | r in dirty :: CoversFrame(r, width, height)
  }

  ghost function PublishBaseFrame(p: Publisher, c: Channel, publishReady: bool): (Publisher, Channel, bool) {
    if p.awaiting then (p.(needsBase := true), c, true)
    else if p.desktop.None? then (p, c, false)
    else
      var p1 := p.(traceId := NextTraceId(p.traceId));
      var (c1, sent) := TrySend(c, Frame(p.desktop.value, p.epoch, p1.traceId));
      match sent
      case Sent =>
        var p2 := p1.(needsBase := false, dirty := []);
        if publishReady && !p.publishedFirst then
          var (c2, ok) := SendReady(c1, p.desktop.value.width, p.desktop.value.height);
          (p2.(publishedFirst := ok), c2, ok)
        else (p2, c1, true)
      case Full => (p1.(needsBase := true), c1, true)
      case Disconnected => (p1, c1, false)
  }

  /** One update is sent on its own, several as one batch. */
  ghost function DeltaOutput(updates: seq<Update>): Output {
    if |updates| == 1 then FrameUpdate(updates[0]) else FrameUpdateBatch(updates)
  }

  ghost function PublishCompletedFrame(p: Publisher, c: Channel): (Publisher, Channel, bool)
    requires WellFormed(p)
  {
    if p.awaiting then (p.(dirty := []), c, true)
    else if p.dirty == [] then (p, c, true)
    else
      var p1 := p.(dirty := []);
      if p.desktop.None? then (p1, c, true)
      else
        var desktop := p.desktop.value;
        if p.needsBase || PromotesToBase(p.dirty, desktop.width, desktop.height) then
          PublishBaseFrame(p1, c, true)
        else
          var p2 := p1.(traceId := NextTraceId(p.traceId));
          var (c1, sent) := TrySend(c, DeltaOutput(Deltas(desktop, p.dirty, p.epoch, p2.traceId)));
          match sent
          case Sent => (p2, c1, true)
          case Full => (p2.(needsBase := true), c1, true)
          case Disconnected => (p2, c1, false)
  }

  /** The renderer stops taking updates and reports the failure if it still can. */
  ghost function Fail(p: Publisher, c: Channel): (Publisher, Channel) {
    (p.(failed := true), SendControl(c, ProtocolFailure).0)
  }

  /** `on_frame_complete`: a failed renderer ignores it, an error makes the renderer fail. */
  ghost function OnFrameComplete(p: Publisher, c: Channel): (Publisher, Channel)
    requires WellFormed(p)
  {
    if p.failed then (p, c)
    else
      var (p1, c1, ok) := PublishCompletedFrame(p, c);
      if ok then (p1, c1) else Fail(p1, c1)
  }

  /** The session asks for a fresh base frame; None is a session error, Some(false) leaves it to the bitmap path. */
  ghost function RequestBaseFrame(p: Publisher, c: Channel): (Publisher, Channel, Option<bool>) {
    if p.awaiting then (p, c, Some(true))
    else if p.desktop.None? then (p, c, Some(false))
    else
      var (p1, c1, ok) := PublishBaseFrame(p, c, false);
      (p1, c1, if ok then Some(true) else None)
  }

  ghost function BeginFrameTransition(p: Publisher, epoch: u64): Publisher {
    p.(epoch := epoch, awaiting := true, dirty := [], needsBase := true)
  }

  ghost function DiscardGraphics(p: Publisher): Publisher {
    p.(desktop := None, dirty := [], needsBase := true)
  }

  ghost function PrepareForReactivation(p: Publisher, epoch: u64): Publisher {
    DiscardGraphics(p).(epoch := epoch, awaiting := false)
  }

  ghost function ResetGraphics(p: Publisher, blank: Image): Publisher {
    p.(desktop := Some(blank), dirty := [blank.Bounds()], needsBase := true)
  }

  /** Compositing changes the desktop only inside `regions` and leaves them covered by the dirty set. */
  ghost predicate Composited(p: Publisher, q: Publisher, regions: seq<Rect>) {
    if p.desktop.None? then q == p
    else
      && q.desktop.Some?
      && ChangedOnlyIn(p.desktop.value, q.desktop.value, regions)
      && CoversAll(q.dirty, p.dirty + regions)
      && AllWithin(q.dirty, q.desktop.value.Bounds())
      && q == p.(desktop := q.desktop, dirty := q.dirty)
  }

  // ----- the invariant -----

  ghost predicate WellFormed(p: Publisher) {
    && (p.desktop.Some? ==> p.desktop.value.Valid() && AllWithin(p.dirty, p.desktop.value.Bounds()))
    && (p.desktop.None? ==> p.needsBase && p.dirty == [])
    && (p.awaiting ==> p.needsBase)
  }

  /** A dirty set is trusted unless the channel is gone and the renderer has already failed on it. */
  ghost predicate Trusted(p: Publisher, c: Channel) {
    !p.needsBase && (c.receiverAlive || !p.failed)
  }

  ghost predicate Inv(p: Publisher, c: Channel) {
    && WellFormed(p)
    && (Trusted(p, c) ==> Coherent(Shown(c), p.desktop.value, p.dirty, p.epoch))
  }

  // ----- when whole frames replace rectangles -----

  /** Rectangles counted one by one, with nothing to saturate. */
  function PixelSum(rects: seq<Rect>): nat {
    if rects == [] then 0 else PixelSum(rects[..|rects| - 1]) + Area(rects[|rects| - 1])
  }

  lemma {:induction false} DirtyPixelsAreSummed(rects: seq<Rect>)
    ensures DirtyPixels(rects) == Min(PixelSum(rects), U64_MAX)
  {
    if rects != [] {
      DirtyPixelsAreSummed(rects[..|rects| - 1]);
      RectPixelsBelowMax(rects[|rects| - 1]);
    }
  }

  /** The renderer sends a whole frame exactly when the rectangles add up to the desktop, or one of them is it. */
  lemma WhenPromoted(dirty: seq<Rect>, width: u16, height: u16)
    ensures PromotesToBase(dirty, width, height)
            <==> PixelSum(dirty) >= width * height || Rect(0, 0, width, height) in dirty
  {
    DirtyPixelsAreSummed(dirty);
    RectPixelsBelowMax(Rect(0, 0, width, height));
    hide DirtyPixels, PixelSum, RectPixels;
    assert forall r: Rect :: CoversFrame(r, width, height) <==> r == Rect(0, 0, width, height);
  }

  // ----- every step keeps the invariant -----

  lemma BaseFrameKeepsInv(p: Publisher, c: Channel, publishReady: bool)
    requires WellFormed(p)
    ensures var (q, d, ok) := PublishBaseFrame(p, c, publishReady);
            && WellFormed(q)
            && q == p.(needsBase := q.needsBase, dirty := q.dirty, traceId := q.traceId,
                       publishedFirst := q.publishedFirst)
            && d == c.(queue := d.queue, log := d.log)
            && (!p.awaiting && p.desktop.Some? && c.receiverAlive ==>
                  !q.needsBase && q.dirty == [] && Shown(d) == Some(Screen(p.desktop.value, p.epoch)))
            && (!(!p.awaiting && p.desktop.Some? && c.receiverAlive) ==>
                  d == c && q == p.(needsBase := q.needsBase, traceId := q.traceId))
            && (ok || !c.receiverAlive || p.desktop.None? || !c.controlOpen)
            && (p.awaiting ==> q.needsBase) && (!p.awaiting && !c.receiverAlive ==> q.needsBase == p.needsBase && !ok)
  {
    hide Replay;
    if !p.awaiting && p.desktop.Some? && c.receiverAlive {
      var p1 := p.(traceId := NextTraceId(p.traceId));
      var frame := Frame(p.desktop.value, p.epoch, p1.traceId);
      SentIsShown(c, frame);
    }
  }

  lemma ExactIsCoherent(c: Channel, wanted: Image, dirty: seq<Rect>, epoch: u64)
    requires wanted.Valid() && Shown(c) == Some(Screen(wanted, epoch))
    ensures Coherent(Shown(c), wanted, dirty, epoch)
  {
    SelfAgrees(wanted, dirty);
  }

  /** Publishing the pending deltas either repairs every dirty pixel or asks for a base frame. */
  lemma DeltasKeepInv(p: Publisher, c: Channel, traceId: u64)
    requires Inv(p, c) && Trusted(p, c) && p.dirty != []
    requires c.receiverAlive
    ensures var (d, sent) := TrySend(c, DeltaOutput(Deltas(p.desktop.value, p.dirty, p.epoch, traceId)));
            && sent != Disconnected
            && (sent == Sent ==> Shown(d) == Some(Screen(p.desktop.value, p.epoch)))
            && (sent == Full ==> d == c)
  {
    hide Replay;
    var updates := Deltas(p.desktop.value, p.dirty, p.epoch, traceId);
    var output := DeltaOutput(updates);
    if TrySend(c, output).1 == Sent {
      SentIsShown(c, output);
      DeltasRepair(Shown(c), p.desktop.value, p.dirty, p.epoch, traceId);
      if |updates| == 1 {
        SingleUpdate(Shown(c), updates);
      }
    }
  }

  lemma SingleUpdate(view: Option<Screen>, updates: seq<Update>)
    requires |updates| == 1
    ensures ApplyUpdates(view, updates) == ApplyUpdate(view, updates[0])
  {
    assert updates[1..] == [];
  }

  /**
   * A completed frame that neither fails nor ends up owing a base frame leaves the viewer,
   * once it has drained the queue, showing the desktop exactly.
   */
  lemma CompletedFrameShowsDesktop(p: Publisher, c: Channel)
    requires Inv(p, c) && !p.failed && !p.awaiting
    ensures var (q, d, ok) := PublishCompletedFrame(p, c);
            && WellFormed(q)
            && q == p.(needsBase := q.needsBase, dirty := q.dirty, traceId := q.traceId,
                       publishedFirst := q.publishedFirst)
            && d == c.(queue := d.queue, log := d.log)
            && (ok && !q.needsBase ==> Shown(d) == Some(Screen(q.desktop.value, q.epoch)) && q.dirty == [])
            && (!ok && c.receiverAlive ==> !q.needsBase ==> Shown(d) == Some(Screen(q.desktop.value, q.epoch)))
  {
    hide Replay, PromotesToBase;
    if p.dirty == [] {
      if !p.needsBase {
        CleanMeansEqual(Shown(c).value.image, p.desktop.value);
      }
    } else if p.desktop.Some? {
      if p.needsBase || PromotesToBase(p.dirty, p.desktop.value.width, p.desktop.value.height) {
        BaseFrameKeepsInv(p.(dirty := []), c, true);
      } else if c.receiverAlive {
        DeltasKeepInv(p, c, NextTraceId(p.traceId));
      }
    }
  }

  /**
   * What is dirty goes out: with a live receiver a completed frame leaves the viewer showing the desktop, by a base
   * frame if one is owed or worth it and by rectangles otherwise; only rectangles that the full queue refuses wait,
   * for a base frame.
   */
  lemma CompletedFrameIsSent(p: Publisher, c: Channel)
    requires Inv(p, c) && !p.failed && !p.awaiting && p.dirty != [] && c.receiverAlive
    ensures var (q, d, ok) := PublishCompletedFrame(p, c);
            var whole := p.needsBase || PixelSum(p.dirty) >= p.desktop.value.width * p.desktop.value.height
                         || p.desktop.value.Bounds() in p.dirty;
            && q.dirty == [] && q.desktop == p.desktop
            && (whole || |c.queue| < c.capacity ==>
                  !q.needsBase && Shown(d) == Some(Screen(p.desktop.value, p.epoch)) && |d.log| > |c.log|
                  && d.log[|c.log|].ToGraphics? && (d.log[|c.log|].output.Frame? <==> whole)
                  && (d.log[|c.log|].output.FrameUpdate? <==> !whole && |p.dirty| == 1)
                  && Traced(c, d, p.traceId, q.traceId))
            && (!whole ==> ok) && (!whole && |c.queue| >= c.capacity ==> q.needsBase && d == c)
  {
    hide Replay, PromotesToBase, Coherent, PixelSum, Traced;
    var desktop := p.desktop.value;
    WhenPromoted(p.dirty, desktop.width, desktop.height);
    if p.needsBase || PromotesToBase(p.dirty, desktop.width, desktop.height) {
      BaseFrameIsLogged(p.(dirty := []), c);
      BaseFrameKeepsInv(p.(dirty := []), c, true);
    } else {
      DeltasKeepInv(p, c, NextTraceId(p.traceId));
      DeltaIsTraced(c, desktop, p.dirty, p.epoch, p.traceId);
    }
  }

  /** The trace ids of an output, one for each picture in it. */
  ghost predicate TracedAs(output: Output, traceId: u64) {
    match output
    case Frame(_, _, t) => t == traceId
    case FrameUpdate(u) => u.traceId == traceId
    case FrameUpdateBatch(us) => forall u | u in us :: u.traceId == traceId
    case Cursor => true
  }

  /** What was enqueued carries the producer's next trace id, which is never zero and only stops at its maximum. */
  ghost predicate Traced(c: Channel, d: Channel, before: u64, after: u64) {
    && after >= 1 && (after == before + 1 || after == before == U64_MAX)
    && |c.log| <= |d.log|
    && forall i | |c.log| <= i < |d.log| && d.log[i].ToGraphics? :: TracedAs(d.log[i].output, after)
  }

  lemma DeltaIsTraced(c: Channel, wanted: Image, rects: seq<Rect>, epoch: u64, traceId: u64)
    requires wanted.Valid() && AllWithin(rects, wanted.Bounds()) && rects != []
    ensures var next := NextTraceId(traceId);
            Traced(c, TrySend(c, DeltaOutput(Deltas(wanted, rects, epoch, next))).0, traceId, next)
  {
    hide Image.Valid, AllWithin;
    var updates := Deltas(wanted, rects, epoch, NextTraceId(traceId));
    forall u | u in updates ensures u.traceId == NextTraceId(traceId) {
      var i :| 0 <= i < |updates| && updates[i] == u;
    }
  }

  lemma BaseFrameIsLogged(p: Publisher, c: Channel)
    requires !p.awaiting && p.desktop.Some? && c.receiverAlive
    ensures var (q, d, ok) := PublishBaseFrame(p, c, true);
            && |d.log| > |c.log| && d.log[|c.log|].ToGraphics? && d.log[|c.log|].output.Frame?
            && Traced(c, d, p.traceId, q.traceId)
  {
  }

  /** The first frame is followed by Connected, with the desktop's own size, and then by the status; no later one is. */
  lemma FirstFrameAnnounces(p: Publisher, c: Channel)
    requires !p.awaiting && p.desktop.Some? && c.receiverAlive
    ensures var (q, d, ok) := PublishBaseFrame(p, c, true);
            && (ok <==> p.publishedFirst || c.controlOpen) && q.publishedFirst == ok && |d.log| > |c.log|
            && d.log[|c.log| + 1..]
               == if p.publishedFirst || !ok then []
                  else [ToControl(Connected(p.desktop.value.width, p.desktop.value.height)),
                        ToControl(ConnectedStatus)]
  {
  }

  /** The renderer answers a request with its desktop, swallows it while it waits, and leaves it if it has nothing. */
  lemma RequestIsAnswered(p: Publisher, c: Channel)
    requires WellFormed(p)
    ensures var (q, d, r) := RequestBaseFrame(p, c);
            && (r == Some(false) <==> !p.awaiting && p.desktop.None?)
            && (r == None <==> !p.awaiting && p.desktop.Some? && !c.receiverAlive)
            && (p.awaiting || p.desktop.None? || !c.receiverAlive ==> d == c && q == p.(traceId := q.traceId))
            && (!p.awaiting && p.desktop.Some? && c.receiverAlive ==>
                  !q.needsBase && q.dirty == [] && Shown(d) == Some(Screen(p.desktop.value, p.epoch)))
  {
    hide Replay;
    BaseFrameKeepsInv(p, c, false);
  }

  lemma FailKeepsInv(p: Publisher, c: Channel)
    requires WellFormed(p)
    requires !p.needsBase && c.receiverAlive ==> Coherent(Shown(c), p.desktop.value, p.dirty, p.epoch)
    ensures var (q, d) := Fail(p, c); Inv(q, d)
  {
    hide Replay, Coherent;
  }

  lemma OnFrameCompleteKeepsInv(p: Publisher, c: Channel)
    requires Inv(p, c)
    ensures var (q, d) := OnFrameComplete(p, c); Inv(q, d)
  {
    hide Replay, Coherent, PublishCompletedFrame;
    if !p.failed {
      var (q, d, ok) := PublishCompletedFrame(p, c);
      if p.awaiting {
        AwaitingCompletes(p, c);
      } else {
        CompletedFrameShowsDesktop(p, c);
        if !q.needsBase && Shown(d) == Some(Screen(q.desktop.value, q.epoch)) {
          ExactIsCoherent(d, q.desktop.value, q.dirty, q.epoch);
        }
        if !ok {
          FailKeepsInv(q, d);
        }
      }
    }
  }

  lemma AwaitingCompletes(p: Publisher, c: Channel)
    requires WellFormed(p) && p.awaiting
    ensures PublishCompletedFrame(p, c) == (p.(dirty := []), c, true)
  {
  }

  lemma RequestKeepsInv(p: Publisher, c: Channel)
    requires Inv(p, c)
    ensures var (q, d, r) := RequestBaseFrame(p, c); Inv(q, d)
  {
    hide Replay, Coherent, PublishBaseFrame;
    if !p.awaiting && p.desktop.Some? {
      BaseFrameKeepsInv(p, c, false);
      var (q, d, r) := RequestBaseFrame(p, c);
      if c.receiverAlive {
        ExactIsCoherent(d, q.desktop.value, q.dirty, q.epoch);
      }
    }
  }

  lemma CompositeKeepsInv(p: Publisher, q: Publisher, c: Channel, regions: seq<Rect>)
    requires Inv(p, c) && Composited(p, q, regions)
    ensures Inv(q, c)
  {
    hide Replay;
    if Trusted(p, c) {
      AgreeAfterChange(Shown(c).value.image, p.desktop.value, q.desktop.value, p.dirty, regions);
      AgreeWeaken(Shown(c).value.image, q.desktop.value, p.dirty + regions, q.dirty);
    }
  }

  lemma CompositeTwice(p: Publisher, q: Publisher, r: Publisher, first: seq<Rect>, second: seq<Rect>)
    requires Composited(p, q, first) && Composited(q, r, second)
    ensures Composited(p, r, first + second)
  {
    if p.desktop.Some? {
      AgreeAfterChange(p.desktop.value, q.desktop.value, r.desktop.value, first, second);
      forall x | x in p.dirty + (first + second) ensures Absorbed(x, r.dirty) {
        if x !in second {
          assert x in p.dirty + first;
          var o :| o in q.dirty && x.Within(o);
          assert o in q.dirty + second;
          assert Absorbed(o, r.dirty);
        } else {
          assert x in q.dirty + second;
        }
      }
    }
  }

  // ----- whole runs -----

  datatype State = State(publisher: Publisher, channel: Channel)

  /**
   * What can happen to the renderer and its channel, in any order. The bitmap path shares the channel: it may
   * send a cursor at any time, and a picture of its own for as long as the renderer owes a base frame.
   */
  datatype Event =
    | FrameComplete
    | Composite(regions: seq<Rect>, after: Publisher)
    | Reset(blank: Image)
    | HandlerError
    | SessionRequest
    | BeginTransition(epoch: u64)
    | Reactivate(epoch: u64)
    | Receive
    | OtherOutput(output: Output)
    | OtherControl(control: Control)
    | ReceiverGone

  ghost predicate Enabled(s: State, e: Event) {
    match e
    case Composite(regions, after) => !s.publisher.failed && Composited(s.publisher, after, regions)
    case Reset(blank) => !s.publisher.failed && blank.Valid()
    case HandlerError => !s.publisher.failed
    case OtherOutput(output) => output.Cursor? || s.publisher.needsBase
    case _ => true
  }

  ghost function Step(s: State, e: Event): State
    requires WellFormed(s.publisher)
  {
    var p, c := s.publisher, s.channel;
    match e
    case FrameComplete => var (q, d) := OnFrameComplete(p, c); State(q, d)
    case Composite(_, after) => s.(publisher := after)
    case Reset(blank) => s.(publisher := ResetGraphics(p, blank))
    case HandlerError => var (q, d) := Fail(p, c); State(q, d)
    case SessionRequest => var (q, d, _) := RequestBaseFrame(p, c); State(q, d)
    case BeginTransition(epoch) => s.(publisher := BeginFrameTransition(p, epoch))
    case Reactivate(epoch) => s.(publisher := PrepareForReactivation(p, epoch))
    case Receive => s.(channel := TryRecv(c).0)
    case OtherOutput(output) => s.(channel := TrySend(c, output).0)
    case OtherControl(control) => s.(channel := SendControl(c, control).0)
    case ReceiverGone => s.(channel := DropReceiver(c))
  }

  lemma OtherOutputKeepsInv(p: Publisher, c: Channel, output: Output)
    requires Inv(p, c) && (output.Cursor? || p.needsBase)
    ensures Inv(p, TrySend(c, output).0)
  {
    hide Replay, Coherent;
    if TrySend(c, output).1 == Sent {
      SentIsShown(c, output);
    }
  }

  lemma ReceiveKeepsInv(p: Publisher, c: Channel)
    requires Inv(p, c)
    ensures Inv(p, TryRecv(c).0)
  {
    RecvKeepsShown(c);
    hide Replay, Coherent;
  }

  lemma StepKeepsInv(s: State, e: Event)
    requires Inv(s.publisher, s.channel) && Enabled(s, e)
    ensures var t := Step(s, e); Inv(t.publisher, t.channel)
  {
    hide Replay, Coherent, OnFrameComplete, RequestBaseFrame, TrySend, TryRecv, Composited;
    match e
    case FrameComplete => OnFrameCompleteKeepsInv(s.publisher, s.channel);
    case Composite(regions, after) => CompositeKeepsInv(s.publisher, after, s.channel, regions);
    case Reset(_) =>
    case HandlerError => FailKeepsInv(s.publisher, s.channel);
    case SessionRequest => RequestKeepsInv(s.publisher, s.channel);
    case BeginTransition(_) =>
    case Reactivate(_) =>
    case Receive => ReceiveKeepsInv(s.publisher, s.channel);
    case OtherOutput(output) => OtherOutputKeepsInv(s.publisher, s.channel, output);
    case OtherControl(_) =>
    case ReceiverGone =>
  }

  /**
   * `run[i]` is the state before `events[i]`; every event was possible when it happened. `Step` is defined
   * on well-formed renderers only, so a run owes nothing after a state that is not.
   */
  ghost predicate IsRun(run: seq<State>, events: seq<Event>, epoch: u64, capacity: nat) {
    && |run| == |events| + 1
    && run[0] == State(Initial.(epoch := epoch), Channel([], capacity, true, true, None, []))
    && forall i | 0 <= i < |events| ::
         Enabled(run[i], events[i]) && (WellFormed(run[i].publisher) ==> run[i + 1] == Step(run[i], events[i]))
  }

  /**
   * Delta-chain soundness: at every point of every run, whatever the interleaving of writes, publications,
   * refusals, receptions, recoveries, reactivations and outputs of the bitmap path, a renderer that owes no base
   * frame has a viewer that, after draining the queue, shows this epoch's desktop at every pixel outside the
   * pending dirty rectangles.
   */
  lemma {:induction false} RunsStayCoherent(run: seq<State>, events: seq<Event>, epoch: u64, capacity: nat, at: nat)
    requires IsRun(run, events, epoch, capacity) && at < |run|
    ensures Inv(run[at].publisher, run[at].channel)
    ensures var p := run[at].publisher;
            !p.failed && !p.needsBase ==>
              p.desktop.Some? && Coherent(Shown(run[at].channel), p.desktop.value, p.dirty, p.epoch)
  {
    if at > 0 {
      RunsStayCoherent(run, events, epoch, capacity, at - 1);
      StepKeepsInv(run[at - 1], events[at - 1]);
    }
  }
}
