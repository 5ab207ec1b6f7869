// What a second graphics producer costs: a session in which the bitmap path and the EGFX renderer both publish
// (plugins/rdp/src/client_session.rs and plugins/rdp/src/egfx.rs), and what holds exactly without one.

module TwoProducers {
  import opened Wrappers
  import opened FixedWidth
  import opened DirtyRects
  import opened Viewer
  import opened GraphicsChannel
  import opened EgfxPublication
  import opened FramePublication
  import opened RdpSession
  import opened ReadyEvents

  function FullRegion(image: Image): InclusiveRectangle
    requires image.width > 0 && image.height > 0
  {
    InclusiveRectangle(0, 0, image.width - 1, image.height - 1)
  }

  /** An update of the whole image is published as a base frame, and as the first one it reports Connected. */
  lemma BitmapPublishes(s: Session)
    requires s.image.Valid() && s.channel.receiverAlive && s.channel.controlOpen
    requires FrameWellFormed(s.frame, s.image) && !s.frame.awaiting && !s.ended
    ensures var t := Handle(s, GraphicsUpdate(FullRegion(s.image)), [], false);
            && t == s.(frame := t.frame, channel := t.channel)
            && t.frame == s.frame.(needsBase := false, accumulator := [], pendingBase := false,
                                   pendingBaseReady := false, publishedFirst := true, traceId := t.frame.traceId)
            && t.channel == s.channel.(queue := t.channel.queue, log := t.channel.log)
            && Shown(t.channel) == Some(Screen(OpaqueImage(s.image), s.frame.epoch))
  {
    hide OpaqueImage, AllWithin;
    var base := Frame(OpaqueImage(s.image), s.frame.epoch, NextTraceId(s.frame.traceId));
    SentIsShown(s.channel, base);
  }

  /** A renderer that is given a desktop publishes it with the next completed frame, and reports Connected again. */
  lemma RendererPublishes(p: Publisher, c: Channel, blank: Image)
    requires blank.Valid() && c.receiverAlive && c.controlOpen && !p.awaiting && !p.failed
    ensures var reset := ResetGraphics(p, blank);
            var t := EgfxPublication.Step(EgfxPublication.State(reset, c), FrameComplete);
            && t.publisher == reset.(needsBase := false, dirty := [], publishedFirst := true,
                                     traceId := t.publisher.traceId)
            && t.channel == c.(queue := t.channel.queue, log := t.channel.log)
            && Shown(t.channel) == Some(Screen(blank, p.epoch))
  {
    hide PromotesToBase;
    SentIsShown(c, Frame(blank, p.epoch, NextTraceId(p.traceId)));
  }

  lemma PositiveSides(image: Image)
    requires image.Valid()
    ensures image.width > 0 && image.height > 0
  {
  }

  ghost predicate OneStep(s: Session, e: RdpSession.Event, t: Session) {
    RdpSession.Enabled(s, e) && (SessionWellFormed(s) ==> t == RdpSession.Step(s, e))
  }

  lemma SamePicture(s: Session, update: StageOutput)
    requires s.outputs == [] && s.image.Valid() && !s.ended
    ensures OneStep(s, ServerFrame(s.image, [update]), s.(outputs := [update]))
  {
    hide Regions;
  }

  lemma FullUpdate(s: Session)
    requires s.image.Valid() && !s.ended && s.outputs == [GraphicsUpdate(FullRegion(s.image))]
    requires FrameWellFormed(s.frame, s.image)
    ensures OneStep(s, HandleOutput([], false), Handle(s, s.outputs[0], [], false).(outputs := []))
  {
    hide SendUpdate;
  }

  lemma RendererSteps(s: Session, event: EgfxPublication.Event)
    requires s.egfx.Some? && !s.ended && RendererEvent(event) && WellFormed(s.egfx.value)
    requires EgfxPublication.Enabled(EgfxPublication.State(s.egfx.value, s.channel), event)
    ensures var t := EgfxPublication.Step(EgfxPublication.State(s.egfx.value, s.channel), event);
            OneStep(s, Egfx(event), s.(egfx := Some(t.publisher), channel := t.channel))
  {
    hide EgfxPublication.Step;
  }

  lemma ResetStep(p: Publisher, c: Channel, blank: Image)
    requires WellFormed(p) && blank.Valid()
    ensures EgfxPublication.Step(EgfxPublication.State(p, c), Reset(blank))
            == EgfxPublication.State(ResetGraphics(p, blank), c)
    ensures WellFormed(ResetGraphics(p, blank))
  {
  }

  lemma StepsAreRun(run: seq<Session>, events: seq<RdpSession.Event>, epoch: u64, image: Image, capacity: nat)
    requires |run| == |events| + 1 && image.Valid() && run[0] == StartSession(epoch, image, true, capacity)
    requires forall i | 0 <= i < |events| :: OneStep(run[i], events[i], run[i + 1])
    ensures RdpSession.IsRun(run, events, epoch, image, true, capacity)
  {
    hide RdpSession.Enabled, RdpSession.Step, SessionWellFormed;
    forall i | 0 <= i < |events|
      ensures RdpSession.Enabled(run[i], events[i])
      ensures SessionWellFormed(run[i]) ==> run[i + 1] == RdpSession.Step(run[i], events[i])
    {
      assert OneStep(run[i], events[i], run[i + 1]);
    }
  }

  /** The bitmap path and then the renderer publish a first picture: both are synced, and the renderer's is shown. */
  lemma BothPublish(epoch: u64, image: Image, desktop: Image, capacity: nat)
    returns (run: seq<Session>, events: seq<RdpSession.Event>)
    requires image.Valid() && desktop.Valid()
    ensures RdpSession.IsRun(run, events, epoch, image, true, capacity) && run != []
    ensures var s := run[|run| - 1];
            && !s.ended && s.image == image && s.outputs == []
            && FrameWellFormed(s.frame, image) && !s.frame.needsBase && !s.frame.awaiting && s.frame.publishedFirst
            && s.frame.epoch == epoch && s.reactivation.None? && s.channel.receiverAlive && s.channel.controlOpen
            && s.egfx.Some? && s.egfx.value.desktop == Some(desktop) && !s.egfx.value.needsBase
            && !s.egfx.value.failed && s.egfx.value.publishedFirst
            && Shown(s.channel) == Some(Screen(desktop, epoch))
  {
    hide Handle, EgfxPublication.Step, SessionWellFormed, OneStep, Image.Valid, Replay;
    assert image.width > 0 && image.height > 0 by { PositiveSides(image); }
    var update := GraphicsUpdate(FullRegion(image));
    var s0 := StartSession(epoch, image, true, capacity);
    var s1 := s0.(outputs := [update]);
    BitmapPublishes(s1);
    var s2 := Handle(s1, update, [], false).(outputs := []);
    var reset := ResetGraphics(s2.egfx.value, desktop);
    var s3 := s2.(egfx := Some(reset));
    RendererPublishes(s2.egfx.value, s2.channel, desktop);
    var last := EgfxPublication.Step(EgfxPublication.State(reset, s3.channel), FrameComplete);
    var s4 := s3.(egfx := Some(last.publisher), channel := last.channel);
    SamePicture(s0, update);
    FullUpdate(s1);
    ResetStep(s2.egfx.value, s2.channel, desktop);
    RendererSteps(s2, Reset(desktop));
    RendererSteps(s3, FrameComplete);
    run := [s0, s1, s2, s3, s4];
    events := [ServerFrame(image, [update]), HandleOutput([], false), Egfx(Reset(desktop)), Egfx(FrameComplete)];
    assert OneStep(run[0], events[0], run[1]) && OneStep(run[1], events[1], run[2]);
    assert OneStep(run[2], events[2], run[3]) && OneStep(run[3], events[3], run[4]);
    StepsAreRun(run, events, epoch, image, capacity);
  }

  /** The bitmap path publishes once more, under a renderer that still takes itself for synced. */
  lemma BitmapPublishesLast(epoch: u64, image: Image, desktop: Image, capacity: nat)
    returns (run: seq<Session>, events: seq<RdpSession.Event>)
    requires image.Valid() && desktop.Valid()
    ensures RdpSession.IsRun(run, events, epoch, image, true, capacity) && run != []
    ensures var s := run[|run| - 1];
            && s.egfx.Some? && !s.egfx.value.needsBase && !s.egfx.value.failed && s.egfx.value.desktop == Some(desktop)
            && Shown(s.channel) == Some(Screen(OpaqueImage(image), epoch))
  {
    hide Handle, RdpSession.IsRun, OneStep, Image.Valid, Replay, OpaqueImage;
    assert image.width > 0 && image.height > 0 by { PositiveSides(image); }
    var update := GraphicsUpdate(FullRegion(image));
    run, events := BothPublish(epoch, image, desktop, capacity);
    var s4 := run[|run| - 1];
    var s5 := s4.(outputs := [update]);
    BitmapPublishes(s5);
    SamePicture(s4, update);
    run, events := AnotherStep(run, events, ServerFrame(image, [update]), s5, epoch, image, capacity);
    FullUpdate(s5);
    run, events := AnotherStep(run, events, HandleOutput([], false), Handle(s5, update, [], false).(outputs := []),
      epoch, image, capacity);
  }

  lemma AnotherStep(run: seq<Session>, events: seq<RdpSession.Event>, e: RdpSession.Event, t: Session, epoch: u64,
                    image: Image, capacity: nat)
    returns (longer: seq<Session>, more: seq<RdpSession.Event>)
    requires RdpSession.IsRun(run, events, epoch, image, true, capacity)
    requires run != [] && OneStep(run[|run| - 1], e, t)
    ensures RdpSession.IsRun(longer, more, epoch, image, true, capacity)
    ensures longer != [] && longer[|longer| - 1] == t
  {
    hide RdpSession.Enabled, RdpSession.Step, SessionWellFormed;
    longer, more := run + [t], events + [e];
    forall i | 0 <= i < |more| ensures OneStep(longer[i], more[i], longer[i + 1]) {
    }
    StepsAreRun(longer, more, epoch, image, capacity);
  }

  // ----- sessions with one producer -----

  lemma StepKeepsSingle(s: Session, e: RdpSession.Event)
    requires SessionWellFormed(s) && RdpSession.Enabled(s, e) && s.egfx.None?
    ensures RdpSession.Step(s, e).egfx.None?
  {
    hide SendUpdate, Flush, SendBase, Regions, ChangedAsReported, FrameWellFormed;
  }

  lemma {:induction false} WithoutRenderer(run: seq<Session>, events: seq<RdpSession.Event>, epoch: u64, image: Image,
                                           capacity: nat, at: nat)
    requires RdpSession.IsRun(run, events, epoch, image, false, capacity) && at < |run|
    ensures run[at].egfx.None?
  {
    hide RdpSession.Step, RdpSession.Enabled;
    if at > 0 {
      WithoutRenderer(run, events, epoch, image, capacity, at - 1);
      RunsKeepEpochOrder(run, events, epoch, image, false, capacity, at - 1);
      StepKeepsSingle(run[at - 1], events[at - 1]);
    }
  }

  // ----- what exactly one producer buys -----

  /** No session of this configuration ever reports Connected twice. */
  ghost predicate ConnectedAtMostOnce(epoch: u64, image: Image, withEgfx: bool, capacity: nat) {
    forall run: seq<Session>, events: seq<RdpSession.Event>, at: nat
      | RdpSession.IsRun(run, events, epoch, image, withEgfx, capacity) && at < |run| ::
      ConnectedCount(run[at].channel.log) <= 1
  }

  /** In every session of this configuration a synced bitmap path has its image shown. */
  ghost predicate AlwaysCoherent(epoch: u64, image: Image, withEgfx: bool, capacity: nat) {
    forall run: seq<Session>, events: seq<RdpSession.Event>, at: nat
      | RdpSession.IsRun(run, events, epoch, image, withEgfx, capacity) && at < |run| ::
      BitmapInv(run[at])
  }

  /** Connected is reported once at most in every session of a configuration exactly when it leaves EGFX out. */
  lemma WhenConnectedOnce(epoch: u64, image: Image, withEgfx: bool, capacity: nat)
    requires image.Valid()
    ensures ConnectedAtMostOnce(epoch, image, withEgfx, capacity) <==> !withEgfx
  {
    hide RdpSession.IsRun, ConnectedCount, BaseFirst, Replay;
    if withEgfx {
      var run, events := BothPublish(epoch, image, image, capacity);
      RunsCountReady(run, events, epoch, image, true, capacity, |run| - 1);
      assert ConnectedCount(run[|run| - 1].channel.log) == 2;
    } else {
      forall run: seq<Session>, events: seq<RdpSession.Event>, at: nat
        | RdpSession.IsRun(run, events, epoch, image, false, capacity) && at < |run|
        ensures ConnectedCount(run[at].channel.log) <= 1
      {
        RunsCountReady(run, events, epoch, image, false, capacity, at);
        WithoutRenderer(run, events, epoch, image, capacity, at);
      }
    }
  }

  /**
   * The flag that says the bitmap path is synced can be trusted in every session exactly when EGFX is left out;
   * beside one it holds as long as the renderer enqueues no picture meanwhile (`RdpSession.RunsStayCoherent`).
   */
  lemma WhenBitmapCoherent(epoch: u64, image: Image, withEgfx: bool, capacity: nat)
    requires image.Valid()
    ensures AlwaysCoherent(epoch, image, withEgfx, capacity) <==> !withEgfx
  {
    hide RdpSession.IsRun, BitmapInv, Replay;
    if withEgfx {
      var desktop := OtherSize(image);
      var run, events := BothPublish(epoch, image, desktop, capacity);
      assert !BitmapInv(run[|run| - 1]) by { WrongSize(run[|run| - 1], desktop); }
    } else {
      forall run: seq<Session>, events: seq<RdpSession.Event>, at: nat
        | RdpSession.IsRun(run, events, epoch, image, false, capacity) && at < |run|
        ensures BitmapInv(run[at])
      {
        SingleIsCoherent(run, events, epoch, image, capacity, at);
      }
    }
  }

  function OtherSize(image: Image): (r: Image)
    ensures r.Valid() && r.width != image.width
  {
    var width := if image.width == 1 then 2 else 1;
    Image(width, 1, seq(4 * width, _ => 0))
  }

  /** Nor can the renderer's own flag be trusted: `RdpSession.RendererStaysCoherent` needs its hypothesis as well. */
  lemma RendererDisturbed(epoch: u64, image: Image, capacity: nat)
    returns (run: seq<Session>, events: seq<RdpSession.Event>)
    requires image.Valid()
    ensures RdpSession.IsRun(run, events, epoch, image, true, capacity) && run != []
    ensures !RendererInv(run[|run| - 1])
  {
    hide RdpSession.IsRun, Replay;
    run, events := BitmapPublishesLast(epoch, image, OtherSize(image), capacity);
  }

  lemma WrongSize(s: Session, desktop: Image)
    requires !s.ended && !s.frame.needsBase && desktop.width != s.image.width
    requires Shown(s.channel).Some? && Shown(s.channel).value.image == desktop
    ensures !BitmapInv(s)
  {
  }

  lemma SingleIsCoherent(run: seq<Session>, events: seq<RdpSession.Event>, epoch: u64, image: Image, capacity: nat,
                         at: nat)
    requires RdpSession.IsRun(run, events, epoch, image, false, capacity) && at < |run|
    ensures BitmapInv(run[at])
  {
    forall i | 0 <= i < at ensures BitmapUndisturbed(run[i], events[i], run[i + 1]) {
      WithoutRenderer(run, events, epoch, image, capacity, i);
    }
    RdpSession.RunsStayCoherent(run, events, epoch, image, false, capacity, 0, at);
  }
}
