// How often a session reports Connected (plugins/rdp/src/client_session.rs and plugins/rdp/src/egfx.rs).

module ReadyEvents {
  import opened FixedWidth
  import opened DirtyRects
  import opened Viewer
  import opened GraphicsChannel
  import opened EgfxPublication
  import opened FramePublication
  import opened RdpSession

  function ConnectedCount(log: seq<Emission>): nat {
    if log == [] then 0
    else ConnectedCount(log[..|log| - 1]) + (if IsConnected(log[|log| - 1]) then 1 else 0)
  }

  predicate IsConnected(e: Emission) {
    e.ToControl? && e.control.Connected?
  }

  predicate IsBaseFrame(e: Emission) {
    e.ToGraphics? && e.output.Frame?
  }

  /** Connected is never reported before a base frame was queued. */
  ghost predicate BaseFirst(log: seq<Emission>) {
    forall i | 0 <= i < |log| && IsConnected(log[i]) :: exists j | 0 <= j < i :: IsBaseFrame(log[j])
  }

  function Flag(raised: bool): nat {
    if raised then 1 else 0
  }

  /** Between these two moments Connected was reported exactly when the producer's flag was raised. */
  ghost predicate Announces(c: Channel, d: Channel, before: bool, after: bool) {
    && c.log <= d.log
    && ConnectedCount(d.log) + Flag(before) == ConnectedCount(c.log) + Flag(after)
    && (BaseFirst(c.log) ==> BaseFirst(d.log))
  }

  lemma AnnouncesTrans(a: Channel, b: Channel, c: Channel, first: bool, second: bool, third: bool)
    requires Announces(a, b, first, second) && Announces(b, c, second, third)
    ensures Announces(a, c, first, third)
  {
    hide BaseFirst, ConnectedCount;
  }

  lemma Extended(c: Channel, d: Channel, e: Emission, before: bool)
    requires d.log == c.log + [e]
    requires IsConnected(e) ==> !before && exists j | 0 <= j < |c.log| :: IsBaseFrame(c.log[j])
    ensures Announces(c, d, before, before || IsConnected(e))
  {
    assert d.log[..|d.log| - 1] == c.log;
    if BaseFirst(c.log) {
      forall i | 0 <= i < |d.log| && IsConnected(d.log[i]) ensures exists j | 0 <= j < i :: IsBaseFrame(d.log[j]) {
        if i < |c.log| {
          assert IsConnected(c.log[i]);
          var j :| 0 <= j < i && IsBaseFrame(c.log[j]);
          assert IsBaseFrame(d.log[j]);
        } else {
          var j :| 0 <= j < |c.log| && IsBaseFrame(c.log[j]);
          assert IsBaseFrame(d.log[j]);
        }
      }
    }
  }

  lemma SendAnnounces(c: Channel, output: Output, flag: bool)
    ensures Announces(c, TrySend(c, output).0, flag, flag)
  {
    hide Announces;
    Unchanged(c, flag);
    if TrySend(c, output).1 == Sent {
      Extended(c, TrySend(c, output).0, ToGraphics(output), flag);
    }
  }

  lemma Unchanged(c: Channel, flag: bool)
    ensures Announces(c, c, flag, flag)
    ensures forall d: Channel | d.log == c.log :: Announces(c, d, flag, flag)
  {
  }

  lemma ControlAnnounces(c: Channel, control: Control, flag: bool)
    requires !control.Connected?
    ensures Announces(c, SendControl(c, control).0, flag, flag)
  {
    hide Announces;
    Unchanged(c, flag);
    if c.controlOpen {
      Extended(c, SendControl(c, control).0, ToControl(control), flag);
    }
  }

  lemma ReadyAnnounces(c: Channel, width: nat, height: nat)
    requires exists j | 0 <= j < |c.log| :: IsBaseFrame(c.log[j])
    ensures Announces(c, SendReady(c, width, height).0, false, SendReady(c, width, height).1)
  {
    hide Announces;
    Unchanged(c, false);
    if c.controlOpen {
      var connected := SendControl(c, Connected(width, height)).0;
      Extended(c, connected, ToControl(Connected(width, height)), false);
      ControlAnnounces(connected, ConnectedStatus, true);
      AnnouncesTrans(c, connected, SendReady(c, width, height).0, false, true, true);
    }
  }

  /** A base frame, followed by the ready events if this producer has not sent them yet. */
  lemma BaseAnnounces(c: Channel, frame: Output, ready: bool, published: bool)
    requires frame.Frame? && c.receiverAlive
    ensures var c1 := TrySend(c, frame).0;
            && Announces(c, c1, published, published)
            && (ready && !published ==>
                  forall width: nat, height: nat ::
                    Announces(c, SendReady(c1, width, height).0, false, SendReady(c1, width, height).1))
  {
    hide Announces;
    var c1 := TrySend(c, frame).0;
    SendAnnounces(c, frame, published);
    if ready && !published {
      forall width: nat, height: nat
        ensures Announces(c, SendReady(c1, width, height).0, false, SendReady(c1, width, height).1)
      {
        assert IsBaseFrame(c1.log[|c.log|]);
        ReadyAnnounces(c1, width, height);
        AnnouncesTrans(c, c1, SendReady(c1, width, height).0, false, false, SendReady(c1, width, height).1);
      }
    }
  }

  // ----- each producer's steps -----

  lemma PublishBaseFrameAnnounces(p: Publisher, c: Channel, ready: bool)
    ensures var (q, d, ok) := PublishBaseFrame(p, c, ready); Announces(c, d, p.publishedFirst, q.publishedFirst)
  {
    hide Announces, SendReady;
    Unchanged(c, p.publishedFirst);
    if !p.awaiting && p.desktop.Some? && c.receiverAlive {
      BaseAnnounces(c, Frame(p.desktop.value, p.epoch, NextTraceId(p.traceId)), ready, p.publishedFirst);
    }
  }

  lemma PublishCompletedAnnounces(p: Publisher, c: Channel)
    requires WellFormed(p)
    ensures var (q, d, ok) := PublishCompletedFrame(p, c); Announces(c, d, p.publishedFirst, q.publishedFirst)
  {
    hide Announces, PublishBaseFrame, PromotesToBase, Deltas;
    Unchanged(c, p.publishedFirst);
    if !p.awaiting && p.dirty != [] && p.desktop.Some? {
      PublishBaseFrameAnnounces(p.(dirty := []), c, true);
      if !p.needsBase && !PromotesToBase(p.dirty, p.desktop.value.width, p.desktop.value.height) {
        SendAnnounces(c, DeltaOutput(Deltas(p.desktop.value, p.dirty, p.epoch, NextTraceId(p.traceId))),
          p.publishedFirst);
      }
    }
  }

  lemma RendererAnnounces(p: Publisher, c: Channel, event: EgfxPublication.Event)
    requires WellFormed(p) && RendererEvent(event) && EgfxPublication.Enabled(EgfxPublication.State(p, c), event)
    ensures var t := EgfxPublication.Step(EgfxPublication.State(p, c), event);
            Announces(c, t.channel, p.publishedFirst, t.publisher.publishedFirst)
  {
    hide Announces, PublishCompletedFrame;
    Unchanged(c, p.publishedFirst);
    if event.FrameComplete? && !p.failed {
      var (q, d, ok) := PublishCompletedFrame(p, c);
      PublishCompletedAnnounces(p, c);
      ControlAnnounces(d, ProtocolFailure, q.publishedFirst);
      AnnouncesTrans(c, d, SendControl(d, ProtocolFailure).0, p.publishedFirst, q.publishedFirst, q.publishedFirst);
    }
    ControlAnnounces(c, ProtocolFailure, p.publishedFirst);
  }

  lemma SendBaseAnnounces(f: FrameState, c: Channel, image: Image, ready: bool)
    ensures var (g, d, ok) := SendBase(f, c, image, ready); Announces(c, d, f.publishedFirst, g.publishedFirst)
  {
    hide Announces, SendReady, OpaqueImage;
    Unchanged(c, f.publishedFirst);
    if !f.awaiting && c.receiverAlive {
      BaseAnnounces(c, Frame(OpaqueImage(image), f.epoch, NextTraceId(f.traceId)), ready, f.publishedFirst);
    }
  }

  lemma FlushAnnounces(f: FrameState, c: Channel, image: Image, ready: bool)
    requires FrameWellFormed(f, image)
    ensures var (g, d, ok) := Flush(f, c, image, ready); Announces(c, d, f.publishedFirst, g.publishedFirst)
  {
    hide Announces, SendBase, CoversFrame, Deltas, Image.Valid;
    Unchanged(c, f.publishedFirst);
    if !f.awaiting && ready && f.accumulator != [] {
      SendBaseAnnounces(f.(accumulator := []), c, image, true);
      OpaqueValid(image);
      SendAnnounces(c, DeltaOutput(Deltas(OpaqueImage(image), f.accumulator, f.epoch, NextTraceId(f.traceId))),
        f.publishedFirst);
    }
  }

  lemma SendUpdateAnnounces(f: FrameState, c: Channel, image: Image, region: InclusiveRectangle, queued: seq<Rect>,
                            ready: bool)
    requires FrameWellFormed(f, image)
    requires Accumulates(f, image, region) ==>
               QueuedAs(queued, f.accumulator, UpdateRect(image.width, image.height, region, f.needsBase).value)
    ensures var (g, d, ok) := SendUpdate(f, c, image, region, queued, ready);
            Announces(c, d, f.publishedFirst, g.publishedFirst)
  {
    hide Announces, SendBase, Flush, CoversFrame, ShouldPromote, QueuedAs, Image.Valid;
    Unchanged(c, f.publishedFirst);
    SendBaseAnnounces(f, c, image, true);
    SendBaseAnnounces(f.(accumulator := []), c, image, true);
    if Accumulates(f, image, region) {
      var rect := UpdateRect(image.width, image.height, region, f.needsBase).value;
      QueuedWellFormed(f, image, rect, queued);
      FlushAnnounces(f.(accumulator := queued), c, image, ready);
    }
  }

  // ----- sessions -----

  function Raised(s: Session): nat {
    Flag(s.frame.publishedFirst) + Flag(s.egfx.Some? && s.egfx.value.publishedFirst)
  }

  /** Connected has been reported exactly as often as the producers' flags say, always after a base frame. */
  ghost predicate ReadyCounted(s: Session) {
    ConnectedCount(s.channel.log) == Raised(s) && BaseFirst(s.channel.log)
  }

  lemma DeactivateCounts(s: Session)
    requires ReadyCounted(s)
    ensures ReadyCounted(Deactivate(s))
  {
    hide BaseFirst, ConnectedCount;
    var epoch := Max(SaturatingAdd64(s.frame.epoch, 1), 1);
    ControlAnnounces(s.channel, FrameStreamReset(epoch), s.frame.publishedFirst);
  }

  lemma RequestCounts(s: Session)
    requires ReadyCounted(s) && SessionWellFormed(s)
    ensures ReadyCounted(HandleRequestFrame(s))
  {
    hide BaseFirst, ConnectedCount, SendBase, PublishBaseFrame, WellFormed;
    var c := s.channel;
    if s.egfx.Some? {
      PublishBaseFrameAnnounces(s.egfx.value, s.channel, false);
      c := RequestBaseFrame(s.egfx.value, s.channel).1;
    }
    SendBaseAnnounces(s.frame, c, s.image, false);
  }

  lemma HandleCounts(s: Session, output: StageOutput, queued: seq<Rect>, ready: bool)
    requires ReadyCounted(s) && FrameWellFormed(s.frame, s.image)
    requires output.GraphicsUpdate? && Accumulates(s.frame, s.image, output.region) ==>
               QueuedAs(queued, s.frame.accumulator,
                 UpdateRect(s.image.width, s.image.height, output.region, s.frame.needsBase).value)
    ensures ReadyCounted(Handle(s, output, queued, ready))
  {
    hide BaseFirst, ConnectedCount, SendUpdate, Deactivate, FrameWellFormed, Accumulates;
    match output
    case GraphicsUpdate(region) => SendUpdateAnnounces(s.frame, s.channel, s.image, region, queued, ready);
    case DeactivateAll => DeactivateCounts(s);
    case Pointer => SendAnnounces(s.channel, Cursor, false);
  }

  lemma StepCounts(s: Session, e: RdpSession.Event)
    requires ReadyCounted(s) && SessionWellFormed(s) && RdpSession.Enabled(s, e)
    ensures ReadyCounted(RdpSession.Step(s, e))
  {
    hide BaseFirst, ConnectedCount, SendBase, Flush, Handle, HandleRequestFrame, EgfxPublication.Step, FrameWellFormed,
      WellFormed;
    hide Regions, ChangedAsReported;
    RecvKeepsLog(s.channel);
    if !s.ended {
      match e
      case HandleOutput(queued, ready) => HandleCounts(s, s.outputs[0], queued, ready);
      case FlushBase => SendBaseAnnounces(s.frame, s.channel, s.image, s.frame.pendingBaseReady);
      case FlushGraphics(ready) => FlushAnnounces(s.frame, s.channel, s.image, ready);
      case RequestFrame => RequestCounts(s);
      case Egfx(event) => RendererAnnounces(s.egfx.value, s.channel, event);
      case _ =>
    }
  }

  /**
   * Over every run, with one producer or both: Connected is reported once for each producer that published a first
   * frame, and never before a base frame.
   */
  lemma {:induction false} RunsCountReady(run: seq<Session>, events: seq<RdpSession.Event>, epoch: u64, image: Image,
                                          withEgfx: bool, capacity: nat, at: nat)
    requires RdpSession.IsRun(run, events, epoch, image, withEgfx, capacity) && at < |run|
    ensures ReadyCounted(run[at])
  {
    hide RdpSession.Step, RdpSession.Enabled, BaseFirst;
    if at > 0 {
      RunsCountReady(run, events, epoch, image, withEgfx, capacity, at - 1);
      RunsKeepEpochOrder(run, events, epoch, image, withEgfx, capacity, at - 1);
      StepCounts(run[at - 1], events[at - 1]);
    } else {
      StartCounts(epoch, image, withEgfx, capacity);
    }
  }

  lemma StartCounts(epoch: u64, image: Image, withEgfx: bool, capacity: nat)
    ensures ReadyCounted(StartSession(epoch, image, withEgfx, capacity))
  {
  }
}
