// Which terminal prediction an acknowledged protocol frame confirms (plugins/mosh/src/engine.rs).

module MoshPredictions {
  import opened Wrappers
  import opened FixedWidth

  datatype Prediction = Prediction(frame: u64, id: u64)

  type FrameMap = map<u64, u64>

  /** `record`: several predictions in one frame keep the largest id. */
  function Record(m: FrameMap, p: Prediction): FrameMap {
    m[p.frame := if p.frame in m then Max(m[p.frame], p.id) else p.id]
  }

  /** `frame` is the last recorded frame not after `acknowledged`. */
  ghost predicate LastFrame(m: FrameMap, acknowledged: u64, frame: u64) {
    frame in m && frame <= acknowledged && forall f | f in m && f <= acknowledged :: f <= frame
  }

  function Retain(m: FrameMap, acknowledged: u64): FrameMap {
    map frame | frame in m && frame > acknowledged :: m[frame]
  }

  /** What acknowledging a frame must return. */
  ghost predicate Acknowledges(m: FrameMap, acknowledged: u64, r: Option<u64>) {
    match r
    case None => forall frame | frame in m :: frame > acknowledged
    case Some(id) => exists frame :: LastFrame(m, acknowledged, frame) && m[frame] == id
  }

  lemma {:induction false} HasLastFrame(m: FrameMap, acknowledged: u64, some: u64)
    requires some in m && some <= acknowledged
    ensures exists frame :: LastFrame(m, acknowledged, frame)
    decreases acknowledged - some
  {
    if exists later :: later in m && some < later <= acknowledged {
      var later :| later in m && some < later <= acknowledged;
      HasLastFrame(m, acknowledged, later);
    } else {
      assert LastFrame(m, acknowledged, some);
    }
  }

  // ----- the simple form: a queue of predictions not yet acknowledged -----

  /** Predictions are made in order: their frames never decrease and their ids always increase. */
  ghost predicate Ordered(pending: seq<Prediction>) {
    forall i, j | 0 <= i < j < |pending| :: pending[i].frame <= pending[j].frame && pending[i].id < pending[j].id
  }

  /** How many of the first predictions lie in acknowledged frames. */
  function Acknowledged(pending: seq<Prediction>, acknowledged: u64): (n: nat)
    ensures n <= |pending|
  {
    if pending == [] || pending[0].frame > acknowledged then 0 else 1 + Acknowledged(pending[1..], acknowledged)
  }

  lemma {:induction false} AcknowledgedSplits(pending: seq<Prediction>, acknowledged: u64)
    requires Ordered(pending)
    ensures var n := Acknowledged(pending, acknowledged);
            && (forall i | 0 <= i < n :: pending[i].frame <= acknowledged)
            && (forall i | n <= i < |pending| :: pending[i].frame > acknowledged)
  {
    if pending != [] && pending[0].frame <= acknowledged {
      AcknowledgedSplits(pending[1..], acknowledged);
      var n := Acknowledged(pending, acknowledged);
      forall i | 0 <= i < |pending|
        ensures if i < n then pending[i].frame <= acknowledged else pending[i].frame > acknowledged
      {
        assert i > 0 ==> pending[i] == pending[1..][i - 1];
      }
    }
  }

  /** The map of a queue: for each frame with a prediction, the largest id among them. */
  ghost predicate MapOf(m: FrameMap, pending: seq<Prediction>) {
    && (forall i | 0 <= i < |pending| :: pending[i].frame in m && pending[i].id <= m[pending[i].frame])
    && (forall frame | frame in m :: exists i | 0 <= i < |pending| :: pending[i] == Prediction(frame, m[frame]))
  }

  lemma RecordRefines(m: FrameMap, pending: seq<Prediction>, p: Prediction)
    requires MapOf(m, pending)
    ensures MapOf(Record(m, p), pending + [p])
  {
    var after, grown := Record(m, p), pending + [p];
    forall frame | frame in after ensures exists i | 0 <= i < |grown| :: grown[i] == Prediction(frame, after[frame]) {
      if frame == p.frame && after[frame] == p.id {
        assert grown[|pending|] == Prediction(frame, after[frame]);
      } else {
        var i :| 0 <= i < |pending| && pending[i] == Prediction(frame, m[frame]);
        assert grown[i] == Prediction(frame, after[frame]);
      }
    }
  }

  /** An acknowledgement retires the front of the queue and returns the last, largest id it retires. */
  lemma AcknowledgeRefines(m: FrameMap, pending: seq<Prediction>, acknowledged: u64, r: Option<u64>)
    requires MapOf(m, pending) && Ordered(pending) && Acknowledges(m, acknowledged, r)
    ensures var n := Acknowledged(pending, acknowledged);
            && MapOf(Retain(m, acknowledged), pending[n..])
            && r == if n == 0 then None else Some(pending[n - 1].id)
  {
    hide MapOf, Acknowledges, Acknowledged, Ordered, Retain, LastFrame;
    var n := Acknowledged(pending, acknowledged);
    AcknowledgedSplits(pending, acknowledged);
    RetainRefines(m, pending, acknowledged, n);
    AcknowledgeReturns(m, pending, acknowledged, r, n);
  }

  lemma AcknowledgeReturns(m: FrameMap, pending: seq<Prediction>, acknowledged: u64, r: Option<u64>, n: nat)
    requires MapOf(m, pending) && Ordered(pending) && Acknowledges(m, acknowledged, r) && n <= |pending|
    requires forall i | 0 <= i < n :: pending[i].frame <= acknowledged
    requires forall i | n <= i < |pending| :: pending[i].frame > acknowledged
    ensures r == if n == 0 then None else Some(pending[n - 1].id)
  {
    if n > 0 {
      var last := pending[n - 1];
      assert last.frame in m && last.frame <= acknowledged;
      var frame :| LastFrame(m, acknowledged, frame) && r == Some(m[frame]);
      var i :| 0 <= i < |pending| && pending[i] == Prediction(frame, m[frame]);
      assert i <= n - 1;
      assert last.frame == frame && last.id <= m[frame];
    }
  }

  lemma RetainRefines(m: FrameMap, pending: seq<Prediction>, acknowledged: u64, n: nat)
    requires MapOf(m, pending) && n <= |pending|
    requires forall i | 0 <= i < n :: pending[i].frame <= acknowledged
    requires forall i | n <= i < |pending| :: pending[i].frame > acknowledged
    ensures MapOf(Retain(m, acknowledged), pending[n..])
  {
    var after, rest := Retain(m, acknowledged), pending[n..];
    forall frame | frame in after ensures exists i | 0 <= i < |rest| :: rest[i] == Prediction(frame, after[frame]) {
      var i :| 0 <= i < |pending| && pending[i] == Prediction(frame, m[frame]);
      assert rest[i - n] == Prediction(frame, after[frame]);
    }
    forall i | 0 <= i < |rest| ensures rest[i].frame in after && rest[i].id <= after[rest[i].frame] {
      assert rest[i] == pending[n + i];
    }
  }

  /** Acknowledging an earlier frame first leaves the same predictions as acknowledging the later one alone. */
  lemma EarlierAcknowledgementsAbsorbed(m: FrameMap, first: u64, second: u64)
    requires first <= second
    ensures Retain(Retain(m, first), second) == Retain(m, second)
  {
  }

  // ----- whole sessions -----

  datatype Event = Predicted(prediction: Prediction) | FrameAcknowledged(frame: u64)

  /** All predictions so far, how many of them are retired, and the confirmations sent to the terminal. */
  datatype Session = Session(frames: FrameMap, recorded: seq<Prediction>, retired: nat, confirmed: seq<u64>)

  ghost predicate IsStep(s: Session, event: Event, t: Session) {
    match event
    case Predicted(p) => t == s.(frames := Record(s.frames, p), recorded := s.recorded + [p])
    case FrameAcknowledged(frame) =>
      exists r: Option<u64> :: Acknowledges(s.frames, frame, r) && t == Confirm(s, frame, r)
  }

  ghost function Confirm(s: Session, frame: u64, r: Option<u64>): Session {
    var retired := s.retired + if s.retired <= |s.recorded| then Acknowledged(s.recorded[s.retired..], frame) else 0;
    Session(Retain(s.frames, frame), s.recorded, retired, if r.None? then s.confirmed else s.confirmed + [r.value])
  }

  const Start: Session := Session(map[], [], 0, [])

  ghost predicate IsRun(run: seq<Session>, events: seq<Event>) {
    && |run| == |events| + 1 && run[0] == Start
    && forall i | 0 <= i < |events| :: IsStep(run[i], events[i], run[i + 1])
  }

  /** Confirmations strictly increase, and the last one is the last prediction retired. */
  ghost predicate Confirmed(s: Session)
    requires s.retired <= |s.recorded|
  {
    && (forall i, j | 0 <= i < j < |s.confirmed| :: s.confirmed[i] < s.confirmed[j])
    && (s.confirmed != [] <==> s.retired > 0)
    && (s.retired > 0 ==> s.confirmed[|s.confirmed| - 1] == s.recorded[s.retired - 1].id)
  }

  ghost predicate SessionInv(s: Session) {
    && s.retired <= |s.recorded|
    && MapOf(s.frames, s.recorded[s.retired..])
    && Confirmed(s)
  }

  lemma ConfirmKeeps(s: Session, frame: u64, r: Option<u64>)
    requires SessionInv(s) && Ordered(s.recorded) && Acknowledges(s.frames, frame, r)
    ensures SessionInv(Confirm(s, frame, r))
  {
    hide MapOf, Acknowledges, Acknowledged, Retain, Confirmed, Ordered;
    var pending := s.recorded[s.retired..];
    OrderedSuffix(s.recorded, s.retired);
    AcknowledgeRefines(s.frames, pending, frame, r);
    var n := Acknowledged(pending, frame);
    assert pending[n..] == s.recorded[s.retired + n..];
    assert n > 0 ==> pending[n - 1] == s.recorded[s.retired + n - 1];
    ConfirmationsGrow(s, n, Confirm(s, frame, r));
  }

  lemma OrderedSuffix(recorded: seq<Prediction>, n: nat)
    requires Ordered(recorded) && n <= |recorded|
    ensures Ordered(recorded[n..])
  {
  }

  lemma ConfirmationsGrow(s: Session, n: nat, t: Session)
    requires s.retired + n <= |s.recorded| && Ordered(s.recorded) && Confirmed(s)
    requires t.recorded == s.recorded && t.retired == s.retired + n
    requires t.confirmed == if n == 0 then s.confirmed else s.confirmed + [s.recorded[s.retired + n - 1].id]
    ensures Confirmed(t)
  {
    if n > 0 && s.confirmed != [] {
      assert s.recorded[s.retired - 1].id < s.recorded[s.retired + n - 1].id;
      var last := |s.confirmed| - 1;
      forall i | 0 <= i < |s.confirmed| ensures s.confirmed[i] <= s.confirmed[last] {
        assert i < last ==> s.confirmed[i] < s.confirmed[last];
      }
    }
  }

  lemma StepKeeps(s: Session, event: Event, t: Session)
    requires SessionInv(s) && Ordered(s.recorded) && IsStep(s, event, t)
    ensures SessionInv(t)
  {
    hide MapOf, Acknowledges, Ordered, Confirmed;
    match event {
      case Predicted(p) =>
        RecordRefines(s.frames, s.recorded[s.retired..], p);
        assert (s.recorded + [p])[s.retired..] == s.recorded[s.retired..] + [p];
        PredictedKeepsConfirmed(s, p);
      case FrameAcknowledged(frame) =>
        var r :| Acknowledges(s.frames, frame, r) && t == Confirm(s, frame, r);
        ConfirmKeeps(s, frame, r);
    }
  }

  lemma PredictedKeepsConfirmed(s: Session, p: Prediction)
    requires s.retired <= |s.recorded| && Confirmed(s)
    ensures Confirmed(s.(frames := Record(s.frames, p), recorded := s.recorded + [p]))
  {
  }

  lemma {:induction false} RecordedGrows(run: seq<Session>, events: seq<Event>, i: nat)
    requires IsRun(run, events) && i < |run|
    ensures run[i].recorded <= run[|run| - 1].recorded
    decreases |run| - i
  {
    if i < |run| - 1 {
      assert IsStep(run[i], events[i], run[i + 1]);
      RecordedGrows(run, events, i + 1);
    }
  }

  lemma OrderedPrefix(a: seq<Prediction>, b: seq<Prediction>)
    requires a <= b && Ordered(b)
    ensures Ordered(a)
  {
  }

  /**
   * Over a whole session whose predictions were made in order, the map always stands for exactly the predictions
   * not yet retired, every acknowledgement retires those up to its frame, each once, and the confirmations the
   * terminal sees strictly increase.
   */
  lemma {:induction false} ConfirmationsIncrease(run: seq<Session>, events: seq<Event>, i: nat)
    requires IsRun(run, events) && Ordered(run[|run| - 1].recorded) && i < |run|
    ensures SessionInv(run[i])
    decreases i
  {
    hide SessionInv, IsStep, Ordered;
    if i > 0 {
      ConfirmationsIncrease(run, events, i - 1);
      RecordedGrows(run, events, i - 1);
      OrderedPrefix(run[i - 1].recorded, run[|run| - 1].recorded);
      assert IsStep(run[i - 1], events[i - 1], run[i]);
      StepKeeps(run[i - 1], events[i - 1], run[i]);
    } else {
      StartsEmpty();
    }
  }

  lemma StartsEmpty()
    ensures SessionInv(Start)
  {
  }
}

module MoshPredictionMap {
  import opened Wrappers
  import opened FixedWidth
  import opened MoshPredictions

  class PredictionIdMap {
    var byProtocolFrame: FrameMap

    constructor ()
      ensures byProtocolFrame == Start.frames
    {
      byProtocolFrame := map[];
    }

    method Record(protocolFrameId: u64, predictionId: u64)
      modifies this
      ensures byProtocolFrame == MoshPredictions.Record(old(byProtocolFrame), Prediction(protocolFrameId, predictionId))
    {
      if protocolFrameId in byProtocolFrame {
        byProtocolFrame := byProtocolFrame[protocolFrameId := Max(byProtocolFrame[protocolFrameId], predictionId)];
      } else {
        byProtocolFrame := byProtocolFrame[protocolFrameId := predictionId];
      }
    }

    method Acknowledge(protocolFrameId: u64) returns (predictionId: Option<u64>)
      modifies this
      ensures Acknowledges(old(byProtocolFrame), protocolFrameId, predictionId)
      ensures byProtocolFrame == Retain(old(byProtocolFrame), protocolFrameId)
    {
      predictionId := None;
      if some :| some in byProtocolFrame && some <= protocolFrameId {
        HasLastFrame(byProtocolFrame, protocolFrameId, some);
        var frame :| frame in byProtocolFrame && frame <= protocolFrameId
          && forall f | f in byProtocolFrame && f <= protocolFrameId :: f <= frame;
        assert LastFrame(byProtocolFrame, protocolFrameId, frame);
        predictionId := Some(byProtocolFrame[frame]);
      }
      byProtocolFrame := Retain(byProtocolFrame, protocolFrameId);
    }
  }
}
