// The bounded graphics queue between the RDP session and the viewer, together with the
// unbounded control channel (plugins/rdp/src/main.rs), and a model of what a viewer shows.

module Viewer {
  import opened Wrappers
  import opened FixedWidth
  import opened DirtyRects
  import opened Pixels

  datatype Image = Image(width: u16, height: u16, bytes: seq<u8>) {
    ghost predicate Valid() {
      width > 0 && height > 0 && |bytes| == 4 * (width * height)
    }

    ghost function Bounds(): Rect {
      Rect(0, 0, width, height)
    }
  }

  datatype Update = Update(width: nat, height: nat, rect: Rect, bytes: seq<u8>, epoch: u64, traceId: u64)

  datatype Output =
    | Frame(image: Image, epoch: u64, traceId: u64)
    | FrameUpdate(update: Update)
    | FrameUpdateBatch(updates: seq<Update>)
    | Cursor

  /** The viewer's backing frame and the epoch of the base frame it started from. */
  datatype Screen = Screen(image: Image, epoch: u64)

  /** A careful viewer ignores an update made for another size or epoch, or one outside its frame. */
  ghost predicate Accepts(screen: Screen, u: Update) {
    && screen.image.Valid()
    && u.width == screen.image.width && u.height == screen.image.height
    && u.epoch == screen.epoch
    && u.rect.Within(screen.image.Bounds())
    && |u.bytes| == 4 * (u.rect.width * u.rect.height)
  }

  ghost function ApplyUpdate(view: Option<Screen>, u: Update): Option<Screen> {
    if view.Some? && Accepts(view.value, u) then
      var image := view.value.image;
      Some(Screen(image.(bytes := Painted(image.bytes, image.width, u.rect, u.bytes, u.rect.width, 0, 0)),
        view.value.epoch))
    else
      view
  }

  ghost function ApplyUpdates(view: Option<Screen>, updates: seq<Update>): Option<Screen>
    decreases |updates|
  {
    if updates == [] then view else ApplyUpdates(ApplyUpdate(view, updates[0]), updates[1..])
  }

  ghost function Apply(view: Option<Screen>, output: Output): Option<Screen> {
    match output
    case Frame(image, epoch, _) => Some(Screen(image, epoch))
    case FrameUpdate(update) => ApplyUpdate(view, update)
    case FrameUpdateBatch(updates) => ApplyUpdates(view, updates)
    case Cursor => view
  }

  /** What the viewer will show once it has received everything still queued. */
  ghost function Replay(view: Option<Screen>, queue: seq<Output>): Option<Screen>
    decreases |queue|
  {
    if queue == [] then view else Replay(Apply(view, queue[0]), queue[1..])
  }

  lemma {:induction false} ReplayAppend(view: Option<Screen>, queue: seq<Output>, output: Output)
    ensures Replay(view, queue + [output]) == Apply(Replay(view, queue), output)
    decreases |queue|
  {
    if queue == [] {
      assert (queue + [output])[1..] == [];
    } else {
      ReplayAppend(Apply(view, queue[0]), queue[1..], output);
      assert (queue + [output])[1..] == queue[1..] + [output];
    }
  }

  lemma WithinFits(rects: seq<Rect>, image: Image)
    requires AllWithin(rects, image.Bounds())
    ensures AllFit(rects)
  {
  }

  // ----- agreement outside a dirty set -----

  ghost predicate AgreeOutside(shown: Image, wanted: Image, dirty: seq<Rect>) {
    && shown.Valid() && wanted.Valid()
    && shown.width == wanted.width && shown.height == wanted.height
    && forall k | 0 <= k < |wanted.bytes| ::
         Covered(dirty, ColumnOf(wanted.width, k), RowOf(wanted.width, k)) || shown.bytes[k] == wanted.bytes[k]
  }

  /** The replayed screen is this epoch's and right everywhere outside the dirty rectangles. */
  ghost predicate Coherent(view: Option<Screen>, wanted: Image, dirty: seq<Rect>, epoch: u64) {
    view.Some? && view.value.epoch == epoch && AgreeOutside(view.value.image, wanted, dirty)
  }

  lemma CleanMeansEqual(shown: Image, wanted: Image)
    requires AgreeOutside(shown, wanted, [])
    ensures shown == wanted
  {
    hide ColumnOf, RowOf;
    forall k | 0 <= k < |wanted.bytes| ensures shown.bytes[k] == wanted.bytes[k] {
      assert !Covered([], ColumnOf(wanted.width, k), RowOf(wanted.width, k));
    }
    assert shown.bytes == wanted.bytes;
  }

  lemma SelfAgrees(image: Image, dirty: seq<Rect>)
    requires image.Valid()
    ensures AgreeOutside(image, image, dirty)
  {
  }

  /** More dirty rectangles never hurt, provided they cover the old ones. */
  lemma AgreeWeaken(shown: Image, wanted: Image, dirty: seq<Rect>, more: seq<Rect>)
    requires AgreeOutside(shown, wanted, dirty) && CoversAll(more, dirty)
    ensures AgreeOutside(shown, wanted, more)
  {
    hide ColumnOf, RowOf;
    forall k | 0 <= k < |wanted.bytes|
      ensures Covered(more, ColumnOf(wanted.width, k), RowOf(wanted.width, k)) || shown.bytes[k] == wanted.bytes[k]
    {
      if Covered(dirty, ColumnOf(wanted.width, k), RowOf(wanted.width, k)) {
        AbsorbedCovers(more, dirty, ColumnOf(wanted.width, k), RowOf(wanted.width, k));
      }
    }
  }

  /** Two images that differ at most inside the given rectangles. */
  ghost predicate ChangedOnlyIn(before: Image, after: Image, regions: seq<Rect>) {
    AgreeOutside(before, after, regions)
  }

  lemma AgreeAfterChange(shown: Image, before: Image, after: Image, dirty: seq<Rect>, regions: seq<Rect>)
    requires AgreeOutside(shown, before, dirty) && ChangedOnlyIn(before, after, regions)
    ensures AgreeOutside(shown, after, dirty + regions)
  {
    hide ColumnOf, RowOf;
    forall k | 0 <= k < |after.bytes|
      ensures Covered(dirty + regions, ColumnOf(after.width, k), RowOf(after.width, k))
              || shown.bytes[k] == after.bytes[k]
    {
      var x, y := ColumnOf(after.width, k), RowOf(after.width, k);
      if Covered(dirty, x, y) {
        var r :| r in dirty && r.Contains(x, y);
        assert r in dirty + regions;
      } else if Covered(regions, x, y) {
        var r :| r in regions && r.Contains(x, y);
        assert r in dirty + regions;
      }
    }
  }

  // ----- deltas -----

  /** The update a producer builds for one dirty rectangle of its image. */
  ghost function Delta(wanted: Image, rect: Rect, epoch: u64, traceId: u64): Update
    requires wanted.Valid() && rect.Within(wanted.Bounds())
  {
    RectReadable(wanted, rect);
    Update(wanted.width, wanted.height, rect, Crop(wanted.bytes, wanted.width, rect), epoch, traceId)
  }

  lemma RectReadable(image: Image, rect: Rect)
    requires image.Valid() && rect.Within(image.Bounds())
    ensures Readable(image.bytes, image.width, rect.x, rect.y, rect.width, rect.height)
  {
    MulMonotone(image.width, image.width, rect.y + rect.height, image.height);
  }

  ghost function Deltas(wanted: Image, rects: seq<Rect>, epoch: u64, traceId: u64): (r: seq<Update>)
    requires wanted.Valid() && AllWithin(rects, wanted.Bounds())
    ensures |r| == |rects|
  {
    seq(|rects|, i requires 0 <= i < |rects| => Delta(wanted, rects[i], epoch, traceId))
  }

  /** One delta repairs its own rectangle. */
  lemma DeltaRepairs(view: Option<Screen>, wanted: Image, rect: Rect, rest: seq<Rect>, epoch: u64, traceId: u64)
    requires Coherent(view, wanted, [rect] + rest, epoch)
    requires rect.Within(wanted.Bounds())
    ensures Coherent(ApplyUpdate(view, Delta(wanted, rect, epoch, traceId)), wanted, rest, epoch)
  {
    hide ColumnOf, RowOf, FirstByte;
    RectReadable(wanted, rect);
    var shown := view.value.image;
    var after := ApplyUpdate(view, Delta(wanted, rect, epoch, traceId)).value.image;
    forall k | 0 <= k < |wanted.bytes|
      ensures Covered(rest, ColumnOf(wanted.width, k), RowOf(wanted.width, k)) || after.bytes[k] == wanted.bytes[k]
    {
      PaintCrop(shown.bytes, wanted.width, wanted.height, rect, wanted.bytes, k);
      var x, y := ColumnOf(wanted.width, k), RowOf(wanted.width, k);
      if !rect.Contains(x, y) && Covered([rect] + rest, x, y) {
        var r :| r in [rect] + rest && r.Contains(x, y);
        assert r in rest;
      }
    }
  }

  /** Sending every dirty rectangle leaves nothing dirty: the viewer shows exactly the producer's image. */
  lemma {:induction false} DeltasRepair(view: Option<Screen>, wanted: Image, dirty: seq<Rect>, epoch: u64, traceId: u64)
    requires Coherent(view, wanted, dirty, epoch)
    requires AllWithin(dirty, wanted.Bounds())
    ensures ApplyUpdates(view, Deltas(wanted, dirty, epoch, traceId)) == Some(Screen(wanted, epoch))
    decreases |dirty|
  {
    if dirty == [] {
      CleanMeansEqual(view.value.image, wanted);
    } else {
      assert dirty == [dirty[0]] + dirty[1..];
      DeltaRepairs(view, wanted, dirty[0], dirty[1..], epoch, traceId);
      DeltasRepair(ApplyUpdate(view, Delta(wanted, dirty[0], epoch, traceId)), wanted, dirty[1..], epoch, traceId);
      assert Deltas(wanted, dirty, epoch, traceId)[1..] == Deltas(wanted, dirty[1..], epoch, traceId);
    }
  }
}

module GraphicsChannel {
  import opened Wrappers
  import opened FixedWidth
  import opened Viewer

  datatype Control =
    | Connected(width: nat, height: nat)
    | ConnectedStatus
    | FrameStreamReset(epoch: u64)
    | ProtocolFailure

  /** One accepted send, in enqueue order over both channels. */
  datatype Emission = ToControl(control: Control) | ToGraphics(output: Output)

  datatype SendResult = Sent | Full | Disconnected

  datatype Channel = Channel(
    queue: seq<Output>, capacity: nat, receiverAlive: bool, controlOpen: bool, view: Option<Screen>, log: seq<Emission>)

  ghost function Shown(c: Channel): Option<Screen> {
    Replay(c.view, c.queue)
  }

  /** A base frame supersedes everything queued; any other output is refused once the queue is full. */
  ghost function TrySend(c: Channel, output: Output): (Channel, SendResult) {
    if !c.receiverAlive then (c, Disconnected)
    else if output.Frame? then (c.(queue := [output], log := c.log + [ToGraphics(output)]), Sent)
    else if |c.queue| >= c.capacity then (c, Full)
    else (c.(queue := c.queue + [output], log := c.log + [ToGraphics(output)]), Sent)
  }

  ghost function SendControl(c: Channel, control: Control): (Channel, bool) {
    if c.controlOpen then (c.(log := c.log + [ToControl(control)]), true) else (c, false)
  }

  /** The events that tell the viewer a desktop is there, sent once by each producer after its first base frame. */
  ghost function SendReady(c: Channel, width: nat, height: nat): (Channel, bool) {
    var (c1, ok) := SendControl(c, Connected(width, height));
    if ok then SendControl(c1, ConnectedStatus) else (c1, false)
  }

  /** The receiver takes the oldest output and shows it. */
  ghost function TryRecv(c: Channel): (Channel, Option<Output>) {
    if c.queue == [] then (c, None)
    else (c.(queue := c.queue[1..], view := Apply(c.view, c.queue[0])), Some(c.queue[0]))
  }

  ghost function DropReceiver(c: Channel): Channel {
    c.(receiverAlive := false, controlOpen := false)
  }

  /** Receiving changes what is shown now, never what will have been shown once the queue is empty. */
  lemma RecvKeepsShown(c: Channel)
    ensures Shown(TryRecv(c).0) == Shown(c)
  {
  }

  lemma SentIsShown(c: Channel, output: Output)
    requires TrySend(c, output).1 == Sent
    ensures Shown(TrySend(c, output).0) == Apply(Shown(c), output)
  {
    if output.Frame? {
      ReplayAppend(c.view, [], output);
      assert [] + [output] == [output];
    } else {
      ReplayAppend(c.view, c.queue, output);
    }
  }

  /** A base frame is never refused while the receiver lives; a delta is refused exactly when the queue is full. */
  lemma WhenSendFails(c: Channel, output: Output)
    requires c.receiverAlive
    ensures TrySend(c, output).1 == Full <==> !output.Frame? && |c.queue| >= c.capacity
    ensures TrySend(c, output).1 != Sent ==> TrySend(c, output).0 == c
  {
  }

  /** A control event is logged while the control channel is open, and after that fails without a trace. */
  lemma WhenControlFails(c: Channel, control: Control)
    ensures SendControl(c, control).1 <==> c.controlOpen
    ensures c.controlOpen ==> SendControl(c, control).0 == c.(log := c.log + [ToControl(control)])
    ensures !c.controlOpen ==> SendControl(c, control).0 == c
  {
  }

  /** Once the receiver is gone nothing is accepted any more, on either channel. */
  lemma NothingAfterDrop(c: Channel, output: Output, control: Control)
    ensures TrySend(DropReceiver(c), output) == (DropReceiver(c), Disconnected)
    ensures SendControl(DropReceiver(c), control) == (DropReceiver(c), false)
    ensures Shown(DropReceiver(c)) == Shown(c)
  {
  }

  class ClientRdpOutputChannel {
    var queue: seq<Output>
    const capacity: nat
    var receiverAlive: bool
    var controlOpen: bool
    ghost var view: Option<Screen>
    ghost var log: seq<Emission>

    constructor (capacity: nat)
      ensures State() == Channel([], capacity, true, true, None, [])
    {
      this.capacity := capacity;
      queue := [];
      receiverAlive, controlOpen := true, true;
      view, log := None, [];
    }

    ghost function State(): Channel
      reads this
    {
      Channel(queue, capacity, receiverAlive, controlOpen, view, log)
    }

    method TrySendGraphics(output: Output) returns (result: SendResult)
      modifies this
      ensures (State(), result) == TrySend(old(State()), output)
    {
      if !receiverAlive {
        return Disconnected;
      }
      if output.Frame? {
        queue := [];
        queue := queue + [output];
        assert queue == [output];
        log := log + [ToGraphics(output)];
        return Sent;
      }
      if |queue| >= capacity {
        return Full;
      }
      queue := queue + [output];
      log := log + [ToGraphics(output)];
      return Sent;
    }

    method SendControlOutput(control: Control) returns (ok: bool)
      modifies this
      ensures (State(), ok) == SendControl(old(State()), control)
    {
      if controlOpen {
        log := log + [ToControl(control)];
      }
      return controlOpen;
    }

    method SendReadyEvents(width: nat, height: nat) returns (ok: bool)
      modifies this
      ensures (State(), ok) == SendReady(old(State()), width, height)
    {
      ok := SendControlOutput(Connected(width, height));
      if ok {
        ok := SendControlOutput(ConnectedStatus);
      }
    }

    method TryReceive() returns (output: Option<Output>)
      modifies this
      ensures (State(), output) == TryRecv(old(State()))
    {
      if queue == [] {
        return None;
      }
      output := Some(queue[0]);
      view := Apply(view, queue[0]);
      queue := queue[1..];
    }

    method DropReceiverHalf()
      modifies this
      ensures State() == DropReceiver(old(State()))
    {
      receiverAlive, controlOpen := false, false;
    }
  }
}
