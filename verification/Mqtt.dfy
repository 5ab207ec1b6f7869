// The MQTT console's message window and its tracking of publishes (plugins/mqtt/src/model.rs and
// plugins/mqtt/src/session.rs).

module MqttWindow {
  const MAX_MESSAGES: nat := 1000
  const MAX_BUFFER_BYTES: nat := 8 * 1024 * 1024

  type Bytes = seq<bv8>

  /** What a message is, apart from the status that changes while it is shown. */
  datatype Entry = Entry(id: nat, topic: Bytes, body: Bytes, qos: nat, retain: bool, incoming: bool) {
    function Size(): nat { |body| + |topic| }
  }

  datatype Status = Received | Queued | Sent | AwaitingAck | AcknowledgedStatus

  datatype Message = Message(entry: Entry, status: Status)

  function TotalSize(entries: seq<Entry>): nat {
    if entries == [] then 0 else entries[0].Size() + TotalSize(entries[1..])
  }

  /** Few and small enough to keep. */
  predicate Keepable(entries: seq<Entry>) {
    |entries| <= MAX_MESSAGES && TotalSize(entries) <= MAX_BUFFER_BYTES
  }

  /** The eviction loop: the oldest go until the rest fits. */
  function Evict(entries: seq<Entry>): (r: seq<Entry>)
    ensures |r| <= |entries|
  {
    if entries == [] || Keepable(entries) then entries else Evict(entries[1..])
  }

  lemma {:induction false} TotalAppend(entries: seq<Entry>, more: seq<Entry>)
    ensures TotalSize(entries + more) == TotalSize(entries) + TotalSize(more)
  {
    if entries == [] {
      assert entries + more == more;
    } else {
      TotalAppend(entries[1..], more);
      assert (entries + more)[1..] == entries[1..] + more;
    }
  }

  /** The longest suffix that can be kept. */
  ghost predicate LongestKept(all: seq<Entry>, kept: seq<Entry>) {
    && |kept| <= |all| && kept == all[|all| - |kept|..]
    && Keepable(kept)
    && forall k | 0 <= k < |all| - |kept| :: !Keepable(all[k..])
  }

  lemma {:induction false} EvictKeepsLongest(all: seq<Entry>, m: nat)
    requires m <= |all| && forall k | 0 <= k < m :: !Keepable(all[k..])
    ensures LongestKept(all, Evict(all[m..]))
    decreases |all| - m
  {
    hide Keepable;
    NothingIsKeepable();
    if m == |all| {
      assert all[m..] == [];
    } else if !Keepable(all[m..]) {
      assert all[m..][1..] == all[m + 1..];
      EvictKeepsLongest(all, m + 1);
    }
  }

  lemma NothingIsKeepable()
    ensures Keepable([])
  {
  }

  /**
   * Evicting as messages arrive, one by one, keeps exactly what would be kept of all of them at once: the window is
   * always the longest suffix of everything recorded that fits both limits.
   */
  lemma RecordKeepsLongest(all: seq<Entry>, kept: seq<Entry>, entry: Entry)
    requires LongestKept(all, kept)
    ensures LongestKept(all + [entry], Evict(kept + [entry]))
  {
    hide Keepable;
    var grown := all + [entry];
    var m := |all| - |kept|;
    assert kept + [entry] == grown[m..];
    forall k | 0 <= k < m ensures !Keepable(grown[k..]) {
      assert grown[k..] == all[k..] + [entry];
      if Keepable(grown[k..]) {
        WithoutLast(all[k..], entry);
      }
    }
    EvictKeepsLongest(grown, m);
  }

  lemma WithoutLast(entries: seq<Entry>, entry: Entry)
    requires Keepable(entries + [entry])
    ensures Keepable(entries)
  {
    TotalAppend(entries, [entry]);
  }

  /** A message that fits by itself is never evicted by its own arrival. */
  lemma NewestStays(all: seq<Entry>, kept: seq<Entry>)
    requires all != [] && LongestKept(all, kept) && all[|all| - 1].Size() <= MAX_BUFFER_BYTES
    ensures kept != [] && kept[|kept| - 1] == all[|all| - 1]
  {
    var last := all[|all| - 1..];
    assert last == [all[|all| - 1]];
    assert last[1..] == [];
    assert TotalSize(last) == last[0].Size() + TotalSize([]);
    assert Keepable(last);
  }

  function Entries(messages: seq<Message>): (r: seq<Entry>)
    ensures |r| == |messages|
  {
    seq(|messages|, i requires 0 <= i < |messages| => messages[i].entry)
  }
}

module MqttTracking {
  import opened MqttWindow

  /**
   * The retained messages, the ids of publishes the client has not written yet, and those waiting for the broker's
   * acknowledgement under their packet id.
   */
  datatype Tracking = Tracking(messages: seq<Message>, sequence: nat, waiting: seq<nat>, pending: map<nat, nat>)

  /** Beside the tracking, the byte count and everything recorded since the last clear. */
  datatype Console = Console(tracking: Tracking, bufferBytes: nat, recorded: seq<Entry>)

  datatype Event =
    | Recorded(topic: Bytes, body: Bytes, qos: nat, retain: bool, incoming: bool)
    | Written(packetId: nat)          // Outgoing::Publish, for a first transmission or a repeated one
    | Acked(packetId: nat)            // PubAck or PubComp
    | Cleared

  /** The suffix of the messages whose entries are kept. */
  function Keep(messages: seq<Message>): seq<Message> {
    messages[|messages| - |Evict(Entries(messages))|..]
  }

  function NewMessage(entry: Entry): Message {
    Message(entry, if entry.incoming then Received else Queued)
  }

  /** `record`, and for an outgoing message the push onto `waiting` that follows it. */
  function Record(t: Tracking, entry: Entry): Tracking {
    Tracking(Keep(t.messages + [NewMessage(entry)]), entry.id,
             if entry.incoming then t.waiting else t.waiting + [entry.id], t.pending)
  }

  /** `update_status`: the first message with this id, if it is still retained. */
  function UpdateStatus(messages: seq<Message>, id: nat, status: Status): (r: seq<Message>)
    ensures |r| == |messages|
    ensures forall i | 0 <= i < |r| :: r[i].entry == messages[i].entry
  {
    if messages == [] then []
    else if messages[0].entry.id == id then [messages[0].(status := status)] + messages[1..]
    else [messages[0]] + UpdateStatus(messages[1..], id, status)
  }

  function Write(t: Tracking, packetId: nat): Tracking {
    if packetId in t.pending || t.waiting == [] then t
    else
      var id := t.waiting[0];
      Tracking(UpdateStatus(t.messages, id, if packetId == 0 then Sent else AwaitingAck), t.sequence, t.waiting[1..],
               if packetId == 0 then t.pending else t.pending[packetId := id])
  }

  function Acknowledge(t: Tracking, packetId: nat): Tracking {
    if packetId !in t.pending then t
    else
      t.(pending := t.pending - {packetId},
         messages := UpdateStatus(t.messages, t.pending[packetId], AcknowledgedStatus))
  }

  function NewEntry(t: Tracking, e: Event): Entry
    requires e.Recorded?
  {
    Entry(t.sequence + 1, e.topic, e.body, e.qos, e.retain, e.incoming)
  }

  function Track(t: Tracking, event: Event): Tracking {
    match event
    case Recorded(_, _, _, _, _) => Record(t, NewEntry(t, event))
    case Written(packetId) => Write(t, packetId)
    case Acked(packetId) => Acknowledge(t, packetId)
    case Cleared => t.(messages := [])
  }

  function Step(c: Console, event: Event): Console {
    var tracking := Track(c.tracking, event);
    Console(tracking, TotalSize(Entries(tracking.messages)),
            if event.Cleared? then []
            else if event.Recorded? then c.recorded + [NewEntry(c.tracking, event)]
            else c.recorded)
  }

  const Fresh: Console := Console(Tracking([], 0, [], map[]), 0, [])

  // ----- the window -----

  ghost predicate WindowInv(c: Console) {
    LongestKept(c.recorded, Entries(c.tracking.messages)) && c.bufferBytes == TotalSize(Entries(c.tracking.messages))
  }

  lemma {:induction false} EvictIsSuffix(entries: seq<Entry>)
    ensures Evict(entries) == entries[|entries| - |Evict(entries)|..]
  {
    hide Keepable;
    if entries != [] && !Keepable(entries) {
      EvictIsSuffix(entries[1..]);
      var n := |entries[1..]| - |Evict(entries[1..])|;
      assert entries[1..][n..] == entries[1 + n..];
    }
  }

  lemma KeepIsSuffix(messages: seq<Message>) returns (n: nat)
    ensures Entries(Keep(messages)) == Evict(Entries(messages))
    ensures n <= |messages| && Keep(messages) == messages[n..]
  {
    hide Evict;
    EvictIsSuffix(Entries(messages));
    n := |messages| - |Evict(Entries(messages))|;
    assert Entries(messages[n..]) == Entries(messages)[n..];
  }

  lemma SameEntries(a: seq<Message>, b: seq<Message>)
    requires |a| == |b| && forall i | 0 <= i < |a| :: a[i].entry == b[i].entry
    ensures Entries(a) == Entries(b)
  {
  }

  lemma StepKeepsWindow(c: Console, event: Event)
    requires WindowInv(c)
    ensures WindowInv(Step(c, event))
  {
    hide LongestKept, Evict, TotalSize, Keep, UpdateStatus;
    var t := c.tracking;
    if event.Recorded? {
      var grown := t.messages + [NewMessage(NewEntry(t, event))];
      assert Entries(grown) == Entries(t.messages) + [NewEntry(t, event)];
      RecordKeepsLongest(c.recorded, Entries(t.messages), NewEntry(t, event));
      var n := KeepIsSuffix(grown);
    } else if event.Cleared? {
      EmptyWindow();
    } else {
      SameEntries(t.messages, Track(t, event).messages);
    }
  }

  lemma EmptyWindow()
    ensures LongestKept([], Entries([])) && TotalSize(Entries([])) == 0
  {
  }

  // ----- the tracking -----

  ghost predicate IdsInv(t: Tracking) {
    && (forall i | 0 <= i < |t.messages| :: t.messages[i].entry.id <= t.sequence)
    && (forall i, j | 0 <= i < j < |t.messages| :: t.messages[i].entry.id < t.messages[j].entry.id)
    && (forall i | 0 <= i < |t.waiting| :: t.waiting[i] <= t.sequence)
    && (forall i, j | 0 <= i < j < |t.waiting| :: t.waiting[i] != t.waiting[j])
    && (forall p | p in t.pending :: t.pending[p] <= t.sequence && t.pending[p] !in t.waiting)
    && (forall p, q | p in t.pending && q in t.pending && p != q :: t.pending[p] != t.pending[q])
  }

  ghost predicate InPending(pending: map<nat, nat>, id: nat) {
    exists p :: p in pending && pending[p] == id
  }

  /** What a message shows is where its publish is. */
  ghost predicate StatusTrue(t: Tracking, m: Message) {
    && (m.entry.incoming <==> m.status == Received)
    && (m.status == Queued <==> m.entry.id in t.waiting)
    && (m.status == AwaitingAck <==> InPending(t.pending, m.entry.id))
  }

  ghost predicate TrackingInv(t: Tracking) {
    IdsInv(t) && forall i | 0 <= i < |t.messages| :: StatusTrue(t, t.messages[i])
  }

  function Rank(s: Status): nat {
    match s
    case Received => 0
    case Queued => 0
    case Sent => 1
    case AwaitingAck => 1
    case AcknowledgedStatus => 2
  }

  /** Every message shown before and after is the same message, no further back. */
  ghost predicate Forward(before: seq<Message>, after: seq<Message>) {
    forall i, j | 0 <= i < |before| && 0 <= j < |after| && before[i].entry.id == after[j].entry.id ::
      before[i].entry == after[j].entry && Rank(before[i].status) <= Rank(after[j].status)
  }

  lemma OneMessagePerId(t: Tracking, i: nat, j: nat)
    requires IdsInv(t) && i < |t.messages| && j < |t.messages| && t.messages[i].entry.id == t.messages[j].entry.id
    ensures i == j
  {
    if i < j {
      assert false;
    } else if j < i {
      assert false;
    }
  }

  lemma RecordKeepsIds(t: Tracking, entry: Entry)
    requires IdsInv(t) && entry.id == t.sequence + 1
    ensures IdsInv(Record(t, entry))
  {
    var grown := t.messages + [NewMessage(entry)];
    var n := KeepIsSuffix(grown);
    hide Keep;
  }

  lemma RecordKeepsTracking(t: Tracking, entry: Entry)
    requires TrackingInv(t) && entry.id == t.sequence + 1
    ensures TrackingInv(Record(t, entry)) && Forward(t.messages, Record(t, entry).messages)
  {
    RecordKeepsIds(t, entry);
    hide Keep, Entries;
    var grown := t.messages + [NewMessage(entry)];
    var n := KeepIsSuffix(grown);
    var next := Record(t, entry);
    forall i | 0 <= i < |next.messages| ensures StatusTrue(next, next.messages[i]) {
      RecordKeepsStatus(t, entry, n + i);
    }
    forall i, j | 0 <= i < |t.messages| && 0 <= j < |next.messages|
      && t.messages[i].entry.id == next.messages[j].entry.id
      ensures t.messages[i] == next.messages[j]
    {
      if n + j < |t.messages| {
        OneMessagePerId(t, i, n + j);
      }
    }
  }

  lemma RecordKeepsStatus(t: Tracking, entry: Entry, k: nat)
    requires TrackingInv(t) && entry.id == t.sequence + 1 && k <= |t.messages|
    ensures StatusTrue(Record(t, entry), (t.messages + [NewMessage(entry)])[k])
  {
    hide Keep;
    if k < |t.messages| {
      assert StatusTrue(t, t.messages[k]);
    }
  }

  /** With increasing ids a status update changes exactly the message with that id. */
  lemma {:induction false} UpdateStatusAt(messages: seq<Message>, id: nat, status: Status, i: nat)
    requires i < |messages| && forall j, k | 0 <= j < k < |messages| :: messages[j].entry.id < messages[k].entry.id
    ensures UpdateStatus(messages, id, status)[i]
            == if messages[i].entry.id == id then messages[i].(status := status) else messages[i]
  {
    if messages[0].entry.id == id {
      assert i > 0 ==> messages[0].entry.id < messages[i].entry.id;
    } else if i > 0 {
      UpdateStatusAt(messages[1..], id, status, i - 1);
    }
  }

  /** A status update that is right for every message keeps the tracking right. */
  lemma UpdateKeepsTracking(t: Tracking, id: nat, status: Status, next: Tracking)
    requires TrackingInv(t) && next.messages == UpdateStatus(t.messages, id, status) && next.sequence == t.sequence
             && IdsInv(next)
    requires forall i | 0 <= i < |t.messages| ::
               var m := t.messages[i];
               var shown := if m.entry.id == id then m.(status := status) else m;
               StatusTrue(next, shown) && Rank(m.status) <= Rank(shown.status)
    ensures TrackingInv(next) && Forward(t.messages, next.messages)
  {
    hide UpdateStatus, StatusTrue, Rank;
    forall i | 0 <= i < |t.messages|
      ensures StatusTrue(next, next.messages[i]) && Rank(t.messages[i].status) <= Rank(next.messages[i].status)
    {
      UpdateStatusAt(t.messages, id, status, i);
    }
    forall i, j | 0 <= i < |t.messages| && 0 <= j < |next.messages|
      && t.messages[i].entry.id == next.messages[j].entry.id
      ensures i == j
    {
      OneMessagePerId(t, i, j);
    }
  }

  lemma WriteKeepsTracking(t: Tracking, packetId: nat)
    requires TrackingInv(t) && packetId !in t.pending && t.waiting != []
    ensures TrackingInv(Write(t, packetId)) && Forward(t.messages, Write(t, packetId).messages)
  {
    hide UpdateStatus, StatusTrue, Rank;
    forall i | 0 <= i < |t.messages|
      ensures var m := t.messages[i];
              var written := m.(status := if packetId == 0 then Sent else AwaitingAck);
              var shown := if m.entry.id == t.waiting[0] then written else m;
              StatusTrue(Write(t, packetId), shown) && Rank(m.status) <= Rank(shown.status)
    {
      WriteKeepsStatus(t, packetId, t.messages[i]);
    }
    WriteKeepsIds(t, packetId);
    UpdateKeepsTracking(t, t.waiting[0], if packetId == 0 then Sent else AwaitingAck, Write(t, packetId));
  }

  lemma WriteKeepsIds(t: Tracking, packetId: nat)
    requires IdsInv(t) && packetId !in t.pending && t.waiting != []
    ensures IdsInv(Write(t, packetId))
  {
    hide UpdateStatus;
  }

  lemma WriteKeepsStatus(t: Tracking, packetId: nat, m: Message)
    requires IdsInv(t) && StatusTrue(t, m) && packetId !in t.pending && t.waiting != []
    ensures var written := m.(status := if packetId == 0 then Sent else AwaitingAck);
            var shown := if m.entry.id == t.waiting[0] then written else m;
            StatusTrue(Write(t, packetId), shown) && Rank(m.status) <= Rank(shown.status)
  {
    hide UpdateStatus;
    var id, next := t.waiting[0], Write(t, packetId);
    assert t.waiting == [id] + next.waiting;
    assert m.entry.id in t.waiting <==> m.entry.id == id || m.entry.id in next.waiting;
    if packetId != 0 {
      PendingGrows(t.pending, packetId, id, m.entry.id);
    }
    assert InPending(t.pending, m.entry.id) ==> m.entry.id != id;
  }

  lemma PendingGrows(pending: map<nat, nat>, packetId: nat, id: nat, other: nat)
    requires packetId !in pending
    ensures InPending(pending[packetId := id], other) <==> InPending(pending, other) || other == id
  {
    var grown := pending[packetId := id];
    assert grown[packetId] == id;
    if InPending(pending, other) {
      var p :| p in pending && pending[p] == other;
      assert grown[p] == other;
    }
  }

  lemma AcknowledgeKeepsTracking(t: Tracking, packetId: nat)
    requires TrackingInv(t) && packetId in t.pending
    ensures TrackingInv(Acknowledge(t, packetId)) && Forward(t.messages, Acknowledge(t, packetId).messages)
  {
    hide UpdateStatus, StatusTrue, Rank;
    var next := Acknowledge(t, packetId);
    forall i | 0 <= i < |t.messages|
      ensures var m := t.messages[i];
              var shown := if m.entry.id == t.pending[packetId] then m.(status := AcknowledgedStatus) else m;
              StatusTrue(next, shown) && Rank(m.status) <= Rank(shown.status)
    {
      AcknowledgeKeepsStatus(t, packetId, t.messages[i]);
    }
    UpdateKeepsTracking(t, t.pending[packetId], AcknowledgedStatus, next);
  }

  /** An acknowledgement shows on its own message and on no other. */
  lemma AcknowledgedIsShown(t: Tracking, packetId: nat, i: nat)
    requires IdsInv(t) && packetId in t.pending && i < |t.messages|
    ensures var next := Acknowledge(t, packetId);
            && |next.messages| == |t.messages| && packetId !in next.pending && next.waiting == t.waiting
            && next.messages[i].entry == t.messages[i].entry
            && next.messages[i].status
               == if t.messages[i].entry.id == t.pending[packetId] then AcknowledgedStatus else t.messages[i].status
  {
    hide UpdateStatus;
    UpdateStatusAt(t.messages, t.pending[packetId], AcknowledgedStatus, i);
  }

  /** A write shows on the oldest waiting publish: sent for good without a packet id, awaiting its reply with one. */
  lemma WrittenIsShown(t: Tracking, packetId: nat, i: nat)
    requires IdsInv(t) && packetId !in t.pending && t.waiting != [] && i < |t.messages|
    ensures var next := Write(t, packetId);
            && |next.messages| == |t.messages| && next.waiting == t.waiting[1..]
            && next.messages[i].entry == t.messages[i].entry
            && next.messages[i].status
               == (if t.messages[i].entry.id != t.waiting[0] then t.messages[i].status
                   else if packetId == 0 then Sent else AwaitingAck)
            && (packetId in next.pending <==> packetId != 0)
            && (packetId in next.pending ==> next.pending[packetId] == t.waiting[0])
  {
    hide UpdateStatus;
    UpdateStatusAt(t.messages, t.waiting[0], if packetId == 0 then Sent else AwaitingAck, i);
  }

  lemma AcknowledgeKeepsStatus(t: Tracking, packetId: nat, m: Message)
    requires IdsInv(t) && StatusTrue(t, m) && packetId in t.pending
    ensures var shown := if m.entry.id == t.pending[packetId] then m.(status := AcknowledgedStatus) else m;
            StatusTrue(Acknowledge(t, packetId), shown) && Rank(m.status) <= Rank(shown.status)
  {
    hide UpdateStatus;
    var next := Acknowledge(t, packetId);
    if InPending(t.pending, m.entry.id) {
      var p :| p in t.pending && t.pending[p] == m.entry.id;
      assert p != packetId ==> p in next.pending && next.pending[p] == m.entry.id;
    }
    assert m.entry.id == t.pending[packetId] ==> InPending(t.pending, m.entry.id);
  }

  lemma UnchangedForward(t: Tracking)
    requires IdsInv(t)
    ensures Forward(t.messages, t.messages)
  {
    forall i, j | 0 <= i < |t.messages| && 0 <= j < |t.messages|
                  && t.messages[i].entry.id == t.messages[j].entry.id
      ensures i == j
    {
      OneMessagePerId(t, i, j);
    }
  }

  lemma TrackKeeps(t: Tracking, event: Event)
    requires TrackingInv(t)
    ensures TrackingInv(Track(t, event)) && Forward(t.messages, Track(t, event).messages)
  {
    hide UpdateStatus, StatusTrue, Keep;
    UnchangedForward(t);
    match event {
      case Recorded(_, _, _, _, _) => RecordKeepsTracking(t, NewEntry(t, event));
      case Written(packetId) =>
        if packetId !in t.pending && t.waiting != [] {
          WriteKeepsTracking(t, packetId);
        }
      case Acked(packetId) =>
        if packetId in t.pending {
          AcknowledgeKeepsTracking(t, packetId);
        }
      case Cleared =>
    }
  }

  // ----- whole runs -----

  ghost predicate ConsoleInv(c: Console) {
    WindowInv(c) && TrackingInv(c.tracking)
  }

  lemma StepKeeps(c: Console, event: Event)
    requires ConsoleInv(c)
    ensures ConsoleInv(Step(c, event)) && Forward(c.tracking.messages, Step(c, event).tracking.messages)
  {
    StepKeepsWindow(c, event);
    TrackKeeps(c.tracking, event);
    hide WindowInv, TrackingInv, Track, Forward;
  }

  lemma FreshConsole()
    ensures ConsoleInv(Fresh)
  {
    EmptyWindow();
  }

  ghost predicate IsRun(run: seq<Console>, events: seq<Event>) {
    |run| == |events| + 1 && forall i | 0 <= i < |events| :: run[i + 1] == Step(run[i], events[i])
  }

  /**
   * In every reachable state the window is the longest fitting suffix of what was recorded since the last clear, its
   * byte count is exact, no publish is tracked twice, and every message shown as queued or awaiting its
   * acknowledgement is exactly there, whatever packet ids the client reports.
   */
  lemma {:induction false} RunsStayTrue(run: seq<Console>, events: seq<Event>, i: nat)
    requires IsRun(run, events) && ConsoleInv(run[0]) && i < |run|
    ensures ConsoleInv(run[i])
    decreases i
  {
    hide ConsoleInv, Step, Forward;
    if i > 0 {
      RunsStayTrue(run, events, i - 1);
      StepKeeps(run[i - 1], events[i - 1]);
    }
  }

  ghost predicate Shown(t: Tracking, id: nat) {
    exists k :: 0 <= k < |t.messages| && t.messages[k].entry.id == id
  }

  /** Ids are never used again. */
  lemma TrackShowsNothingOld(t: Tracking, event: Event, id: nat)
    requires id <= t.sequence && !Shown(t, id)
    ensures !Shown(Track(t, event), id) && id <= Track(t, event).sequence
  {
    hide Keep, UpdateStatus;
    var next := Track(t, event);
    if event.Recorded? {
      var grown := t.messages + [NewMessage(NewEntry(t, event))];
      var n := KeepIsSuffix(grown);
      forall k | 0 <= k < |next.messages| ensures next.messages[k].entry.id != id {
        assert next.messages[k] == grown[n + k];
      }
    } else if !event.Cleared? {
      assert forall k | 0 <= k < |next.messages| :: next.messages[k].entry == t.messages[k].entry;
    }
  }

  lemma {:induction false} GoneStaysGone(run: seq<Console>, events: seq<Event>, i: nat, j: nat, id: nat)
    requires IsRun(run, events) && i <= j < |run|
    requires id <= run[i].tracking.sequence && !Shown(run[i].tracking, id)
    ensures !Shown(run[j].tracking, id) && id <= run[j].tracking.sequence
    decreases j
  {
    hide Track, Shown;
    if i < j {
      GoneStaysGone(run, events, i, j - 1, id);
      TrackShowsNothingOld(run[j - 1].tracking, events[j - 1], id);
      assert run[j] == Step(run[j - 1], events[j - 1]);
    }
  }

  /** Over whole runs statuses only move forward: a message shown at two moments is the same, no further back. */
  lemma {:induction false} StatusesNeverGoBack(run: seq<Console>, events: seq<Event>, i: nat, j: nat, a: nat, b: nat)
    requires IsRun(run, events) && ConsoleInv(run[0]) && i <= j < |run|
    requires a < |run[i].tracking.messages| && b < |run[j].tracking.messages|
    requires run[i].tracking.messages[a].entry.id == run[j].tracking.messages[b].entry.id
    ensures run[i].tracking.messages[a].entry == run[j].tracking.messages[b].entry
    ensures Rank(run[i].tracking.messages[a].status) <= Rank(run[j].tracking.messages[b].status)
    decreases j
  {
    hide Step, WindowInv, Rank, StatusTrue, IdsInv, IsRun;
    RunsStayTrue(run, events, i);
    var id := run[j].tracking.messages[b].entry.id;
    if i == j {
      OneMessagePerId(run[i].tracking, a, b);
    } else {
      RunsStayTrue(run, events, j - 1);
      StepForward(run, events, j);
      StillShown(run, events, i, j, id, a, b);
      var c :| 0 <= c < |run[j - 1].tracking.messages| && run[j - 1].tracking.messages[c].entry.id == id;
      StatusesNeverGoBack(run, events, i, j - 1, a, c);
    }
  }

  lemma StepForward(run: seq<Console>, events: seq<Event>, j: nat)
    requires IsRun(run, events) && 0 < j < |run| && ConsoleInv(run[j - 1])
    ensures Forward(run[j - 1].tracking.messages, run[j].tracking.messages)
  {
    hide Step, ConsoleInv, Forward;
    StepKeeps(run[j - 1], events[j - 1]);
  }

  lemma StillShown(run: seq<Console>, events: seq<Event>, i: nat, j: nat, id: nat, a: nat, b: nat)
    requires IsRun(run, events) && i < j < |run| && IdsInv(run[i].tracking)
    requires a < |run[i].tracking.messages| && run[i].tracking.messages[a].entry.id == id
    requires b < |run[j].tracking.messages| && run[j].tracking.messages[b].entry.id == id
    ensures Shown(run[j - 1].tracking, id)
  {
    hide Step, IsRun;
    assert Shown(run[j].tracking, id);
    SequenceGrows(run, events, i, j - 1);
    if !Shown(run[j - 1].tracking, id) {
      GoneStaysGone(run, events, j - 1, j, id);
    }
  }

  lemma {:induction false} SequenceGrows(run: seq<Console>, events: seq<Event>, i: nat, j: nat)
    requires IsRun(run, events) && i <= j < |run|
    ensures run[i].tracking.sequence <= run[j].tracking.sequence
    decreases j
  {
    hide UpdateStatus, Keep;
    if i < j {
      SequenceGrows(run, events, i, j - 1);
      assert run[j] == Step(run[j - 1], events[j - 1]);
    }
  }
}

module MqttModel {
  import opened Wrappers
  import opened MqttWindow
  import opened MqttTracking

  class Model {
    var messages: seq<Message>
    var bufferBytes: nat
    var sequence: nat
    var evicted: nat
    var waiting: seq<nat>
    var pending: map<nat, nat>
    /** The message shown in detail, and the view frozen while paused. */
    var selected: Option<nat>
    var paused: Option<seq<Message>>
    ghost var recorded: seq<Entry>

    ghost function State(): Console
      reads this
    {
      Console(Tracking(messages, sequence, waiting, pending), bufferBytes, recorded)
    }

    constructor ()
      ensures State() == Fresh && ConsoleInv(State()) && evicted == 0 && selected.None? && paused.None?
    {
      selected, paused := None, None;
      messages, bufferBytes, sequence, evicted, waiting, pending, recorded := [], 0, 0, 0, [], map[], [];
      new;
      FreshConsole();
    }

    /** The eviction loop counts every message it drops. */
    method EvictOldest()
      requires bufferBytes == TotalSize(Entries(messages))
      modifies `messages, `bufferBytes, `evicted
      ensures messages == Keep(old(messages)) && bufferBytes == TotalSize(Entries(messages))
      ensures evicted == old(evicted) + |old(messages)| - |messages|
    {
      hide Keepable, TotalSize, Evict;
      ghost var n := 0;
      while |messages| > MAX_MESSAGES || bufferBytes > MAX_BUFFER_BYTES
        invariant n <= |old(messages)| && messages == old(messages)[n..] && evicted == old(evicted) + n
        invariant bufferBytes == TotalSize(Entries(messages))
        invariant Evict(Entries(old(messages))) == Evict(Entries(messages))
        decreases |messages|
      {
        EvictsFirst(messages);
        bufferBytes := bufferBytes - messages[0].entry.Size();
        messages := messages[1..];
        evicted := evicted + 1;
        n := n + 1;
      }
      NothingToEvict(messages);
    }

    /** Records a message; the id it gets is also what an outgoing one is tracked under. */
    method Record(topic: Bytes, body: Bytes, qos: nat, retain: bool, incoming: bool) returns (id: nat)
      requires ConsoleInv(State())
      modifies `messages, `bufferBytes, `sequence, `evicted, `recorded
      ensures waiting == old(waiting) && id == sequence
      ensures var next := Step(old(State()), Recorded(topic, body, qos, retain, incoming));
              State() == next.(tracking := next.tracking.(waiting := old(waiting)))
    {
      hide TotalSize, Keep, WindowInv, TrackingInv;
      ExactBytes(State());
      sequence := sequence + 1;
      id := sequence;
      var entry := Entry(id, topic, body, qos, retain, incoming);
      var message := Message(entry, if incoming then Received else Queued);
      AppendedSize(messages, message);
      bufferBytes := bufferBytes + |body| + |topic|;
      messages := messages + [message];
      recorded := recorded + [entry];
      EvictOldest();
    }

    method UpdateStatus(id: nat, status: Status)
      modifies `messages
      ensures messages == MqttTracking.UpdateStatus(old(messages), id, status)
    {
      hide MqttTracking.UpdateStatus;
      var i := 0;
      while i < |messages| && messages[i].entry.id != id
        invariant i <= |messages| && messages == old(messages)
        invariant forall k | 0 <= k < i :: messages[k].entry.id != id
      {
        i := i + 1;
      }
      UpdateStatusFound(messages, id, status, i);
      if i < |messages| {
        messages := messages[i := messages[i].(status := status)];
      }
    }

    /** An arriving message, once its payload is small enough to keep. */
    method OnIncomingPublish(topic: Bytes, body: Bytes, qos: nat, retain: bool)
      requires ConsoleInv(State())
      modifies `messages, `bufferBytes, `sequence, `evicted, `recorded, `waiting
      ensures State() == Step(old(State()), Recorded(topic, body, qos, retain, true)) && ConsoleInv(State())
    {
      hide ConsoleInv, Keep;
      StepKeeps(State(), Recorded(topic, body, qos, retain, true));
      var id := Record(topic, body, qos, retain, true);
    }

    /** The publish branch of `handle_ui`, after the client accepted the packet. */
    method Publish(topic: Bytes, body: Bytes, qos: nat, retain: bool)
      requires ConsoleInv(State())
      modifies `messages, `bufferBytes, `sequence, `evicted, `recorded, `waiting
      ensures State() == Step(old(State()), Recorded(topic, body, qos, retain, false)) && ConsoleInv(State())
    {
      hide ConsoleInv, Keep;
      StepKeeps(State(), Recorded(topic, body, qos, retain, false));
      var id := Record(topic, body, qos, retain, false);
      waiting := waiting + [id];
    }

    method OnOutgoingPublish(packetId: nat)
      requires ConsoleInv(State())
      modifies `messages, `waiting, `pending
      ensures State() == Step(old(State()), Written(packetId)) && ConsoleInv(State())
    {
      hide ConsoleInv, TotalSize;
      StepKeeps(State(), Written(packetId));
      ExactBytes(State());
      ghost var before := messages;
      if packetId !in pending && waiting != [] {
        var id := waiting[0];
        waiting := waiting[1..];
        UpdateStatus(id, if packetId == 0 then Sent else AwaitingAck);
        if packetId != 0 {
          pending := pending[packetId := id];
        }
      }
      SameEntries(before, messages);
    }

    /** `PubAck` and `PubComp` alike. */
    method OnAcknowledged(packetId: nat)
      requires ConsoleInv(State())
      modifies `messages, `waiting, `pending
      ensures State() == Step(old(State()), Acked(packetId)) && ConsoleInv(State())
    {
      hide ConsoleInv, TotalSize;
      StepKeeps(State(), Acked(packetId));
      ExactBytes(State());
      ghost var before := messages;
      if packetId in pending {
        var id := pending[packetId];
        pending := pending - {packetId};
        UpdateStatus(id, AcknowledgedStatus);
      }
      SameEntries(before, messages);
    }

    /** Clears the window, its counts and what is shown of it, a frozen view included; publishes stay tracked. */
    method Clear()
      requires ConsoleInv(State())
      modifies this
      ensures State() == Step(old(State()), Cleared) && ConsoleInv(State())
      ensures evicted == 0 && selected.None?
      ensures paused == if old(paused).Some? then Some([]) else None
    {
      hide ConsoleInv;
      StepKeeps(State(), Cleared);
      messages, bufferBytes, evicted, recorded := [], 0, 0, [];
      selected := None;
      if paused.Some? {
        paused := Some([]);
      }
    }
  }

  lemma ExactBytes(c: Console)
    requires ConsoleInv(c)
    ensures c.bufferBytes == TotalSize(Entries(c.tracking.messages))
  {
  }

  lemma AppendedSize(messages: seq<Message>, message: Message)
    ensures TotalSize(Entries(messages + [message])) == TotalSize(Entries(messages)) + message.entry.Size()
  {
    assert Entries(messages + [message]) == Entries(messages) + [message.entry];
    TotalAppend(Entries(messages), [message.entry]);
    assert [message.entry][1..] == [];
  }

  lemma EvictsFirst(messages: seq<Message>)
    requires |messages| > MAX_MESSAGES || TotalSize(Entries(messages)) > MAX_BUFFER_BYTES
    ensures messages != [] && TotalSize(Entries(messages))
            == messages[0].entry.Size() + TotalSize(Entries(messages[1..]))
    ensures Evict(Entries(messages)) == Evict(Entries(messages[1..]))
  {
    assert messages != [] ==> Entries(messages)[1..] == Entries(messages[1..]);
  }

  lemma NothingToEvict(messages: seq<Message>)
    requires |messages| <= MAX_MESSAGES && TotalSize(Entries(messages)) <= MAX_BUFFER_BYTES
    ensures Evict(Entries(messages)) == Entries(messages)
  {
  }

  /** The first message with the id, if any, is the only one that changes. */
  lemma {:induction false} UpdateStatusFound(messages: seq<Message>, id: nat, status: Status, i: nat)
    requires i <= |messages| && (i < |messages| ==> messages[i].entry.id == id)
    requires forall k | 0 <= k < i :: messages[k].entry.id != id
    ensures MqttTracking.UpdateStatus(messages, id, status)
         == if i == |messages| then messages else messages[i := messages[i].(status := status)]
    decreases i
  {
    if i > 0 {
      UpdateStatusFound(messages[1..], id, status, i - 1);
    }
  }
}
