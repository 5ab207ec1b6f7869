// Captured microphone packets on their way to the session: a locked queue, a notification flag
// and the wake-up tokens it guards (plugins/rdp/src/audio_input.rs).

module MicrophoneProtocol {
  import opened FixedWidth

  const MAX_QUEUED_PACKETS: nat := 8

  type Packet = seq<u8>

  /** Where the session thread is inside `drain` or `clear`. */
  datatype Consumer =
    | Idle
    | Woken       // a token was received, the queue not yet locked
    | Drained     // the queue is emptied, the flag not yet reset
    | Reset       // the flag is reset, the queue not yet looked at again
    | Rearming    // packets were found, the flag not yet swapped
    | Notifying   // the flag was swapped, the token not yet sent
    | Cleared     // `clear` emptied the queue, the flag not yet reset

  /**
   * One instant of the protocol. Any number of capture callbacks may be inside `push`: `pushed` of them are about
   * to swap the flag and `notifying` about to send a token. The last fields record what became of the packets, and
   * how many had been accepted when the queue was last emptied.
   */
  datatype Instant = Instant(
    packets: seq<Packet>, flag: bool, tokens: nat, pushed: nat, notifying: nat, consumer: Consumer,
    accepted: seq<Packet>, delivered: seq<Packet>, discarded: seq<Packet>, clears: nat, emptiedAt: nat)

  /** Everything one thread does without another being able to see the middle of it. */
  datatype Action =
    | Push(packet: Packet)      // try_lock succeeds: evict the oldest of eight, append, unlock
    | PushRefused(packet: Packet)
    | PushSwap
    | PushSend
    | Wake
    | DrainLock
    | DrainStore
    | DrainCheck
    | DrainSwap
    | DrainSend
    | ClearLock
    | ClearStore

  /** Actions a thread is not ready for leave everything as it is. */
  function Act(m: Instant, action: Action): Instant {
    match action
    case Push(packet) =>
      var evicted := if |m.packets| == MAX_QUEUED_PACKETS then m.packets[..1] else [];
      m.(packets := m.packets[|evicted|..] + [packet], pushed := m.pushed + 1,
         accepted := m.accepted + [packet], discarded := m.discarded + evicted)
    case PushRefused(_) => m
    case PushSwap =>
      if m.pushed == 0 then m
      else if m.flag then m.(pushed := m.pushed - 1)
      else m.(pushed := m.pushed - 1, flag := true, notifying := m.notifying + 1)
    case PushSend => if m.notifying == 0 then m else m.(notifying := m.notifying - 1, tokens := m.tokens + 1)
    case Wake => if m.consumer.Idle? && m.tokens > 0 then m.(tokens := m.tokens - 1, consumer := Woken) else m
    case DrainLock =>
      if m.consumer.Woken? then
        m.(packets := [], delivered := m.delivered + m.packets, consumer := Drained, emptiedAt := |m.accepted|)
      else m
    case DrainStore => if m.consumer.Drained? then m.(flag := false, consumer := Reset) else m
    case DrainCheck => if m.consumer.Reset? then m.(consumer := if m.packets == [] then Idle else Rearming) else m
    case DrainSwap =>
      if !m.consumer.Rearming? then m
      else if m.flag then m.(consumer := Idle)
      else m.(flag := true, consumer := Notifying)
    case DrainSend => if m.consumer.Notifying? then m.(tokens := m.tokens + 1, consumer := Idle) else m
    case ClearLock =>
      if m.consumer.Idle? then
        m.(packets := [], discarded := m.discarded + m.packets, consumer := Cleared, emptiedAt := |m.accepted|)
      else m
    case ClearStore => if m.consumer.Cleared? then m.(flag := false, consumer := Idle, clears := m.clears + 1) else m
  }

  const Start: Instant := Instant([], false, 0, 0, 0, Idle, [], [], [], 0, 0)

  function Run(m: Instant, actions: seq<Action>): Instant
    decreases |actions|
  {
    if actions == [] then m else Run(Act(m, actions[0]), actions[1..])
  }

  // ----- no wake-up is lost -----

  /** Somebody will still look at the queue. */
  predicate Attended(m: Instant) {
    m.tokens > 0 || m.pushed > 0 || m.notifying > 0 || m.consumer in {Woken, Drained, Reset, Rearming, Notifying}
  }

  /** Somebody owns the raised flag: a token, or a thread that is about to send one or to reset it after draining. */
  predicate FlagOwned(m: Instant) {
    m.tokens > 0 || m.notifying > 0 || m.consumer in {Woken, Drained, Notifying}
  }

  predicate WakeInv(m: Instant) {
    && (m.packets != [] ==> Attended(m))
    && (m.flag ==> FlagOwned(m))
  }

  /** Nobody is in the middle of anything. */
  predicate Quiet(m: Instant) {
    m.pushed == 0 && m.notifying == 0 && m.consumer.Idle?
  }

  /** Tokens and threads that hold one, against the flag that allows a single one between resets. */
  function Outstanding(m: Instant): nat {
    m.tokens + m.notifying + (if m.consumer in {Woken, Drained, Notifying} then 1 else 0)
  }

  // ----- no packet is duplicated or reordered -----

  ghost predicate Subsequence(s: seq<Packet>, t: seq<Packet>) {
    || s == []
    || (t != [] && s[|s| - 1] == t[|t| - 1] && Subsequence(s[..|s| - 1], t[..|t| - 1]))
    || (t != [] && Subsequence(s, t[..|t| - 1]))
  }

  lemma {:induction false} SubsequenceExtends(s: seq<Packet>, t: seq<Packet>, more: seq<Packet>)
    requires Subsequence(s, t)
    ensures Subsequence(s, t + more)
    decreases |more|
  {
    if more == [] {
      assert t + more == t;
    } else {
      SubsequenceExtends(s, t, more[..|more| - 1]);
      assert (t + more)[..|t + more| - 1] == t + more[..|more| - 1];
    }
  }

  lemma SubsequenceAppends(s: seq<Packet>, t: seq<Packet>, x: Packet)
    requires Subsequence(s, t)
    ensures Subsequence(s + [x], t + [x])
  {
    assert (s + [x])[..|s|] == s && (t + [x])[..|t|] == t;
  }

  /** How a subsequence ends: with the last element of the whole, or without it. */
  lemma SubsequenceEnds(s: seq<Packet>, t: seq<Packet>)
    requires s != [] && Subsequence(s, t)
    ensures t != []
    ensures Subsequence(s, t[..|t| - 1]) || (s[|s| - 1] == t[|t| - 1] && Subsequence(s[..|s| - 1], t[..|t| - 1]))
  {
  }

  lemma SubsequenceLonger(s: seq<Packet>, t: seq<Packet>)
    requires t != [] && Subsequence(s, t[..|t| - 1])
    ensures Subsequence(s, t)
  {
    hide Subsequence;
    SubsequenceExtends(s, t[..|t| - 1], [t[|t| - 1]]);
    assert t[..|t| - 1] + [t[|t| - 1]] == t;
  }

  lemma SubsequenceWithLast(s: seq<Packet>, t: seq<Packet>)
    requires s != [] && t != [] && s[|s| - 1] == t[|t| - 1] && Subsequence(s[..|s| - 1], t[..|t| - 1])
    ensures Subsequence(s, t)
  {
  }

  /** Leaving out some elements keeps a subsequence one. */
  lemma {:induction false} SubsequenceWithout(a: seq<Packet>, dropped: seq<Packet>, b: seq<Packet>, t: seq<Packet>)
    requires Subsequence(a + dropped + b, t)
    ensures Subsequence(a + b, t)
    decreases |t|
  {
    var s := a + dropped + b;
    if dropped == [] {
      assert s == a + b;
    } else {
      SubsequenceEnds(s, t);
      hide Subsequence;
      var shorter := t[..|t| - 1];
      if Subsequence(s, shorter) {
        SubsequenceWithout(a, dropped, b, shorter);
        SubsequenceLonger(a + b, t);
      } else if b != [] {
        assert s[..|s| - 1] == a + dropped + b[..|b| - 1];
        SubsequenceWithout(a, dropped, b[..|b| - 1], shorter);
        assert (a + b)[..|a + b| - 1] == a + b[..|b| - 1];
        SubsequenceWithLast(a + b, t);
      } else {
        var fewer := dropped[..|dropped| - 1];
        assert s[..|s| - 1] == a + fewer + b;
        SubsequenceWithout(a, fewer, b, shorter);
        SubsequenceLonger(a + b, t);
      }
    }
  }

  /** The queue holds the newest packets accepted since it was last emptied, and as many of them as fit. */
  ghost predicate HoldsNewest(packets: seq<Packet>, accepted: seq<Packet>, emptiedAt: nat) {
    && emptiedAt <= |accepted| && |packets| == Min(MAX_QUEUED_PACKETS, |accepted| - emptiedAt)
    && packets == accepted[|accepted| - |packets|..]
  }

  /** Every packet accepted was delivered, is queued or was discarded. */
  ghost predicate NoneLost(accepted: seq<Packet>, delivered: seq<Packet>, packets: seq<Packet>,
                           discarded: seq<Packet>) {
    multiset(accepted) == multiset(delivered) + multiset(packets) + multiset(discarded)
  }

  ghost predicate PacketInv(m: Instant) {
    && HoldsNewest(m.packets, m.accepted, m.emptiedAt)
    && Subsequence(m.delivered + m.packets, m.accepted)
    && NoneLost(m.accepted, m.delivered, m.packets, m.discarded)
  }

  lemma PushKeepsOrder(m: Instant, packet: Packet)
    requires PacketInv(m)
    ensures var after := Act(m, Push(packet)); Subsequence(after.delivered + after.packets, after.accepted)
  {
    hide Subsequence;
    var n := if |m.packets| == MAX_QUEUED_PACKETS then 1 else 0;
    var kept := m.packets[n..];
    assert m.delivered + m.packets == m.delivered + m.packets[..n] + kept;
    SubsequenceWithout(m.delivered, m.packets[..n], kept, m.accepted);
    SubsequenceAppends(m.delivered + kept, m.accepted, packet);
    assert m.delivered + kept + [packet] == m.delivered + (kept + [packet]);
    assert Act(m, Push(packet)).packets == kept + [packet];
  }

  lemma PushKeepsNewest(m: Instant, packet: Packet)
    requires HoldsNewest(m.packets, m.accepted, m.emptiedAt)
    ensures var after := Act(m, Push(packet)); HoldsNewest(after.packets, after.accepted, after.emptiedAt)
  {
    var after := Act(m, Push(packet));
    var n := if |m.packets| == MAX_QUEUED_PACKETS then 1 else 0;
    var start := |m.accepted| - |m.packets|;
    assert after.packets == m.packets[n..] + [packet];
    assert m.packets[n..] == m.accepted[start + n..];
    assert m.accepted[start + n..] + [packet] == (m.accepted + [packet])[start + n..];
  }

  lemma PushKeepsContents(m: Instant, packet: Packet)
    requires NoneLost(m.accepted, m.delivered, m.packets, m.discarded)
    ensures var after := Act(m, Push(packet));
            NoneLost(after.accepted, after.delivered, after.packets, after.discarded)
  {
    var n := if |m.packets| == MAX_QUEUED_PACKETS then 1 else 0;
    assert m.packets == m.packets[..n] + m.packets[n..];
    assert n == 0 ==> m.packets[n..] == m.packets;
  }

  /** Emptying the queue, into the session's hands or nowhere. */
  lemma EmptyingKeeps(m: Instant)
    requires PacketInv(m)
    ensures HoldsNewest([], m.accepted, |m.accepted|)
    ensures Subsequence(m.delivered + m.packets + [], m.accepted) && Subsequence(m.delivered + [], m.accepted)
    ensures NoneLost(m.accepted, m.delivered + m.packets, [], m.discarded)
    ensures NoneLost(m.accepted, m.delivered, [], m.discarded + m.packets)
  {
    hide Subsequence;
    assert m.delivered + m.packets + [] == m.delivered + m.packets;
    SubsequenceWithout(m.delivered, m.packets, [], m.accepted);
  }

  lemma ActKeepsPackets(m: Instant, action: Action)
    requires PacketInv(m)
    ensures PacketInv(Act(m, action))
  {
    hide Subsequence, HoldsNewest, NoneLost;
    match action {
      case Push(packet) =>
        PushKeepsOrder(m, packet);
        PushKeepsNewest(m, packet);
        PushKeepsContents(m, packet);
      case DrainLock => EmptyingKeeps(m);
      case ClearLock => EmptyingKeeps(m);
      case _ =>
    }
  }

  lemma ActKeepsWakeUps(m: Instant, action: Action)
    requires WakeInv(m)
    ensures WakeInv(Act(m, action))
  {
  }

  predicate FewWakeUps(m: Instant) {
    Outstanding(m) <= m.clears + (if m.flag then 1 else 0)
  }

  ghost predicate QueueInv(m: Instant) {
    WakeInv(m) && PacketInv(m) && FewWakeUps(m)
  }

  lemma ActKeeps(m: Instant, action: Action)
    requires QueueInv(m)
    ensures QueueInv(Act(m, action))
  {
    hide PacketInv, WakeInv;
    ActKeepsPackets(m, action);
    ActKeepsWakeUps(m, action);
  }

  lemma StartsQuiet()
    ensures QueueInv(Start) && Quiet(Start)
  {
  }

  lemma {:induction false} RunKeeps(m: Instant, actions: seq<Action>)
    requires QueueInv(m)
    ensures QueueInv(Run(m, actions))
    decreases |actions|
  {
    hide QueueInv, Act;
    if actions != [] {
      ActKeeps(m, actions[0]);
      RunKeeps(Act(m, actions[0]), actions[1..]);
    }
  }

  /**
   * Every interleaving of any number of pushes with the session's drains and clears: when nobody is in the middle
   * of anything and packets are queued, a wake-up is outstanding; the queue holds the last eight packets accepted
   * since it was last emptied, or all of them if they are fewer; the packets delivered, followed by those queued, are
   * accepted packets in their order, none of them twice, and the others were discarded; and no more wake-ups pile up
   * than one, plus one for each clear.
   */
  lemma NoWakeUpIsLost(actions: seq<Action>)
    ensures var after := Run(Start, actions);
            && (after.packets != [] && Quiet(after) ==> after.tokens > 0)
            && |after.packets| == Min(MAX_QUEUED_PACKETS, |after.accepted| - after.emptiedAt)
            && after.packets == after.accepted[|after.accepted| - |after.packets|..]
            && Subsequence(after.delivered + after.packets, after.accepted)
            && multiset(after.accepted) == multiset(after.delivered) + multiset(after.packets) +
              multiset(after.discarded)
            && after.tokens <= after.clears + 1
  {
    hide Subsequence, Run, Min;
    StartsQuiet();
    RunKeeps(Start, actions);
  }

  /** Acting on an outstanding wake-up empties the queue and hands over all of it, in order. */
  lemma WakeDeliversAll(m: Instant)
    requires QueueInv(m) && Quiet(m) && m.packets != []
    ensures var after := Run(m, [Wake, DrainLock, DrainStore, DrainCheck]);
            && Quiet(after) && after.packets == [] && after.delivered == m.delivered + m.packets
              && after.discarded == m.discarded
  {
    Run4(m, Wake, DrainLock, DrainStore, DrainCheck);
  }

  /** Clearing discards the whole queue, lowers the flag and leaves nobody in the middle of anything. */
  lemma ClearDiscardsAll(m: Instant)
    requires Quiet(m)
    ensures var after := Run(m, [ClearLock, ClearStore]);
            && Quiet(after) && after.packets == [] && !after.flag && after.tokens == m.tokens
            && after.delivered == m.delivered && after.discarded == m.discarded + m.packets
  {
    var m1 := Act(m, ClearLock);
    assert [ClearLock, ClearStore][1..] == [ClearStore] && [ClearStore][1..] == [];
    assert Run(m1, [ClearStore]) == Run(Act(m1, ClearStore), []);
  }

  /** A push into a queue whose flag is down wakes the session; while the flag is up another wake-up is not needed. */
  lemma PushNotifiesOnce(m: Instant, packet: Packet)
    requires Quiet(m)
    ensures var after := Act(Act(Act(m, Push(packet)), PushSwap), PushSend);
            && Quiet(after) && after.flag && after.packets != [] && after.packets[|after.packets| - 1] == packet
            && after.tokens == m.tokens + if m.flag then 0 else 1
  {
  }

  lemma Run4(m: Instant, a: Action, b: Action, c: Action, d: Action)
    ensures Run(m, [a, b, c, d]) == Act(Act(Act(Act(m, a), b), c), d)
  {
    hide Act;
    var m1, m2, m3 := Act(m, a), Act(Act(m, a), b), Act(Act(Act(m, a), b), c);
    assert [a, b, c, d][1..] == [b, c, d] && [b, c, d][1..] == [c, d] && [c, d][1..] == [d] && [d][1..] == [];
    assert Run(m3, [d]) == Run(Act(m3, d), []) == Act(m3, d);
    assert Run(m2, [c, d]) == Run(m3, [d]);
    assert Run(m1, [b, c, d]) == Run(m2, [c, d]);
  }
}

/** The queue as one thread sees it when no other is inside it: its methods are the actions above, in order. */
module MicrophoneQueue {
  import opened MicrophoneProtocol

  class MicrophonePacketQueue {
    var packets: seq<Packet>
    var notificationPending: bool
    var sentTokens: nat
    ghost var accepted: seq<Packet>
    ghost var delivered: seq<Packet>
    ghost var discarded: seq<Packet>
    ghost var clears: nat
    ghost var emptiedAt: nat

    ghost function At(consumer: Consumer): Instant
      reads this
    {
      Instant(packets, notificationPending, sentTokens, 0, 0, consumer, accepted, delivered, discarded, clears,
        emptiedAt)
    }

    constructor ()
      ensures At(Idle) == Start
    {
      packets, notificationPending, sentTokens := [], false, 0;
      accepted, delivered, discarded, clears, emptiedAt := [], [], [], 0, 0;
    }

    method Push(packet: Packet, lockFree: bool)
      requires |packets| <= MAX_QUEUED_PACKETS
      modifies this
      ensures At(Idle) == if lockFree then Act(Act(Act(old(At(Idle)), Action.Push(packet)), PushSwap), PushSend)
              else old(At(Idle))
      // A full queue gives up its first packet, and nothing else leaves.
      ensures lockFree ==>
                && packets == (if |old(packets)| == 8 then old(packets)[1..] else old(packets)) + [packet]
                && discarded == old(discarded) + (if |old(packets)| == 8 then [old(packets)[0]] else [])
    {
      if !lockFree {
        return;
      }
      if |packets| == MAX_QUEUED_PACKETS {
        discarded := discarded + packets[..1];
        packets := packets[1..];
      }
      packets := packets + [packet];
      accepted := accepted + [packet];
      var pending := notificationPending;
      notificationPending := true;
      if !pending {
        sentTokens := sentTokens + 1;
      }
    }

    method Drain() returns (drained: seq<Packet>)
      modifies this
      ensures drained == old(packets)
      ensures At(Idle) == Act(Act(Act(old(At(Woken)), DrainLock), DrainStore), DrainCheck)
    {
      drained := packets;
      packets := [];
      delivered := delivered + drained;
      emptiedAt := |accepted|;
      notificationPending := false;
      // A packet that arrived in between would raise the flag again here.
      var rearms := packets != [] && !notificationPending;
      notificationPending := notificationPending || rearms;
      sentTokens := sentTokens + if rearms then 1 else 0;
    }

    method Clear()
      modifies this
      ensures At(Idle) == Act(Act(old(At(Idle)), ClearLock), ClearStore)
    {
      discarded := discarded + packets;
      packets := [];
      notificationPending := false;
      clears := clears + 1;
      emptiedAt := |accepted|;
    }
  }
}
