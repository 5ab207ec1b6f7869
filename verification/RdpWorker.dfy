// Epoch handover across reconnects (`run_rdp_worker`, plugins/rdp/src/runtime.rs).

module RdpWorker {
  import opened FixedWidth
  import opened Viewer
  import opened GraphicsChannel
  import opened Epochs
  import RdpSession

  datatype SessionExit = Closed | ReconnectRequested | RemoteEnded | ConnectionFailed

  /** One connection of the worker: a complete run of the session machine, ended by `exit`. */
  datatype Connection = Connection(
    image: Image, withEgfx: bool, capacity: nat,
    run: seq<RdpSession.Session>, events: seq<RdpSession.Event>, exit: SessionExit)

  ghost predicate StartedAt(c: Connection, epoch: u64) {
    RdpSession.IsRun(c.run, c.events, epoch, c.image, c.withEgfx, c.capacity)
  }

  function LastEpoch(c: Connection): u64
    requires c.run != []
  {
    c.run[|c.run| - 1].latestEpoch
  }

  function LastLog(c: Connection): seq<Emission>
    requires c.run != []
  {
    c.run[|c.run| - 1].channel.log
  }

  /** The epoch the worker announces before a replacement connection. */
  function NextEpoch(configured: u64, reported: u64): u64 {
    Max(SaturatingAdd64(Max(configured, reported), 1), 1)
  }

  /** The next epoch is the first one later than both. */
  lemma NextEpochIsNext(configured: u64, reported: u64)
    ensures var next := NextEpoch(configured, reported);
            && (configured < U64_MAX && reported < U64_MAX ==>
                  next > configured && next > reported && (next == configured + 1 || next == reported + 1))
            && (configured == U64_MAX || reported == U64_MAX ==> next == U64_MAX)
  {
  }

  class Worker {
    var graphicsEpoch: u64
    var reconnecting: bool
    /** Everything enqueued by all connections and by the worker itself, in order. */
    ghost var log: seq<Emission>
    ghost const start: u64

    constructor (epoch: u64)
      ensures Valid() && graphicsEpoch == start == epoch && log == []
    {
      graphicsEpoch, reconnecting := epoch, false;
      log := [];
      start := epoch;
    }

    /** The joint log is in order and the next connection will start in the epoch last announced. */
    ghost predicate Valid()
      reads this
    {
      LogInOrder(log, start) && graphicsEpoch == CurrentEpoch(log, start)
    }

    /** Retires a finished connection; on a reconnect request the barrier goes out before the next one starts. */
    method FinishConnection(connection: Connection) returns (again: bool)
      requires Valid() && StartedAt(connection, graphicsEpoch)
      modifies this
      ensures again == connection.exit.ReconnectRequested?
      ensures again ==> Valid() && reconnecting
      ensures LogInOrder(log, start)
      ensures log == old(log) + LastLog(connection)
                     + (if !again then []
                        else [ToControl(FrameStreamReset(NextEpoch(old(graphicsEpoch), LastEpoch(connection))))])
      ensures again ==> Advances(CurrentEpoch(old(log) + LastLog(connection), start), graphicsEpoch)
    {
      hide LogInOrder;
      RdpSession.RunsKeepEpochOrder(connection.run, connection.events, graphicsEpoch, connection.image,
                                    connection.withEgfx, connection.capacity, |connection.run| - 1);
      LogsConcatenate(log, LastLog(connection), start);
      EpochOfLog(LastLog(connection), graphicsEpoch);
      log := log + LastLog(connection);
      graphicsEpoch := Max(graphicsEpoch, LastEpoch(connection));
      if connection.exit.ReconnectRequested? {
        graphicsEpoch := Max(SaturatingAdd64(graphicsEpoch, 1), 1);
        LogInOrderExtend(log, start, ToControl(FrameStreamReset(graphicsEpoch)));
        log := log + [ToControl(FrameStreamReset(graphicsEpoch))];
        reconnecting := true;
        return true;
      }
      assert log + [] == log;
      return false;
    }
  }

  lemma PrefixInOrder(log: seq<Emission>, n: nat, start: u64)
    requires LogInOrder(log, start) && n < |log|
    ensures LogInOrder(log[..n], start) && InOrder(log[n], CurrentEpoch(log[..n], start))
  {
    hide InOrder;
    forall i | 0 <= i < n ensures InOrder(log[..n][i], CurrentEpoch(log[..n][..i], start)) {
      assert log[..n][..i] == log[..i];
      assert InOrder(log[i], CurrentEpoch(log[..i], start));
    }
  }

  lemma {:induction false} LogsConcatenate(first: seq<Emission>, second: seq<Emission>, start: u64)
    requires LogInOrder(first, start) && LogInOrder(second, CurrentEpoch(first, start))
    ensures LogInOrder(first + second, start)
    ensures CurrentEpoch(first + second, start) == CurrentEpoch(second, CurrentEpoch(first, start))
    decreases |second|
  {
    hide InOrder, IsReset;
    if second == [] {
      assert first + second == first;
    } else {
      var n := |second| - 1;
      var middle := CurrentEpoch(first, start);
      PrefixInOrder(second, n, middle);
      hide LogInOrder;
      LogsConcatenate(first, second[..n], start);
      LogInOrderExtend(first + second[..n], start, second[n]);
      assert first + second[..n] + [second[n]] == first + second;
    }
  }

  /** A session never goes back below the epoch it started in. */
  lemma {:induction false} EpochOfLog(log: seq<Emission>, start: u64)
    requires LogInOrder(log, start)
    ensures CurrentEpoch(log, start) >= start
  {
    EpochNeverFalls(log, start, 0, |log|);
    assert log[..|log|] == log && log[..0] == [];
  }

  // ----- whole worker lifetimes -----

  /** Each connection starts in the epoch announced at the end of the one before. */
  ghost predicate IsLifetime(connections: seq<Connection>, epoch: u64)
    decreases |connections|
  {
    connections != [] ==>
      && StartedAt(connections[0], epoch)
      && (|connections| > 1 ==>
            connections[0].exit.ReconnectRequested?
              && IsLifetime(connections[1..], NextEpoch(epoch, LastEpoch(connections[0]))))
  }

  ghost function LifetimeLog(connections: seq<Connection>, epoch: u64): seq<Emission>
    requires IsLifetime(connections, epoch)
    decreases |connections|
  {
    if connections == [] then []
    else if |connections| == 1 then LastLog(connections[0])
    else
      var next := NextEpoch(epoch, LastEpoch(connections[0]));
      LastLog(connections[0]) + [ToControl(FrameStreamReset(next))] + LifetimeLog(connections[1..], next)
  }

  /**
   * Over any number of reconnects, the joint log of pictures and resets is in order: resets announce
   * ever later epochs and every picture belongs to the reset before it.
   */
  lemma {:induction false} LifetimesKeepEpochOrder(connections: seq<Connection>, epoch: u64)
    requires IsLifetime(connections, epoch)
    ensures LogInOrder(LifetimeLog(connections, epoch), epoch)
    decreases |connections|
  {
    hide LogInOrder;
    if connections == [] {
      EmptyInOrder(epoch);
    } else {
      var c := connections[0];
      RdpSession.RunsKeepEpochOrder(c.run, c.events, epoch, c.image, c.withEgfx, c.capacity, |c.run| - 1);
      EpochOfLog(LastLog(c), epoch);
      if |connections| > 1 {
        var next := NextEpoch(epoch, LastEpoch(c));
        LogInOrderExtend(LastLog(c), epoch, ToControl(FrameStreamReset(next)));
        LifetimesKeepEpochOrder(connections[1..], next);
        LogsConcatenate(LastLog(c) + [ToControl(FrameStreamReset(next))], LifetimeLog(connections[1..], next), epoch);
      }
    }
  }

  lemma EmptyInOrder(epoch: u64)
    ensures LogInOrder([], epoch)
  {
  }
}
