/**
 * The connection loop of `BiddingWorker.ExecuteAsync`, driven by abstract
 * broker events instead of real connections. While not connected, each pass
 * of the loop tries to connect, declare the `bidding` queue and start
 * consuming; a failure of any kind waits `retryDelaySeconds` and tries
 * again, with no limit on attempts and no growth of the delay. While
 * connected, each pass only waits one second. A shutdown of the channel
 * clears `connected`; a stop request ends the loop.
 */
module Supervisor {

  /** The three catch clauses of the connect phase. */
  datatype FailureKind = BrokerUnreachable | ConnectFailure | OtherException

  datatype Event =
    | ConnectOk                  // one pass of the loop; a connect attempt in it would succeed
    | ConnectFail(kind: FailureKind)  // one pass of the loop; a connect attempt in it would throw
    | Shutdown                   // the channel's shutdown callback runs
    | Stop                       // cancellation is requested

  /**
   * The loop's variables: `connected`, whether the loop has ended, the
   * number of connect attempts made, `retryDelaySeconds`, and the delays
   * waited so far, in milliseconds.
   */
  datatype State = State(connected: bool, stopped: bool, attempts: nat, retryDelaySeconds: nat, waits: seq<nat>)

  const InitialRetryDelaySeconds: nat := 5
  const IdleWaitMillis: nat := 1000

  const Initial: State := State(false, false, 0, InitialRetryDelaySeconds, [])

  function Step(s: State, e: Event): (r: State)
    ensures r.retryDelaySeconds == s.retryDelaySeconds
    ensures s.stopped ==> r == s
    ensures r.attempts == s.attempts || (r.attempts == s.attempts + 1 && !s.connected && !s.stopped)
    ensures r.connected && !s.connected ==> e == ConnectOk
  {
    if s.stopped then s
    else
      match e
      case Stop => s.(stopped := true)
      case Shutdown => s.(connected := false)
      case ConnectOk =>
        if s.connected then s.(waits := s.waits + [IdleWaitMillis])
        else s.(connected := true, attempts := s.attempts + 1)
      case ConnectFail(_) =>
        if s.connected then s.(waits := s.waits + [IdleWaitMillis])
        else s.(attempts := s.attempts + 1, waits := s.waits + [s.retryDelaySeconds * 1000])
  }

  /** The state after the events, in order. */
  function Replay(s: State, events: seq<Event>): State
    decreases |events|
  {
    if events == [] then s
    else Step(Replay(s, events[..|events| - 1]), events[|events| - 1])
  }

  lemma {:induction false} ReplayAppend(s: State, xs: seq<Event>, ys: seq<Event>)
    ensures Replay(s, xs + ys) == Replay(Replay(s, xs), ys)
    decreases |ys|
  {
    if ys == [] {
      assert xs + ys == xs;
    } else {
      assert (xs + ys)[..|xs + ys| - 1] == xs + ys[..|ys| - 1];
      ReplayAppend(s, xs, ys[..|ys| - 1]);
    }
  }

  /** Once the loop has ended, no event changes anything. */
  lemma {:induction false} StoppedIsFinal(s: State, events: seq<Event>)
    requires s.stopped
    ensures Replay(s, events) == s
  {
    if events != [] {
      StoppedIsFinal(s, events[..|events| - 1]);
    }
  }

  // ---------------------------------------------------------------------
  // Retry policy
  // ---------------------------------------------------------------------

  predicate AllFailures(events: seq<Event>)
  {
    forall i :: 0 <= i < |events| ==> events[i].ConnectFail?
  }

  function Repeat(x: nat, n: nat): (r: seq<nat>)
    ensures |r| == n && forall i :: 0 <= i < n ==> r[i] == x
  {
    if n == 0 then [] else Repeat(x, n - 1) + [x]
  }

  /**
   * From the start, any number of failures of any kind leaves the worker
   * disconnected and running, one attempt per failure, each followed by the
   * same five-second wait: there is no attempt cap and no backoff growth.
   */
  lemma {:induction false} FailuresRetryForever(failures: seq<Event>)
    requires AllFailures(failures)
    ensures Replay(Initial, failures) ==
              State(false, false, |failures|, InitialRetryDelaySeconds, Repeat(InitialRetryDelaySeconds * 1000, |failures|))
  {
    if failures != [] {
      FailuresRetryForever(failures[..|failures| - 1]);
    }
  }

  /** Any number of failures followed by one success ends connected, after one attempt more. */
  lemma FailuresThenSuccessConnects(failures: seq<Event>)
    requires AllFailures(failures)
    ensures Replay(Initial, failures + [ConnectOk]) ==
              State(true, false, |failures| + 1, InitialRetryDelaySeconds, Repeat(5000, |failures|))
  {
    ReplayAppend(Initial, failures, [ConnectOk]);
    FailuresRetryForever(failures);
  }

  /**
   * Over any events, the retry delay never changes and every wait is
   * either the one-second idle wait or the retry delay.
   */
  lemma {:induction false} DelayNeverChanges(s: State, events: seq<Event>)
    ensures Replay(s, events).retryDelaySeconds == s.retryDelaySeconds
    ensures |s.waits| <= |Replay(s, events).waits|
    ensures Replay(s, events).waits[..|s.waits|] == s.waits
    ensures forall i :: |s.waits| <= i < |Replay(s, events).waits| ==>
              Replay(s, events).waits[i] in {IdleWaitMillis, s.retryDelaySeconds * 1000}
  {
    if events != [] {
      DelayNeverChanges(s, events[..|events| - 1]);
    }
  }

  // ---------------------------------------------------------------------
  // The `connected` flag
  // ---------------------------------------------------------------------

  /** While the loop runs, becoming connected needs a successful pass, and no shutdown after it. */
  lemma {:induction false} ConnectedOnlyAfterSuccess(s: State, events: seq<Event>)
    requires !s.connected && !s.stopped
    requires forall j :: 0 <= j < |events| ==> events[j] != Stop
    requires Replay(s, events).connected
    ensures exists i :: 0 <= i < |events| && events[i] == ConnectOk &&
              forall j :: i < j < |events| ==> events[j] != Shutdown
  {
    var prefix := events[..|events| - 1];
    var last := events[|events| - 1];
    NotStoppedBeforeStop(s, prefix);
    if Replay(s, prefix).connected {
      ConnectedOnlyAfterSuccess(s, prefix);
      var i :| 0 <= i < |prefix| && prefix[i] == ConnectOk &&
               forall j :: i < j < |prefix| ==> prefix[j] != Shutdown;
      assert events[i] == prefix[i];
      assert last != Shutdown;
      assert forall j :: i < j < |events| - 1 ==> events[j] == prefix[j];
    } else {
      assert last == ConnectOk;
    }
  }

  /** A shutdown before the loop ends, with no success after it, leaves the worker disconnected. */
  lemma {:induction false} ShutdownDisconnects(s: State, events: seq<Event>, k: nat)
    requires k < |events| && events[k] == Shutdown
    requires forall j :: 0 <= j < k ==> events[j] != Stop
    requires !s.stopped
    requires forall j :: k < j < |events| ==> events[j] != ConnectOk
    ensures !Replay(s, events).connected
    decreases |events|
  {
    var prefix := events[..|events| - 1];
    if k == |events| - 1 {
      NotStoppedBeforeStop(s, prefix);
    } else {
      assert forall j :: 0 <= j < |prefix| ==> prefix[j] == events[j];
      ShutdownDisconnects(s, prefix, k);
    }
  }

  lemma {:induction false} NotStoppedBeforeStop(s: State, events: seq<Event>)
    requires !s.stopped
    requires forall j :: 0 <= j < |events| ==> events[j] != Stop
    ensures !Replay(s, events).stopped
  {
    if events != [] {
      NotStoppedBeforeStop(s, events[..|events| - 1]);
    }
  }

  /** While connected, a pass of the loop makes no connect attempt and only waits one second. */
  lemma ConnectedOnlyWaits(s: State, e: Event)
    requires s.connected && !s.stopped && (e == ConnectOk || e.ConnectFail?)
    ensures Step(s, e) == s.(waits := s.waits + [IdleWaitMillis])
  {
  }
}
