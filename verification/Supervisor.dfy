/** The restart loop around the tunnel's child process.  A run is given by what the environment
    delivers; the calls the supervisor makes are its output.  Log lines are not part of the model. */
module Supervisor {
  import opened Gf2
  import opened Results

  const SECOND: nat := 1_000_000_000
  const NOT_READY_GRACE := 15 * SECOND
  const BACKOFF_INITIAL := 2 * SECOND
  const BACKOFF_MAX := 60 * SECOND

  datatype Poll = PollError | Ready | NotReady

  /** Whether a terminated child exits within the shutdown grace. */
  datatype Quit = InTime | Late

  /** What one `select` receives; polls carry the time at which they are handled. */
  datatype Event = Cancelled(quit: Quit) | Exited | Polled(poll: Poll, at: nat) | PollsClosed

  /** The callbacks that are set. */
  datatype Hooks = Hooks(onReady: bool, onHostname: bool)

  datatype Call =
    | ReportReady(ready: bool)
    | ReportHostname
    | Launch(child: nat)
    | Terminate(child: nat)
    | Kill(child: nat)
    | ReceiveExit(child: nat)
    | Sleep(duration: nat)

  datatype Reason = Watching | ContextCancelled | ProcessExited | PollChannelClosed | NotReadyTooLong

  // ---- what a watch should do, from the events alone

  ghost predicate PollAt(events: seq<Event>, k: nat, poll: Poll)
  {
    k < |events| && events[k].Polled? && events[k].poll == poll
  }

  /** Poll times never decrease. */
  ghost predicate Timely(events: seq<Event>)
  {
    forall i, j :: 0 <= i < j < |events| && events[i].Polled? && events[j].Polled? ==> events[i].at <= events[j].at
  }

  /** Event `j` is a not-ready poll with no ready poll between it and `k`; error polls do not matter. */
  ghost predicate Open(events: seq<Event>, j: nat, k: nat)
  {
    j < k && PollAt(events, j, NotReady) && forall i :: j < i < k ==> !PollAt(events, i, Ready)
  }

  /** Not-ready polls up to `k`, with no ready poll among them, span more than the grace. */
  ghost predicate Stale(events: seq<Event>, k: nat)
  {
    PollAt(events, k, NotReady)
    && exists j: nat :: Open(events, j, k) && events[k].at > events[j].at + NOT_READY_GRACE
  }

  ghost function Verdict(events: seq<Event>, k: nat): (r: Reason)
    requires k < |events|
  {
    match events[k]
    case Cancelled(_) => ContextCancelled
    case Exited => ProcessExited
    case PollsClosed => PollChannelClosed
    case Polled(_, _) => if Stale(events, k) then NotReadyTooLong else Watching
  }

  ghost predicate Quiet(events: seq<Event>, k: nat)
    requires k <= |events|
  {
    forall i: nat :: i < k ==> Verdict(events, i) == Watching
  }

  /** The watch ends at the first event with a verdict. */
  ghost predicate Ends(events: seq<Event>, used: nat, reason: Reason)
  {
    used <= |events|
    && if reason == Watching then used == |events| && Quiet(events, used)
       else used > 0 && Quiet(events, used - 1) && Verdict(events, used - 1) == reason
  }

  ghost predicate ReadyBefore(events: seq<Event>, k: nat)
  {
    exists i: nat :: i < k && PollAt(events, i, Ready)
  }

  lemma ReadyBeforeStep(events: seq<Event>, k: nat)
    ensures ReadyBefore(events, k + 1) <==> ReadyBefore(events, k) || PollAt(events, k, Ready)
  {
  }

  function Reported(hooks: Hooks, ready: bool): (calls: seq<Call>)
  {
    if hooks.onReady then [ReportReady(ready)] else []
  }

  /** The calls for one event; `seen` says whether a ready poll was handled before it. */
  function CallsFor(hooks: Hooks, named: bool, child: nat, event: Event, seen: bool): (calls: seq<Call>)
  {
    match event
    case Cancelled(InTime) => [Terminate(child), ReceiveExit(child)]
    case Cancelled(Late) => [Terminate(child), Kill(child), ReceiveExit(child)]
    case Exited => [ReceiveExit(child)] + Reported(hooks, false)
    case PollsClosed => Reported(hooks, false)
    case Polled(PollError, _) => []
    case Polled(NotReady, _) => Reported(hooks, false)
    case Polled(Ready, _) => Reported(hooks, true) + if named && hooks.onHostname && !seen then [ReportHostname] else []
  }

  ghost function CallsAt(hooks: Hooks, named: bool, child: nat, events: seq<Event>, k: nat): (calls: seq<Call>)
    requires k < |events|
  {
    CallsFor(hooks, named, child, events[k], ReadyBefore(events, k))
  }

  ghost function CallsOf(hooks: Hooks, named: bool, child: nat, events: seq<Event>, used: nat): (calls: seq<Call>)
    requires used <= |events|
  {
    if used == 0 then []
    else CallsOf(hooks, named, child, events, used - 1) + CallsAt(hooks, named, child, events, used - 1)
  }

  /** The start of the current not-ready window after `k` events, if one is open. */
  ghost predicate Window(events: seq<Event>, k: nat, since: Option<nat>)
    requires k <= |events|
  {
    match since
    case None => forall j: nat :: !Open(events, j, k)
    case Some(t) => exists s: nat ::
      Open(events, s, k) && events[s].at == t && forall j: nat :: j < s ==> !Open(events, j, k)
  }

  function NextWindow(event: Event, since: Option<nat>): (r: Option<nat>)
  {
    match event
    case Polled(Ready, _) => None
    case Polled(NotReady, at) => if since.None? then Some(at) else since
    case _ => since
  }

  lemma OpenStep(events: seq<Event>, j: nat, k: nat)
    requires k < |events|
    ensures Open(events, j, k + 1) <==>
      (j == k && PollAt(events, k, NotReady)) || (Open(events, j, k) && !PollAt(events, k, Ready))
  {
  }

  /** The window's start is all the loop must remember to recognise a stale window. */
  lemma WindowStep(events: seq<Event>, k: nat, since: Option<nat>)
    requires Timely(events) && k < |events| && Window(events, k, since)
    ensures Window(events, k + 1, NextWindow(events[k], since))
    ensures Stale(events, k) <==>
      PollAt(events, k, NotReady) && since.Some? && events[k].at > since.value + NOT_READY_GRACE
  {
    var m := k + 1;
    forall j: nat ensures Open(events, j, m) <==>
      (j == k && PollAt(events, k, NotReady)) || (Open(events, j, k) && !PollAt(events, k, Ready))
    {
      OpenStep(events, j, k);
    }
    if since.Some? {
      var s: nat :| Open(events, s, k) && events[s].at == since.value && forall j: nat :: j < s ==> !Open(events, j, k);
      StaleFrom(events, k, s);
      assert s < k;
      hide Open;
      if !PollAt(events, k, Ready) {
        assert Open(events, s, m);
      }
    } else {
      hide Open;
      if PollAt(events, k, NotReady) {
        assert Open(events, k, m);
      }
    }
  }

  lemma StaleFrom(events: seq<Event>, k: nat, s: nat)
    requires Timely(events) && k < |events| && Open(events, s, k)
    requires forall j: nat :: j < s ==> !Open(events, j, k)
    ensures Stale(events, k) <==> PollAt(events, k, NotReady) && events[k].at > events[s].at + NOT_READY_GRACE
  {
  }

  // ---- the watch loop

  /** Signal the child and wait for its exit, killing it when it is late. */
  method Shutdown(child: nat, quit: Quit) returns (calls: seq<Call>)
    ensures calls == [Terminate(child)] + (if quit == Late then [Kill(child)] else []) + [ReceiveExit(child)]
  {
    calls := [Terminate(child)];
    if quit == Late {
      calls := calls + [Kill(child)];
    }
    calls := calls + [ReceiveExit(child)];
  }

  /** What the loop knows after `used` events without a verdict. */
  ghost predicate Tracking(hooks: Hooks, named: bool, child: nat, events: seq<Event>, used: nat,
                           calls: seq<Call>, since: Option<nat>, fired: bool)
  {
    && used <= |events| && Quiet(events, used) && Window(events, used, since)
    && calls == CallsOf(hooks, named, child, events, used)
    && (named && hooks.onHostname ==> (fired <==> ReadyBefore(events, used)))
  }

  lemma TrackingStep(hooks: Hooks, named: bool, child: nat, events: seq<Event>, used: nat,
                     calls: seq<Call>, since: Option<nat>, fired: bool)
    requires Timely(events) && used < |events|
    requires Tracking(hooks, named, child, events, used, calls, since, fired)
    ensures calls + CallsFor(hooks, named, child, events[used], fired) == CallsOf(hooks, named, child, events, used + 1)
    ensures Verdict(events, used) == match events[used]
      case Cancelled(_) => ContextCancelled
      case Exited => ProcessExited
      case PollsClosed => PollChannelClosed
      case Polled(NotReady, at) =>
        if since.Some? && at > since.value + NOT_READY_GRACE then NotReadyTooLong else Watching
      case _ => Watching
    ensures if Verdict(events, used) != Watching then Ends(events, used + 1, Verdict(events, used))
      else Tracking(hooks, named, child, events, used + 1, calls + CallsFor(hooks, named, child, events[used], fired),
                    NextWindow(events[used], since), fired || events[used] == Polled(Ready, events[used].at))
  {
    WindowStep(events, used, since);
    ReadyBeforeStep(events, used);
    hide Window, Stale, ReadyBefore;
    assert CallsFor(hooks, named, child, events[used], fired) == CallsAt(hooks, named, child, events, used);
  }

  method Watch(hooks: Hooks, named: bool, child: nat, events: seq<Event>)
    returns (reason: Reason, used: nat, calls: seq<Call>)
    requires Timely(events)
    ensures Ends(events, used, reason)
    ensures calls == CallsOf(hooks, named, child, events, used)
  {
    var notReadySince: Option<nat> := None;
    var namedHostnameFired := false;
    calls := [];
    used := 0;
    assert forall j: nat :: !Open(events, j, 0);
    hide Verdict, CallsOf, Ends, Reported;
    while used < |events|
      invariant Tracking(hooks, named, child, events, used, calls, notReadySince, namedHostnameFired)
    {
      var event := events[used];
      TrackingStep(hooks, named, child, events, used, calls, notReadySince, namedHostnameFired);
      hide Tracking;
      used := used + 1;
      match event {
        case Cancelled(quit) =>
          var stop := Shutdown(child, quit);
          return ContextCancelled, used, calls + stop;
        case Exited =>
          return ProcessExited, used, calls + ([ReceiveExit(child)] + Reported(hooks, false));
        case PollsClosed =>
          return PollChannelClosed, used, calls + Reported(hooks, false);
        case Polled(poll, at) =>
          if poll == PollError {
            continue;
          }
          var report := Reported(hooks, poll == Ready);
          if poll == Ready {
            notReadySince := None;
            if named && !namedHostnameFired && hooks.onHostname {
              namedHostnameFired := true;
              report := report + [ReportHostname];
            }
            calls := calls + report;
            continue;
          }
          calls := calls + report;
          if notReadySince.None? {
            notReadySince := Some(at);
            continue;
          }
          if at > notReadySince.value + NOT_READY_GRACE {
            return NotReadyTooLong, used, calls;
          }
      }
    }
    reason := Watching;
  }

  // ---- what every watch guarantees

  ghost function LastReport(calls: seq<Call>): (r: Option<bool>)
  {
    if calls == [] then None
    else if calls[|calls| - 1].ReportReady? then Some(calls[|calls| - 1].ready)
    else LastReport(calls[..|calls| - 1])
  }

  lemma {:induction false} LastReportConcat(a: seq<Call>, b: seq<Call>)
    ensures LastReport(a + b) == if LastReport(b).Some? then LastReport(b) else LastReport(a)
  {
    if b == [] {
      assert a + b == a;
    } else {
      assert (a + b)[..|a + b| - 1] == a + b[..|b| - 1];
      LastReportConcat(a, b[..|b| - 1]);
    }
  }

  /** A caller never keeps a stale ready state across a restart. */
  lemma RestartReportsNotReady(hooks: Hooks, named: bool, child: nat, events: seq<Event>, used: nat, reason: Reason)
    requires hooks.onReady && Ends(events, used, reason)
    requires reason in {ProcessExited, PollChannelClosed, NotReadyTooLong}
    ensures LastReport(CallsOf(hooks, named, child, events, used)) == Some(false)
  {
    var before := CallsOf(hooks, named, child, events, used - 1);
    var last := CallsAt(hooks, named, child, events, used - 1);
    assert last[|last| - 1] == ReportReady(false);
    LastReportConcat(before, last);
  }

  function HostnameReports(calls: seq<Call>): (n: nat)
  {
    if calls == [] then 0
    else HostnameReports(calls[..|calls| - 1]) + if calls[|calls| - 1] == ReportHostname then 1 else 0
  }

  lemma {:induction false} HostnameReportsConcat(a: seq<Call>, b: seq<Call>)
    ensures HostnameReports(a + b) == HostnameReports(a) + HostnameReports(b)
  {
    if b == [] {
      assert a + b == a;
    } else {
      assert (a + b)[..|a + b| - 1] == a + b[..|b| - 1];
      HostnameReportsConcat(a, b[..|b| - 1]);
    }
  }

  lemma ReadyReports(hooks: Hooks, more: bool)
    ensures HostnameReports(Reported(hooks, true) + if more then [ReportHostname] else []) == if more then 1 else 0
  {
    var report := Reported(hooks, true);
    ThreeQuietCalls(report);
    if more {
      HostnameReportsConcat(report, [ReportHostname]);
      assert HostnameReports([ReportHostname]) == 1 + HostnameReports([]) by { assert [ReportHostname][..0] == []; }
    } else {
      assert report + [] == report;
    }
  }

  lemma HostnameReportsAt(hooks: Hooks, named: bool, child: nat, events: seq<Event>, k: nat)
    requires k < |events|
    ensures HostnameReports(CallsAt(hooks, named, child, events, k))
         == if named && hooks.onHostname && PollAt(events, k, Ready) && !ReadyBefore(events, k) then 1 else 0
  {
    hide ReadyBefore, HostnameReports;
    var calls := CallsAt(hooks, named, child, events, k);
    if PollAt(events, k, Ready) {
      ReadyReports(hooks, named && hooks.onHostname && !ReadyBefore(events, k));
    } else {
      ThreeQuietCalls(calls);
    }
  }

  lemma ThreeQuietCalls(calls: seq<Call>)
    requires |calls| <= 3 && ReportHostname !in calls
    ensures HostnameReports(calls) == 0
  {
    if calls != [] {
      assert ReportHostname !in calls[..|calls| - 1];
      ThreeQuietCalls(calls[..|calls| - 1]);
    }
  }

  /** A named launch reports its hostname once if a ready poll was handled, and otherwise never. */
  lemma {:induction false} HostnameOnce(hooks: Hooks, named: bool, child: nat, events: seq<Event>, used: nat)
    requires used <= |events|
    ensures HostnameReports(CallsOf(hooks, named, child, events, used))
         == if named && hooks.onHostname && ReadyBefore(events, used) then 1 else 0
  {
    if used > 0 {
      hide ReadyBefore, PollAt, CallsAt;
      HostnameOnce(hooks, named, child, events, used - 1);
      HostnameReportsAt(hooks, named, child, events, used - 1);
      HostnameReportsConcat(CallsOf(hooks, named, child, events, used - 1),
        CallsAt(hooks, named, child, events, used - 1));
      ReadyBeforeStep(events, used - 1);
    }
  }

  /** The hostname report directly follows the report of the ready poll. */
  lemma {:induction false} HostnameAfterReady(hooks: Hooks, named: bool, child: nat, events: seq<Event>, used: nat,
      p: nat)
    requires used <= |events| && hooks.onReady
    requires p < |CallsOf(hooks, named, child, events, used)|
    requires CallsOf(hooks, named, child, events, used)[p] == ReportHostname
    ensures p > 0 && CallsOf(hooks, named, child, events, used)[p - 1] == ReportReady(true)
  {
    var before := CallsOf(hooks, named, child, events, used - 1);
    if p < |before| {
      HostnameAfterReady(hooks, named, child, events, used - 1, p);
    } else {
      hide ReadyBefore;
      var last := CallsAt(hooks, named, child, events, used - 1);
      assert last[p - |before|] == ReportHostname;
      assert last == [ReportReady(true), ReportHostname];
    }
  }

  ghost function LiveStep(live: set<nat>, call: Call): (r: set<nat>)
  {
    match call
    case Launch(c) => live + {c}
    case Kill(c) => live - {c}
    case ReceiveExit(c) => live - {c}
    case _ => live
  }

  /** The children launched and neither seen to exit nor sent a kill. */
  ghost function Live(start: set<nat>, calls: seq<Call>): (live: set<nat>)
  {
    if calls == [] then start else LiveStep(Live(start, calls[..|calls| - 1]), calls[|calls| - 1])
  }

  lemma {:induction false} LiveConcat(start: set<nat>, a: seq<Call>, b: seq<Call>)
    ensures Live(start, a + b) == Live(Live(start, a), b)
  {
    if b == [] {
      assert a + b == a;
    } else {
      assert (a + b)[..|a + b| - 1] == a + b[..|b| - 1];
      LiveConcat(start, a, b[..|b| - 1]);
    }
  }

  lemma LiveAt(hooks: Hooks, named: bool, child: nat, events: seq<Event>, k: nat)
    requires k < |events|
    ensures Live({child}, CallsAt(hooks, named, child, events, k)) ==
      if events[k].Cancelled? || events[k].Exited? then {} else {child}
  {
    hide ReadyBefore;
    var report := Reported(hooks, PollAt(events, k, Ready));
    assert Live({child}, report) == {child};
    match events[k] {
      case Cancelled(InTime) =>
        assert Live({child}, [Terminate(child)]) == {child};
        LiveConcat({child}, [Terminate(child)], [ReceiveExit(child)]);
      case Cancelled(Late) =>
        assert Live({child}, [Terminate(child)]) == {child};
        LiveConcat({child}, [Terminate(child)], [Kill(child), ReceiveExit(child)]);
        assert [Kill(child), ReceiveExit(child)][..1] == [Kill(child)];
        assert Live({child}, [Kill(child)]) == {};
        assert CallsAt(hooks, named, child, events, k) == [Terminate(child)] + [Kill(child), ReceiveExit(child)];
      case Exited =>
        LiveConcat({child}, [ReceiveExit(child)], Reported(hooks, false));
      case Polled(Ready, _) =>
        LiveConcat({child}, report, [ReportHostname]);
      case _ =>
    }
  }

  lemma {:induction false} LiveWhileQuiet(hooks: Hooks, named: bool, child: nat, events: seq<Event>, used: nat)
    requires used <= |events| && Quiet(events, used)
    ensures Live({child}, CallsOf(hooks, named, child, events, used)) == {child}
  {
    hide Stale, CallsAt;
    if used > 0 {
      assert Verdict(events, used - 1) == Watching;
      LiveWhileQuiet(hooks, named, child, events, used - 1);
      LiveAt(hooks, named, child, events, used - 1);
      LiveConcat({child}, CallsOf(hooks, named, child, events, used - 1),
        CallsAt(hooks, named, child, events, used - 1));
    }
  }

  /** The child's exit was received exactly when the watch ended by its exit or by cancellation. */
  lemma ExitReceived(hooks: Hooks, named: bool, child: nat, events: seq<Event>, used: nat, reason: Reason)
    requires Ends(events, used, reason)
    ensures Live({child}, CallsOf(hooks, named, child, events, used)) ==
      if reason == ContextCancelled || reason == ProcessExited then {} else {child}
  {
    hide Stale, CallsAt;
    if reason == Watching {
      LiveWhileQuiet(hooks, named, child, events, used);
    } else {
      LiveWhileQuiet(hooks, named, child, events, used - 1);
      LiveAt(hooks, named, child, events, used - 1);
      LiveConcat({child}, CallsOf(hooks, named, child, events, used - 1),
        CallsAt(hooks, named, child, events, used - 1));
    }
  }

  /** Receiving the exit is the last thing a cancelled watch does. */
  lemma CancelledWatchEndsWithExit(hooks: Hooks, named: bool, child: nat, events: seq<Event>, used: nat)
    requires Ends(events, used, ContextCancelled)
    ensures var calls := CallsOf(hooks, named, child, events, used);
      |calls| > 0 && calls[|calls| - 1] == ReceiveExit(child)
  {
    hide Stale, Quiet;
    var last := CallsAt(hooks, named, child, events, used - 1);
    assert last[|last| - 1] == ReceiveExit(child);
  }

  // ---- error polls

  function WindowAfter(events: seq<Event>): (since: Option<nat>)
  {
    if events == [] then None else NextWindow(events[|events| - 1], WindowAfter(events[..|events| - 1]))
  }

  lemma {:induction false} WindowAfterIsWindow(events: seq<Event>, k: nat)
    requires Timely(events) && k <= |events|
    ensures Window(events, k, WindowAfter(events[..k]))
  {
    if k > 0 {
      assert events[..k][..k - 1] == events[..k - 1];
      WindowAfterIsWindow(events, k - 1);
      WindowStep(events, k - 1, WindowAfter(events[..k - 1]));
    }
  }

  function WithoutErrors(events: seq<Event>): (r: seq<Event>)
    ensures forall e :: e in r ==> e in events
    ensures WindowAfter(r) == WindowAfter(events)
  {
    if events == [] then []
    else
      var last := events[|events| - 1];
      var r := WithoutErrors(events[..|events| - 1]);
      if last.Polled? && last.poll == PollError then r
      else
        assert (r + [last])[..|r|] == r;
        r + [last]
  }

  lemma {:induction false} WithoutErrorsTimely(events: seq<Event>)
    requires Timely(events)
    ensures Timely(WithoutErrors(events))
  {
    if events != [] {
      WithoutErrorsTimely(events[..|events| - 1]);
      ExtendTimely(events, WithoutErrors(events[..|events| - 1]));
    }
  }

  /** Some of the earlier events, in order, followed by the last one. */
  lemma ExtendTimely(events: seq<Event>, r: seq<Event>)
    requires Timely(events) && events != [] && Timely(r)
    requires forall e :: e in r ==> e in events[..|events| - 1]
    ensures Timely(r + [events[|events| - 1]])
  {
    var f := r + [events[|events| - 1]];
    forall i, j | 0 <= i < j < |f| && f[i].Polled? && f[j].Polled? ensures f[i].at <= f[j].at {
      assert f[i] == r[i] && r[i] in r;
    }
  }

  /** Error polls neither open nor close the window: taking them out changes no verdict. */
  lemma ErrorsIgnored(events: seq<Event>, k: nat)
    requires Timely(events) && k < |events|
    ensures var r := WithoutErrors(events[..k]); Verdict(r + [events[k]], |r|) == Verdict(events, k)
  {
    assert Timely(events[..k]) && Timely(events[..k + 1]);
    hide Window, Stale, WindowAfter, WithoutErrors, Timely;
    var r := WithoutErrors(events[..k]);
    var f := r + [events[k]];
    assert f[..|r|] == r;
    assert events[..k + 1][..k] == events[..k];
    WithoutErrorsTimely(events[..k]);
    ExtendTimely(events[..k + 1], r);
    WindowAfterIsWindow(events, k);
    WindowStep(events, k, WindowAfter(events[..k]));
    WindowAfterIsWindow(f, |r|);
    WindowStep(f, |r|, WindowAfter(r));
  }

  // ---- the restart loop

  /** One round of the loop: whether the context is already cancelled, what the launched child's watch
      sees unless the launch fails, whether the context is cancelled by the end of the watch, and
      whether the wait that follows runs to its end. */
  datatype Round = Round(cancelled: bool, events: Option<seq<Event>>, cancelledAfter: bool, waits: bool)

  /** The watch sees a cancellation, or the poll channel closing, only under a cancelled context. */
  ghost predicate Possible(round: Round)
  {
    round.events.Some? ==>
      && Timely(round.events.value)
      && ((exists e :: e in round.events.value && (e.Cancelled? || e.PollsClosed?)) ==> round.cancelledAfter)
  }

  datatype End = Running | CancelledBetween | CancelledAfter(reason: Reason)

  function Min(a: nat, b: nat): (r: nat)
  {
    if a < b then a else b
  }

  function NextBackoff(cur: nat): (next: nat)
  {
    if cur * 2 > BACKOFF_MAX then BACKOFF_MAX else cur * 2
  }

  /** The length of the `n`-th wait. */
  function Delay(n: nat): (r: nat)
  {
    Min(2 * Pow2(n) * SECOND, BACKOFF_MAX)
  }

  lemma {:induction false} NextBackoffIsNextDelay(n: nat)
    ensures Delay(0) == BACKOFF_INITIAL && NextBackoff(Delay(n)) == Delay(n + 1)
  {
  }

  ghost function Sleeps(calls: seq<Call>): (r: seq<nat>)
  {
    if calls == [] then []
    else Sleeps(calls[..|calls| - 1]) + if calls[|calls| - 1].Sleep? then [calls[|calls| - 1].duration] else []
  }

  ghost function Delays(n: nat): (r: seq<nat>)
    ensures |r| == n && forall i :: 0 <= i < n ==> r[i] == Delay(i)
  {
    if n == 0 then [] else Delays(n - 1) + [Delay(n - 1)]
  }

  ghost function Total(s: seq<nat>): (r: nat)
  {
    if s == [] then 0 else Total(s[..|s| - 1]) + s[|s| - 1]
  }

  lemma {:induction false} DelayIs(n: nat)
    ensures Delay(n) == (if n < 5 then Pow2(n + 1) else 60) * SECOND
  {
    if n >= 5 {
      assert Pow2(5) == 32;
      Pow2Monotone(5, n);
    } else {
      assert n == 0 || n == 1 || n == 2 || n == 3 || n == 4;
    }
  }

  /** The waits so far, in seconds. */
  function TotalSeconds(n: nat): (r: nat)
  {
    if n <= 5 then Pow2(n + 1) - 2 else 62 + 60 * (n - 5)
  }

  lemma SixthPower()
    ensures Pow2(6) == 64
  {
    assert Pow2(3) == 8;
  }

  lemma NextTotal(n: nat)
    requires n > 0
    ensures TotalSeconds(n) == TotalSeconds(n - 1) + if n < 6 then Pow2(n) else 60
  {
    SixthPower();
    assert Pow2(n + 1) == 2 * Pow2(n);
    hide Pow2;
  }

  lemma NextDelays(n: nat)
    requires n > 0
    ensures Total(Delays(n)) == Total(Delays(n - 1)) + Delay(n - 1)
  {
    assert Delays(n)[..n - 1] == Delays(n - 1);
    hide Delay;
  }

  /** Sixty-two seconds for the first five waits, then a minute each. */
  lemma {:induction false} TotalDelay(n: nat)
    ensures Total(Delays(n)) == TotalSeconds(n) * SECOND
  {
    if n == 0 {
      assert Delays(0) == [] && Pow2(1) == 2;
    } else {
      hide Total, Delays, Delay, Pow2, TotalSeconds;
      TotalDelay(n - 1);
      NextDelays(n);
      DelayIs(n - 1);
      NextTotal(n);
    }
  }

  /** Neither a launch nor a wait. */
  ghost predicate InWatch(calls: seq<Call>)
  {
    forall c :: c in calls ==> !c.Launch? && !c.Sleep?
  }

  lemma {:induction false} WatchCallsInWatch(hooks: Hooks, named: bool, child: nat, events: seq<Event>, used: nat)
    requires used <= |events|
    ensures InWatch(CallsOf(hooks, named, child, events, used))
  {
    hide ReadyBefore;
    if used > 0 {
      WatchCallsInWatch(hooks, named, child, events, used - 1);
      assert InWatch(CallsAt(hooks, named, child, events, used - 1));
    }
  }

  /** Every launch finds no live child, and comes after exactly as many waits, of the scheduled
      lengths, as its number says. */
  ghost predicate LaunchesOk(calls: seq<Call>)
  {
    forall p :: 0 <= p < |calls| && calls[p].Launch? ==>
      Live({}, calls[..p]) == {} && Sleeps(calls[..p]) == Delays(calls[p].child)
  }

  lemma LaunchesExtend(calls: seq<Call>, c: Call)
    requires LaunchesOk(calls)
    requires c.Launch? ==> Live({}, calls) == {} && Sleeps(calls) == Delays(c.child)
    ensures LaunchesOk(calls + [c])
    ensures Sleeps(calls + [c]) == Sleeps(calls) + if c.Sleep? then [c.duration] else []
    ensures Live({}, calls + [c]) == LiveStep(Live({}, calls), c)
  {
    var longer := calls + [c];
    assert longer[..|calls|] == calls;
    assert forall p :: 0 <= p < |calls| ==> longer[..p] == calls[..p];
  }

  lemma {:induction false} LaunchesInWatch(calls: seq<Call>, more: seq<Call>)
    requires LaunchesOk(calls) && InWatch(more)
    ensures LaunchesOk(calls + more) && Sleeps(calls + more) == Sleeps(calls)
    ensures Live({}, calls + more) == Live(Live({}, calls), more)
  {
    if more == [] {
      assert calls + more == calls;
    } else {
      var init := more[..|more| - 1];
      assert InWatch(init);
      LaunchesInWatch(calls, init);
      LaunchesExtend(calls + init, more[|more| - 1]);
      assert calls + more == calls + init + [more[|more| - 1]];
      LiveConcat({}, calls, more);
    }
  }

  /** The loop's state between steps: all launches so far were right, `waits` waits have begun and
      `live` is the set of live children. */
  ghost predicate Settled(calls: seq<Call>, waits: nat, live: set<nat>)
  {
    LaunchesOk(calls) && Sleeps(calls) == Delays(waits) && Live({}, calls) == live
  }

  /** The child that a returned watch leaves behind. */
  function Left(reason: Reason, child: nat): (live: set<nat>)
  {
    if reason == ContextCancelled || reason == ProcessExited then {} else {child}
  }

  lemma LaunchThenWatch(hooks: Hooks, named: bool, calls: seq<Call>, i: nat, events: seq<Event>, used: nat,
      reason: Reason)
    requires Settled(calls, i, {}) && Ends(events, used, reason)
    ensures Settled(calls + ([Launch(i)] + CallsOf(hooks, named, i, events, used)), i, Left(reason, i))
  {
    assert used <= |events|;
    hide Live, Sleeps, Delays, LaunchesOk, CallsOf, Ends, InWatch;
    var watch := CallsOf(hooks, named, i, events, used);
    LaunchesExtend(calls, Launch(i));
    WatchCallsInWatch(hooks, named, i, events, used);
    LaunchesInWatch(calls + [Launch(i)], watch);
    ExitReceived(hooks, named, i, events, used, reason);
    assert {} + {i} == {i};
    assert calls + [Launch(i)] + watch == calls + ([Launch(i)] + watch);
  }

  lemma SettledStep(calls: seq<Call>, waits: nat, live: set<nat>, i: nat)
    requires Settled(calls, waits, live)
    ensures Settled(calls + [Terminate(i)], waits, live)
    ensures Settled(calls + [Kill(i)], waits, live - {i})
    ensures Settled(calls + [Sleep(Delay(waits))], waits + 1, live)
  {
    hide Live, Sleeps, LaunchesOk, Delay;
    LaunchesExtend(calls, Terminate(i));
    LaunchesExtend(calls, Kill(i));
    LaunchesExtend(calls, Sleep(Delay(waits)));
  }

  // ---- which calls a run makes

  /** How many events the watch takes from `k` on, and why it ends. */
  ghost function FirstVerdict(events: seq<Event>, k: nat): (r: (nat, Reason))
    requires k <= |events|
    decreases |events| - k
  {
    if k == |events| then (k, Watching)
    else if Verdict(events, k) != Watching then (k + 1, Verdict(events, k))
    else FirstVerdict(events, k + 1)
  }

  lemma {:induction false} EndIsUnique(events: seq<Event>, used: nat, reason: Reason, k: nat)
    requires Ends(events, used, reason) && k <= |events| && Quiet(events, k)
    ensures FirstVerdict(events, k) == (used, reason)
    decreases |events| - k
  {
    if k < |events| && Verdict(events, k) == Watching {
      EndIsUnique(events, used, reason, k + 1);
    }
  }

  /** How a round ends the run, if it does. */
  ghost function EndOf(round: Round): (end: Option<End>)
  {
    if round.cancelled then Some(CancelledBetween)
    else
      var reason := if round.events.Some? then FirstVerdict(round.events.value, 0).1 else ProcessExited;
      if reason == Watching then Some(Running)
      else if round.events.Some? && round.cancelledAfter then Some(CancelledAfter(reason))
      else if !round.waits then Some(CancelledBetween) else None
  }

  /** The calls of round `i`: a launch, the calls of its watch, and a kill before the wait unless the
      run ends there. */
  ghost function RoundCalls(hooks: Hooks, named: bool, i: nat, round: Round): (calls: seq<Call>)
  {
    if round.cancelled then []
    else if round.events.None? then [Sleep(Delay(i))]
    else
      var v := FirstVerdict(round.events.value, 0);
      if v.0 > |round.events.value| then []
      else
        [Launch(i)] + CallsOf(hooks, named, i, round.events.value, v.0)
        + if v.1 == Watching then [] else if round.cancelledAfter then [Terminate(i)] else [Kill(i)] + [Sleep(Delay(i))]
  }

  ghost function RunCalls(hooks: Hooks, named: bool, rounds: seq<Round>, n: nat): (calls: seq<Call>)
    requires n <= |rounds|
  {
    if n == 0 then [] else RunCalls(hooks, named, rounds, n - 1) + RoundCalls(hooks, named, n - 1, rounds[n - 1])
  }

  /** The run goes through `n` rounds: all but the last do not end it. */
  ghost predicate GoesThrough(rounds: seq<Round>, n: nat, end: End)
  {
    && n <= |rounds| && (forall i :: 0 <= i < n - 1 ==> EndOf(rounds[i]).None?)
    && if n > 0 && EndOf(rounds[n - 1]).Some? then end == EndOf(rounds[n - 1]).value
       else n == |rounds| && end == Running
  }

  /** A watched round, whatever follows the watch. */
  lemma WatchedRound(hooks: Hooks, named: bool, rounds: seq<Round>, i: nat, used: nat, reason: Reason)
    requires i < |rounds| && !rounds[i].cancelled && rounds[i].events.Some?
    requires Ends(rounds[i].events.value, used, reason)
    ensures var events := rounds[i].events.value;
      && used <= |events|
      && var watched := RunCalls(hooks, named, rounds, i) + ([Launch(i)] + CallsOf(hooks, named, i, events, used));
      var after := RunCalls(hooks, named, rounds, i + 1);
      && (reason == Watching ==> after == watched)
      && (reason != Watching && rounds[i].cancelledAfter ==> after == watched + [Terminate(i)])
      && (reason != Watching && !rounds[i].cancelledAfter ==> after == watched + [Kill(i)] + [Sleep(Delay(i))])
    ensures EndOf(rounds[i]) == if reason == Watching then Some(Running)
      else if rounds[i].cancelledAfter then Some(CancelledAfter(reason))
      else if !rounds[i].waits then Some(CancelledBetween) else None
  {
    var events := rounds[i].events.value;
    EndIsUnique(events, used, reason, 0);
    RunCallsNext(hooks, named, rounds, i);
    hide RunCalls, Delay, CallsOf, FirstVerdict, Ends;
    var before, watch := RunCalls(hooks, named, rounds, i), CallsOf(hooks, named, i, events, used);
    Regroup(before, [Launch(i)] + watch, [Terminate(i)]);
    Regroup(before, [Launch(i)] + watch, [Kill(i)] + [Sleep(Delay(i))]);
    Regroup(before + ([Launch(i)] + watch), [Kill(i)], [Sleep(Delay(i))]);
    assert [Launch(i)] + watch + [] == [Launch(i)] + watch;
  }

  lemma Regroup(a: seq<Call>, b: seq<Call>, c: seq<Call>)
    ensures a + (b + c) == a + b + c
  {
  }

  lemma RunCallsNext(hooks: Hooks, named: bool, rounds: seq<Round>, i: nat)
    requires i < |rounds|
    ensures RunCalls(hooks, named, rounds, i + 1)
         == RunCalls(hooks, named, rounds, i) + RoundCalls(hooks, named, i, rounds[i])
  {
  }

  /** The ends at which a child has only been signalled. */
  predicate LeavesChild(end: End)
  {
    end == CancelledAfter(PollChannelClosed) || end == CancelledAfter(NotReadyTooLong)
  }

  /** What is right about a whole run.  The calls are those of the rounds it goes through.  Every
      launch comes after all earlier children have exited or been killed and after the scheduled
      waits.  When the run returns, a child is left neither exited nor killed exactly if the context
      was cancelled while its watch was ending because the poll channel closed or the child had not
      been ready for too long; only a signal was sent then. */
  ghost predicate RunOk(hooks: Hooks, named: bool, rounds: seq<Round>, calls: seq<Call>, end: End, waits: nat,
      begun: nat)
  {
    && GoesThrough(rounds, begun, end) && calls == RunCalls(hooks, named, rounds, begun)
    && LaunchesOk(calls)
    && Sleeps(calls) == Delays(waits)
    && (end != Running ==> (Live({}, calls) != {} <==> LeavesChild(end)))
  }

  /** The run after `n` rounds that did not end it, with these calls made since. */
  ghost predicate Through(hooks: Hooks, named: bool, rounds: seq<Round>, calls: seq<Call>, n: nat)
  {
    n <= |rounds| && calls == RunCalls(hooks, named, rounds, n) && forall i :: 0 <= i < n ==> EndOf(rounds[i]).None?
  }

  lemma Finished(hooks: Hooks, named: bool, rounds: seq<Round>, before: seq<Call>, calls: seq<Call>, end: End,
      waits: nat, n: nat, live: set<nat>)
    requires Through(hooks, named, rounds, before, n) && n < |rounds|
    requires calls == RunCalls(hooks, named, rounds, n + 1) && EndOf(rounds[n]) == Some(end)
    requires Settled(calls, waits, live)
    requires end != Running ==> (live != {} <==> LeavesChild(end))
    ensures RunOk(hooks, named, rounds, calls, end, waits, n + 1)
  {
    hide Live, Sleeps, LaunchesOk, RunCalls, EndOf;
  }

  method Run(hooks: Hooks, named: bool, rounds: seq<Round>) returns (calls: seq<Call>, end: End, waits: nat, begun: nat)
    requires forall r :: r in rounds ==> Possible(r)
    ensures RunOk(hooks, named, rounds, calls, end, waits, begun)
  {
    hide Live, Sleeps, Delay, Delays, NextBackoff, LaunchesOk, Ends, CallsOf, EndOf, Possible, Settled, RunCalls, RunOk,
      Through, Timely, Left, Min;
    calls, waits, begun := [], 0, 0;
    RunStarts(hooks, named, rounds);
    var backoff := BACKOFF_INITIAL;
    while begun < |rounds|
      invariant begun <= |rounds| && waits == begun && Settled(calls, begun, {}) && backoff == Delay(begun)
      invariant Through(hooks, named, rounds, calls, begun)
    {
      var round, i := rounds[begun], begun;
      ghost var before := calls;
      begun := begun + 1;
      RoundUnwatched(hooks, named, rounds, before, i);
      if round.cancelled {
        end := CancelledBetween;
        Finished(hooks, named, rounds, before, calls, end, waits, i, {});
        return;
      }
      if round.events.Some? {
        assert Possible(round);
        PossibleIsTimely(round);
        var reason, used, watch := Watch(hooks, named, i, round.events.value);
        LaunchThenWatch(hooks, named, calls, i, round.events.value, used, reason);
        WatchedRound(hooks, named, rounds, i, used, reason);
        ThroughIs(hooks, named, rounds, before, i);
        calls := calls + ([Launch(i)] + watch);
        if reason == Watching {
          end := Running;
          LeftIsTheChild(reason, i);
          Finished(hooks, named, rounds, before, calls, end, waits, i, Left(reason, i));
          return;
        }
        SettledStep(calls, i, Left(reason, i), i);
        if round.cancelledAfter {
          calls := calls + [Terminate(i)];
          end := CancelledAfter(reason);
          LeftIsTheChild(reason, i);
          Finished(hooks, named, rounds, before, calls, end, waits, i, Left(reason, i));
          return;
        }
        calls := calls + [Kill(i)];
        LeftIsTheChild(reason, i);
      }
      SettledStep(calls, i, {}, i);
      calls := calls + [Sleep(backoff)];
      waits := waits + 1;
      if !round.waits {
        end := CancelledBetween;
        Finished(hooks, named, rounds, before, calls, end, waits, i, {});
        return;
      }
      NextBackoffIsNextDelay(i);
      backoff := NextBackoff(backoff);
      ThroughNext(hooks, named, rounds, before, calls, i);
    }
    end := Running;
    RunStays(hooks, named, rounds, calls);
  }

  lemma RunStarts(hooks: Hooks, named: bool, rounds: seq<Round>)
    ensures Settled([], 0, {}) && BACKOFF_INITIAL == Delay(0) && Through(hooks, named, rounds, [], 0)
  {
    NextBackoffIsNextDelay(0);
  }

  lemma LeftIsTheChild(reason: Reason, child: nat)
    ensures Left(reason, child) - {child} == {}
    ensures reason != Watching ==> (Left(reason, child) != {} <==> LeavesChild(CancelledAfter(reason)))
  {
  }

  /** Every round was gone through and none ended the run. */
  lemma RunStays(hooks: Hooks, named: bool, rounds: seq<Round>, calls: seq<Call>)
    requires Through(hooks, named, rounds, calls, |rounds|) && Settled(calls, |rounds|, {})
    ensures RunOk(hooks, named, rounds, calls, Running, |rounds|, |rounds|)
  {
    hide Live, Sleeps, LaunchesOk, RunCalls, EndOf;
  }

  lemma PossibleIsTimely(round: Round)
    requires Possible(round) && round.events.Some?
    ensures Timely(round.events.value)
  {
  }

  lemma ThroughIs(hooks: Hooks, named: bool, rounds: seq<Round>, calls: seq<Call>, n: nat)
    requires Through(hooks, named, rounds, calls, n)
    ensures n <= |rounds| && calls == RunCalls(hooks, named, rounds, n)
  {
  }

  lemma ThroughNext(hooks: Hooks, named: bool, rounds: seq<Round>, before: seq<Call>, calls: seq<Call>, n: nat)
    requires Through(hooks, named, rounds, before, n) && n < |rounds|
    requires calls == RunCalls(hooks, named, rounds, n + 1) && EndOf(rounds[n]).None?
    ensures Through(hooks, named, rounds, calls, n + 1)
  {
    hide RunCalls, EndOf;
  }

  /** A round that is cancelled at its start, or whose launch fails. */
  lemma RoundUnwatched(hooks: Hooks, named: bool, rounds: seq<Round>, before: seq<Call>, i: nat)
    requires i < |rounds| && Through(hooks, named, rounds, before, i)
    ensures rounds[i].cancelled ==>
      RunCalls(hooks, named, rounds, i + 1) == before && EndOf(rounds[i]) == Some(CancelledBetween)
    ensures !rounds[i].cancelled && rounds[i].events.None? ==>
      && RunCalls(hooks, named, rounds, i + 1) == before + [Sleep(Delay(i))]
      && EndOf(rounds[i]) == if !rounds[i].waits then Some(CancelledBetween) else None
  {
    hide Delay;
  }

  // ---- children that are not waited for

  /** The events of one watch, with the context cancelled by its end, make a whole run. */
  lemma CancelledRun(hooks: Hooks, named: bool, events: seq<Event>, used: nat, reason: Reason)
    requires Ends(events, used, reason) && reason != Watching && reason != ContextCancelled
    ensures var rounds := [Round(false, Some(events), true, true)];
      var calls := RunCalls(hooks, named, rounds, 1);
      && GoesThrough(rounds, 1, CancelledAfter(reason))
      && calls == [Launch(0)] + CallsOf(hooks, named, 0, events, used) + [Terminate(0)]
      && Live({}, calls) == (if reason == ProcessExited then {} else {0})
  {
    var rounds := [Round(false, Some(events), true, true)];
    WatchedRound(hooks, named, rounds, 0, used, reason);
    assert RunCalls(hooks, named, rounds, 0) == [];
    assert used <= |events|;
    assert Settled([], 0, {});
    LaunchThenWatch(hooks, named, [], 0, events, used, reason);
    var watched := [Launch(0)] + CallsOf(hooks, named, 0, events, used);
    assert [] + watched == watched;
    SettledStep(watched, 0, Left(reason, 0), 0);
    hide RunCalls, EndOf, CallsOf, Live, Ends;
  }

  /** A cancellation that shows up as the closed poll channel: the run ends with the child only signalled. */
  lemma ClosedPollsLeaveChild(hooks: Hooks, named: bool)
    ensures var round := Round(false, Some([PollsClosed]), true, true);
      && Possible(round)
      && GoesThrough([round], 1, CancelledAfter(PollChannelClosed))
      && Live({}, RunCalls(hooks, named, [round], 1)) == {0}
  {
    assert Ends([PollsClosed], 1, PollChannelClosed);
    CancelledRun(hooks, named, [PollsClosed], 1, PollChannelClosed);
  }

  /** And one that coincides with a not-ready restart. */
  lemma StaleChildLeft(hooks: Hooks, named: bool)
    ensures var round := Round(false, Some([Polled(NotReady, 0), Polled(NotReady, NOT_READY_GRACE + 1)]), true, true);
      && Possible(round)
      && GoesThrough([round], 1, CancelledAfter(NotReadyTooLong))
      && Live({}, RunCalls(hooks, named, [round], 1)) == {0}
  {
    var events := [Polled(NotReady, 0), Polled(NotReady, NOT_READY_GRACE + 1)];
    assert Open(events, 0, 1);
    assert Stale(events, 1) && !Stale(events, 0);
    assert Ends(events, 2, NotReadyTooLong);
    CancelledRun(hooks, named, events, 2, NotReadyTooLong);
  }
}
