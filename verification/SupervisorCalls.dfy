/** What a watch reports and does, call by call, stated from its events alone. */
module SupervisorCalls {
  import opened Supervisor

  // ---- readiness

  /** The readiness that was reported, in order. */
  function Reports(calls: seq<Call>): (r: seq<bool>)
  {
    if calls == [] then []
    else
      var last := calls[|calls| - 1];
      Reports(calls[..|calls| - 1]) + if last.ReportReady? then [last.ready] else []
  }

  lemma {:induction false} ReportsConcat(a: seq<Call>, b: seq<Call>)
    ensures Reports(a + b) == Reports(a) + Reports(b)
  {
    if b == [] {
      assert a + b == a;
    } else {
      assert (a + b)[..|a + b| - 1] == a + b[..|b| - 1];
      ReportsConcat(a, b[..|b| - 1]);
    }
  }

  /** What the events call for: the answer of every poll that got one, and not-ready for an exit or a closed
      poll channel. */
  function Readiness(events: seq<Event>): (r: seq<bool>)
  {
    if events == [] then []
    else
      var last := events[|events| - 1];
      Readiness(events[..|events| - 1])
      + if last.Exited? || last.PollsClosed? then [false]
        else if last.Polled? && last.poll != PollError then [last.poll == Ready] else []
  }

  lemma ReportsOfOne(call: Call)
    ensures Reports([call]) == if call.ReportReady? then [call.ready] else []
  {
    assert [call][..0] == [];
  }

  lemma ReportsOfNone()
    ensures Reports([]) == []
  {
  }

  lemma ReportsAt(hooks: Hooks, named: bool, child: nat, events: seq<Event>, k: nat)
    requires k < |events|
    ensures hooks.onReady ==> Reports(CallsAt(hooks, named, child, events, k)) == Readiness([events[k]])
    ensures !hooks.onReady ==> Reports(CallsAt(hooks, named, child, events, k)) == []
  {
    hide ReadyBefore, Reports;
    assert [events[k]][..0] == [];
    ReportsOfNone();
    match events[k] {
      case Cancelled(quit) =>
        ReportsOfOne(Terminate(child));
        ReportsOfOne(ReceiveExit(child));
        ReportsOfOne(Kill(child));
        ReportsConcat([Terminate(child)], [ReceiveExit(child)]);
        ReportsConcat([Kill(child)], [ReceiveExit(child)]);
        ReportsConcat([Terminate(child)], [Kill(child)] + [ReceiveExit(child)]);
        assert CallsAt(hooks, named, child, events, k) ==
          [Terminate(child)] + if quit == Late then [Kill(child)] + [ReceiveExit(child)] else [ReceiveExit(child)];
      case Exited =>
        ReportsOfOne(ReceiveExit(child));
        ReportsOfOne(ReportReady(false));
        ReportsConcat([ReceiveExit(child)], Reported(hooks, false));
      case PollsClosed => ReportsOfOne(ReportReady(false));
      case Polled(Ready, _) =>
        var more := if named && hooks.onHostname && !ReadyBefore(events, k) then [ReportHostname] else [];
        ReportsOfOne(ReportReady(true));
        ReportsOfOne(ReportHostname);
        ReportsConcat(Reported(hooks, true), more);
      case Polled(_, _) => ReportsOfOne(ReportReady(false));
    }
  }

  lemma {:induction false} ReadinessConcat(a: seq<Event>, b: Event)
    ensures Readiness(a + [b]) == Readiness(a) + Readiness([b])
  {
    assert (a + [b])[..|a|] == a;
    assert [b][..0] == [];
  }

  /** For named and quick tunnels alike, the readiness reported is that of the polls that got an answer, with one
      not-ready for an exit or a closed poll channel; polls that fail and the cancellation report nothing. */
  lemma {:induction false} ReadinessReported(hooks: Hooks, named: bool, child: nat, events: seq<Event>, used: nat)
    requires used <= |events|
    ensures Reports(CallsOf(hooks, named, child, events, used))
         == if hooks.onReady then Readiness(events[..used]) else []
  {
    hide CallsAt, Reports, Readiness;
    if used == 0 {
      NothingReported(hooks, named, child, events);
    } else {
      ReadinessReported(hooks, named, child, events, used - 1);
      ReportsConcat(CallsOf(hooks, named, child, events, used - 1), CallsAt(hooks, named, child, events, used - 1));
      ReportsAt(hooks, named, child, events, used - 1);
      assert events[..used] == events[..used - 1] + [events[used - 1]];
      ReadinessConcat(events[..used - 1], events[used - 1]);
    }
  }

  lemma NothingReported(hooks: Hooks, named: bool, child: nat, events: seq<Event>)
    ensures Reports(CallsOf(hooks, named, child, events, 0)) == [] == Readiness(events[..0])
  {
  }

  // ---- the child

  predicate IsReport(call: Call)
  {
    call.ReportReady? || call.ReportHostname?
  }

  /** The calls that do something to the child, in order. */
  function Actions(calls: seq<Call>): (r: seq<Call>)
  {
    if calls == [] then []
    else
      var last := calls[|calls| - 1];
      Actions(calls[..|calls| - 1]) + if IsReport(last) then [] else [last]
  }

  lemma {:induction false} ActionsConcat(a: seq<Call>, b: seq<Call>)
    ensures Actions(a + b) == Actions(a) + Actions(b)
  {
    if b == [] {
      assert a + b == a;
    } else {
      assert (a + b)[..|a + b| - 1] == a + b[..|b| - 1];
      ActionsConcat(a, b[..|b| - 1]);
    }
  }

  lemma {:induction false} AllActions(calls: seq<Call>)
    ensures (forall c :: c in calls ==> !IsReport(c)) ==> Actions(calls) == calls
    ensures (forall c :: c in calls ==> IsReport(c)) ==> Actions(calls) == []
  {
    if calls != [] {
      AllActions(calls[..|calls| - 1]);
      assert calls == calls[..|calls| - 1] + [calls[|calls| - 1]];
    }
  }

  lemma ActionsAt(hooks: Hooks, named: bool, child: nat, events: seq<Event>, k: nat)
    requires k < |events|
    ensures Actions(CallsAt(hooks, named, child, events, k)) == match events[k]
      case Cancelled(quit) => [Terminate(child)] + (if quit == Late then [Kill(child)] else []) + [ReceiveExit(child)]
      case Exited => [ReceiveExit(child)]
      case _ => []
  {
    hide ReadyBefore, Actions;
    var calls := CallsAt(hooks, named, child, events, k);
    AllActions(calls);
    if events[k].Exited? {
      var report := Reported(hooks, false);
      AllActions([ReceiveExit(child)]);
      AllActions(report);
      ActionsConcat([ReceiveExit(child)], report);
    }
  }

  lemma CallsOfNext(hooks: Hooks, named: bool, child: nat, events: seq<Event>, used: nat)
    requires 0 < used <= |events|
    ensures CallsOf(hooks, named, child, events, used)
         == CallsOf(hooks, named, child, events, used - 1) + CallsAt(hooks, named, child, events, used - 1)
  {
    hide CallsAt;
  }

  lemma {:induction false} NoActions(hooks: Hooks, named: bool, child: nat, events: seq<Event>, used: nat)
    requires used <= |events| && Quiet(events, used)
    ensures Actions(CallsOf(hooks, named, child, events, used)) == []
  {
    hide CallsAt, Stale;
    if used > 0 {
      assert Verdict(events, used - 1) == Watching;
      NoActions(hooks, named, child, events, used - 1);
      ActionsConcat(CallsOf(hooks, named, child, events, used - 1), CallsAt(hooks, named, child, events, used - 1));
      ActionsAt(hooks, named, child, events, used - 1);
    }
  }

  /** A watch does nothing to its child until it ends: then it receives the exit, or signals the child, kills it
      if it is late, and receives its exit. */
  lemma WatchActions(hooks: Hooks, named: bool, child: nat, events: seq<Event>, used: nat, reason: Reason)
    requires Ends(events, used, reason)
    ensures Actions(CallsOf(hooks, named, child, events, used)) == match reason
      case ProcessExited => [ReceiveExit(child)]
      case ContextCancelled =>
        [Terminate(child)] + (if events[used - 1] == Cancelled(Late) then [Kill(child)] else []) + [ReceiveExit(child)]
      case _ => []
  {
    hide CallsAt, CallsOf, Actions, Stale, Quiet;
    if reason == Watching {
      NoActions(hooks, named, child, events, used);
    } else {
      NoActions(hooks, named, child, events, used - 1);
      CallsOfNext(hooks, named, child, events, used);
      ActionsConcat(CallsOf(hooks, named, child, events, used - 1), CallsAt(hooks, named, child, events, used - 1));
      ActionsAt(hooks, named, child, events, used - 1);
    }
  }
}
