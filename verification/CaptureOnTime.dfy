/** Runs of the sequencer and the ring that keep the priorities: tick after tick every service
    does its work before the next tick, so samples are taken and stored, ten of them, and the
    test ends. */
module CaptureOnTime {
  import V4 = SequencerV4
  import CaptureRing
  import opened CaptureSchedule

  // A service that has dealt with n releases and waits for the next one.
  function Rested(n: nat): V4.Service {
    V4.Service(V4.Waiting, 0, false, n, 0, n)
  }

  // The same service when it has been posted.
  function Due(v: V4.Service, due: bool): V4.Service {
    if due then v.(sem := 1) else v
  }

  // Between two ticks, the services given.
  function Between(t: nat, v0: V4.Service, v1: V4.Service, v2: V4.Service): V4.State {
    V4.State(t, false, true, false, V4.Idle, [v0, v1, v2])
  }

  // One more step of a run; whoever works keeps the priorities.
  lemma Take(sys0: System, events: seq<Event>, sys: System, a: V4.Action) returns (events': seq<Event>, next: System)
    requires Leads(sys0, events, sys) && Inv(sys) && V4.Enabled(sys.seqr, a)
    requires Works(sys.seqr, a, 1) ==> InTime(sys.seqr, 1)
    requires Works(sys.seqr, a, 2) ==> InTime(sys.seqr, 2)
    ensures Leads(sys0, events', next) && Inv(next) && V4.WellFormed(V4.PERIODS, sys.seqr)
    ensures next.seqr == V4.Step(V4.PERIODS, sys.seqr, a)
  {
    StepEnabled(sys, a);
    StepSeqr(sys, a);
    hide Leads, Inv, Enabled, V4.Enabled, Step, V4.Step, V4.WellFormed, InTime, Works;
    next := Step(sys, a, []);
    InvStep(sys, a, []);
    events' := events + [Event(a, [])];
    LeadsOn(sys0, events, sys, Event(a, []));
  }

  lemma StepEnabled(sys: System, a: V4.Action)
    requires Inv(sys) && V4.Enabled(sys.seqr, a)
    ensures Enabled(sys, a)
  {
    hide V4.Enabled, V4.ServiceOk, CaptureRing.SlotHolds, Counted;
  }

  lemma StepSeqr(sys: System, a: V4.Action)
    requires Enabled(sys, a)
    ensures V4.WellFormed(V4.PERIODS, sys.seqr)
    ensures Step(sys, a, []).seqr == V4.Step(V4.PERIODS, sys.seqr, a)
  {
    hide V4.Step, V4.WellFormed, V4.Enabled;
  }

  lemma {:induction false} LeadsOn(sys0: System, events: seq<Event>, sys: System, e: Event)
    requires Leads(sys0, events, sys) && Enabled(sys, e.action)
    requires Works(sys.seqr, e.action, 1) ==> InTime(sys.seqr, 1)
    requires Works(sys.seqr, e.action, 2) ==> InTime(sys.seqr, 2)
    ensures Leads(sys0, events + [e], Step(sys, e.action, e.frame))
    decreases |events|
  {
    hide Enabled, Step, Works, InTime;
    if events == [] {
      assert events + [e] == [e] && [e][1..] == [];
    } else {
      var first := events[0];
      LeadsOn(Step(sys0, first.action, first.frame), events[1..], sys, e);
      assert (events + [e])[0] == first && (events + [e])[1..] == events[1..] + [e];
    }
  }

  // The handler's part of a tick.
  lemma HandlerRuns(sys0: System, events: seq<Event>, sys: System, t: nat,
                    v0: V4.Service, v1: V4.Service, v2: V4.Service)
    returns (events': seq<Event>, next: System)
    requires Leads(sys0, events, sys) && Inv(sys) && sys.seqr == Between(t, v0, v1, v2)
    requires v0.sem == v1.sem == v2.sem == 0
    ensures Leads(sys0, events', next) && Inv(next)
    ensures next.seqr ==
      Between(t + 1, Due(v0, (t + 1) % 20 == 0), Due(v1, (t + 1) % 100 == 0), Due(v2, (t + 1) % 100 == 0))
  {
    hide Leads, Inv;
    events', next := Take(sys0, events, sys, V4.Expire);
    events', next := Take(sys0, events', next, V4.Deliver);
    events', next := Take(sys0, events', next, V4.Handle);
    events', next := Take(sys0, events', next, V4.Handle);
    events', next := Take(sys0, events', next, V4.Handle);
    events', next := Take(sys0, events', next, V4.Handle);
    events', next := Take(sys0, events', next, V4.Handle);
  }

  lemma FirstServes(sys0: System, events: seq<Event>, sys: System, t: nat, n: nat, v1: V4.Service, v2: V4.Service)
    returns (events': seq<Event>, next: System)
    requires Leads(sys0, events, sys) && Inv(sys) && n < 250
    requires sys.seqr == Between(t, Due(Rested(n), true), v1, v2)
    ensures Leads(sys0, events', next) && Inv(next) && next.seqr == Between(t, Rested(n + 1), v1, v2)
  {
    hide Leads, Inv, InTime;
    events', next := Take(sys0, events, sys, V4.Serve(0, false));
    events', next := Take(sys0, events', next, V4.Serve(0, false));
    events', next := Take(sys0, events', next, V4.Serve(0, false));
    events', next := Take(sys0, events', next, V4.Serve(0, false));
  }

  lemma SecondServes(sys0: System, events: seq<Event>, sys: System, t: nat, n: nat, m: nat, v2: V4.Service)
    returns (events': seq<Event>, next: System)
    requires Leads(sys0, events, sys) && Inv(sys) && t % 100 == 0
    requires sys.seqr == Between(t, Rested(n), Due(Rested(m), true), v2)
    ensures Leads(sys0, events', next) && Inv(next) && next.seqr == Between(t, Rested(n), Rested(m + 1), v2)
  {
    hide Leads, Inv;
    events', next := Take(sys0, events, sys, V4.Serve(1, false));
    events', next := Take(sys0, events', next, V4.Serve(1, false));
    events', next := Take(sys0, events', next, V4.Serve(1, false));
    events', next := Take(sys0, events', next, V4.Serve(1, false));
  }

  // The tenth store asks for the end of the test.
  lemma ThirdServes(sys0: System, events: seq<Event>, sys: System, t: nat, n: nat, m: nat, k: nat)
    returns (events': seq<Event>, next: System)
    requires Leads(sys0, events, sys) && Inv(sys)
    requires sys.seqr == Between(t, Rested(n), Rested(m), Due(Rested(k), true))
    ensures Leads(sys0, events', next) && Inv(next)
    ensures next.seqr == Between(t, Rested(n), Rested(m), Rested(k + 1)).(abortTest := k + 1 == 10)
  {
    hide Leads, Inv;
    events', next := Take(sys0, events, sys, V4.Serve(2, false));
    events', next := Take(sys0, events', next, V4.Serve(2, false));
    events', next := Take(sys0, events', next, V4.Serve(2, k + 1 == 10));
    events', next := Take(sys0, events', next, V4.Serve(2, false));
  }

  // All services have dealt with everything up to tick t, and the thousandth has brought the
  // tenth store.
  ghost predicate CaughtUp(sys: System, t: nat) {
    sys.seqr == Between(t, Rested(t / 20), Rested(t / 100), Rested(t / 100)).(abortTest := t == 1000)
  }

  lemma OneTick(sys0: System, events: seq<Event>, sys: System, t: nat) returns (events': seq<Event>, next: System)
    requires Leads(sys0, events, sys) && Inv(sys) && CaughtUp(sys, t) && t < 1000
    ensures Leads(sys0, events', next) && Inv(next) && CaughtUp(next, t + 1)
  {
    hide Leads, Inv;
    var n, m := t / 20, t / 100;
    events', next := HandlerRuns(sys0, events, sys, t, Rested(n), Rested(m), Rested(m));
    if (t + 1) % 20 == 0 {
      events', next := FirstServes(sys0, events', next, t + 1, n,
                                   Due(Rested(m), (t + 1) % 100 == 0), Due(Rested(m), (t + 1) % 100 == 0));
    }
    if (t + 1) % 100 == 0 {
      events', next := SecondServes(sys0, events', next, t + 1, n + 1, m, Due(Rested(m), true));
      events', next := ThirdServes(sys0, events', next, t + 1, n + 1, m + 1, m);
    }
  }

  lemma Begin(sys0: System, startup: CaptureRing.Frame) returns (events: seq<Event>, sys: System)
    requires Initial(sys0, startup)
    ensures Leads(sys0, events, sys) && Inv(sys) && CaughtUp(sys, 0)
  {
    InvInit(sys0, startup);
    assert Leads(sys0, [], sys0);
    var started := V4.Service(V4.Check, 0, false, 0, 0, 0);
    assert sys0.seqr == Between(0, started, started, started);
    hide Leads, Inv, InTime;
    events, sys := Take(sys0, [], sys0, V4.Serve(0, false));
    events, sys := Take(sys0, events, sys, V4.Serve(1, false));
    events, sys := Take(sys0, events, sys, V4.Serve(2, false));
  }

  lemma {:induction false} Ticks(sys0: System, startup: CaptureRing.Frame, t: nat)
    returns (events: seq<Event>, sys: System)
    requires Initial(sys0, startup) && t <= 1000
    ensures Leads(sys0, events, sys) && Inv(sys) && CaughtUp(sys, t)
  {
    if t == 0 {
      events, sys := Begin(sys0, startup);
    } else {
      events, sys := Ticks(sys0, startup, t - 1);
      hide Leads, Inv, Initial;
      events, sys := OneTick(sys0, events, sys, t - 1);
    }
  }

  // For every number of samples up to ten there is a run that keeps the priorities and takes
  // and stores that many; CaptureSchedule.StoresAtMostTen shows that there is none for more.
  lemma SamplesAreTaken(sys0: System, startup: CaptureRing.Frame, k: nat) returns (events: seq<Event>, sys: System)
    requires Initial(sys0, startup) && k <= 10
    ensures Leads(sys0, events, sys)
    ensures |sys.read| == 5 * k + 1 && |sys.processed| == k && |sys.stored| == k
  {
    events, sys := Ticks(sys0, startup, 100 * k);
    hide Leads, V4.Inv, CaptureRing.Inv;
    assert 100 * k / 20 == 5 * k && 100 * k / 100 == k;
  }

  // ---------- the end of the test ----------

  // A service that waits and has its flag, posted or not yet.
  function Flagged(n: nat): V4.Service {
    Rested(n).(abort := true)
  }

  function PostedOnce(n: nat): V4.Service {
    Flagged(n).(sem := 1, shutdownPosts := 1)
  }

  function Over(n: nat): V4.Service {
    V4.Service(V4.Done, 0, true, n + 1, 1, n)
  }

  // The timer is off.
  function Off(t: nat, h: V4.Handler, v0: V4.Service, v1: V4.Service, v2: V4.Service): V4.State {
    V4.State(t, true, false, false, h, [v0, v1, v2])
  }

  lemma FlagsSet(sys0: System, events: seq<Event>, sys: System) returns (events': seq<Event>, next: System)
    requires Leads(sys0, events, sys) && Inv(sys) && CaughtUp(sys, 1000)
    ensures Leads(sys0, events', next) && Inv(next)
    ensures next.seqr == Off(1000, V4.Posting(0), Flagged(50), Flagged(10), Flagged(10))
  {
    hide Leads, Inv;
    events', next := Take(sys0, events, sys, V4.Expire);
    events', next := Take(sys0, events', next, V4.Deliver);
    events', next := Take(sys0, events', next, V4.Handle);
    assert next.seqr == Off(1000, V4.Flagging(0), Rested(50), Rested(10), Rested(10));
    events', next := Take(sys0, events', next, V4.Handle);
    events', next := Take(sys0, events', next, V4.Handle);
    events', next := Take(sys0, events', next, V4.Handle);
  }

  lemma PostsMade(sys0: System, events: seq<Event>, sys: System) returns (events': seq<Event>, next: System)
    requires Leads(sys0, events, sys) && Inv(sys)
    requires sys.seqr == Off(1000, V4.Posting(0), Flagged(50), Flagged(10), Flagged(10))
    ensures Leads(sys0, events', next) && Inv(next)
    ensures next.seqr == Off(1001, V4.Idle, PostedOnce(50), PostedOnce(10), PostedOnce(10))
  {
    hide Leads, Inv;
    events', next := Take(sys0, events, sys, V4.Handle);
    events', next := Take(sys0, events', next, V4.Handle);
    events', next := Take(sys0, events', next, V4.Handle);
    events', next := Take(sys0, events', next, V4.Handle);
    assert next.seqr == Off(1001, V4.Releasing(0), PostedOnce(50), PostedOnce(10), PostedOnce(10));
    events', next := Take(sys0, events', next, V4.Handle);
    events', next := Take(sys0, events', next, V4.Handle);
    events', next := Take(sys0, events', next, V4.Handle);
  }

  lemma ServicesEnd(sys0: System, events: seq<Event>, sys: System) returns (events': seq<Event>, next: System)
    requires Leads(sys0, events, sys) && Inv(sys)
    requires sys.seqr == Off(1001, V4.Idle, PostedOnce(50), PostedOnce(10), PostedOnce(10))
    ensures Leads(sys0, events', next) && Inv(next)
    ensures next.seqr == Off(1001, V4.Idle, Over(50), Over(10), Over(10))
  {
    hide Leads, Inv;
    events', next := Take(sys0, events, sys, V4.Serve(0, false));
    events', next := Take(sys0, events', next, V4.Serve(0, false));
    events', next := Take(sys0, events', next, V4.Serve(1, false));
    events', next := Take(sys0, events', next, V4.Serve(1, false));
    events', next := Take(sys0, events', next, V4.Serve(2, false));
    events', next := Take(sys0, events', next, V4.Serve(2, false));
  }

  lemma AllOver(sys: System)
    requires Inv(sys) && sys.seqr == Off(1001, V4.Idle, Over(50), Over(10), Over(10))
    ensures |sys.read| == 51 && |sys.processed| == 10 && |sys.stored| == 10
  {
    hide V4.Inv, CaptureRing.Inv;
  }

  lemma NothingMoves(s: V4.State)
    requires s == Off(1001, V4.Idle, Over(50), Over(10), Over(10))
    ensures V4.Quiet(s)
  {
  }

  // A whole test: ten images are stored, the timer goes off at the next tick, all services
  // end, and nothing can move any more.
  lemma TestCompletes(sys0: System, startup: CaptureRing.Frame) returns (events: seq<Event>, sys: System)
    requires Initial(sys0, startup)
    ensures Leads(sys0, events, sys) && V4.Quiet(sys.seqr)
    ensures |sys.read| == 51 && |sys.processed| == 10 && |sys.stored| == 10
  {
    hide Leads, Inv, Initial, CaughtUp, Off, V4.Quiet;
    events, sys := Ticks(sys0, startup, 1000);
    events, sys := FlagsSet(sys0, events, sys);
    events, sys := PostsMade(sys0, events, sys);
    events, sys := ServicesEnd(sys0, events, sys);
    AllOver(sys);
    NothingMoves(sys.seqr);
  }
}
