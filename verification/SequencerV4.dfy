/** seqv4.c: a timer handler that releases services through semaphores and shuts them down
    by setting every service's flag before it posts its semaphore. The handler and the
    services interleave statement by statement. */
module SequencerV4 {
  import opened Divisibility
  import opened Totals

  // What a service is about to do: test its flag, wait, test again, work.
  datatype Pc = Check | Waiting | Woken | Working | Done

  datatype Service = Service(
    pc: Pc,
    sem: nat,
    abort: bool,
    waits: nat,          // history: waits that have returned
    shutdownPosts: nat,  // history: posts by the shutdown
    work: nat)           // the service's own count of releases

  // The handler: test abortTest, set the flags, post, count, release.
  datatype Handler = Idle | Entered | Flagging(i: nat) | Posting(i: nat) | Counting | Releasing(i: nat)

  datatype State = State(
    seqCnt: nat,
    abortTest: bool,
    armed: bool,     // the interval timer runs
    pending: bool,   // a signal has been sent and not delivered
    handler: Handler,
    services: seq<Service>)

  datatype Action = Expire | Deliver | Handle | Serve(i: nat, raise: bool)

  // The periods of the three services in timer ticks.
  const PERIODS: seq<nat> := [20, 100, 100]

  ghost predicate Table(periods: seq<nat>) {
    |periods| > 0 && forall i :: 0 <= i < |periods| ==> periods[i] > 0
  }

  ghost predicate Initial(periods: seq<nat>, s: State) {
    && s.seqCnt == 0 && !s.abortTest && s.armed && !s.pending && s.handler == Idle
    && s.services == seq(|periods|, i => Service(Check, 0, false, 0, 0, 0))
  }

  // Whether a service asks for the end of the test after its work: the first one after 250
  // releases, the third one with its tenth store, the second one never. The number of files
  // written, which the third one tests, grows by one with each of its releases.
  predicate Raises(i: nat, work: nat) {
    (i == 0 && work > 250) || (i == 2 && work == 10)
  }

  predicate Enabled(s: State, a: Action) {
    match a
    case Expire => s.armed
    case Deliver => s.pending && s.handler == Idle
    case Handle => s.handler != Idle
    case Serve(i, raise) =>
      && i < |s.services| && s.services[i].pc != Done
      && (s.services[i].pc == Waiting ==> s.services[i].sem > 0)
      && (s.services[i].pc == Working ==> raise == Raises(i, s.services[i].work))
  }

  function Served(v: Service): Service {
    match v.pc
    case Check => v.(pc := if v.abort then Done else Waiting)
    case Waiting => if v.sem > 0 then v.(pc := Woken, sem := v.sem - 1, waits := v.waits + 1) else v
    case Woken => if v.abort then v.(pc := Done) else v.(pc := Working, work := v.work + 1)
    case Working => v.(pc := Check)
    case Done => v
  }

  ghost predicate WellFormed(periods: seq<nat>, s: State) {
    && Table(periods) && |s.services| == |periods|
    && (s.handler.Flagging? || s.handler.Posting? || s.handler.Releasing? ==> s.handler.i < |periods|)
    && (s.handler.Releasing? ==> s.seqCnt > 0)
  }

  function Handled(periods: seq<nat>, s: State): State
    requires |s.services| == |periods|
    requires s.handler.Flagging? || s.handler.Posting? || s.handler.Releasing? ==> s.handler.i < |periods|
    requires s.handler.Releasing? ==> periods[s.handler.i] > 0
  {
    var n := |periods|;
    match s.handler
    case Idle => s
    case Entered => if s.abortTest then s.(armed := false, handler := Flagging(0)) else s.(handler := Counting)
    case Flagging(i) =>
      s.(services := s.services[i := s.services[i].(abort := true)],
         handler := if i + 1 < n then Flagging(i + 1) else Posting(0))
    case Posting(i) =>
      var v := s.services[i];
      s.(services := s.services[i := v.(sem := v.sem + 1, shutdownPosts := v.shutdownPosts + 1)],
         handler := if i + 1 < n then Posting(i + 1) else Counting)
    case Counting => s.(seqCnt := s.seqCnt + 1, handler := Releasing(0))
    case Releasing(i) =>
      var v := s.services[i];
      s.(services := if s.seqCnt % periods[i] == 0 then s.services[i := v.(sem := v.sem + 1)] else s.services,
         handler := if i + 1 < n then Releasing(i + 1) else Idle)
  }

  ghost function Step(periods: seq<nat>, s: State, a: Action): State
    requires WellFormed(periods, s) && Enabled(s, a)
  {
    match a
    case Expire => s.(pending := true)
    case Deliver => s.(pending := false, handler := Entered)
    case Handle => Handled(periods, s)
    case Serve(i, raise) =>
      s.(services := s.services[i := Served(s.services[i])],
         abortTest := s.abortTest || (s.services[i].pc == Working && raise))
  }

  // ---------- the invariant ----------

  // How often the periodic part of the handler has posted service i.
  function Releases(periods: seq<nat>, s: State, i: nat): nat
    requires i < |periods| && periods[i] > 0
  {
    (if s.handler.Releasing? && s.handler.i <= i && s.seqCnt > 0 then s.seqCnt - 1 else s.seqCnt) / periods[i]
  }

  ghost predicate FlagSet(s: State, i: nat) {
    s.handler.Posting? || (s.handler.Flagging? && i < s.handler.i)
  }

  // The shutdown has posted service i.
  ghost predicate Posted(s: State, i: nat) {
    !s.armed && !s.handler.Flagging? && (s.handler.Posting? ==> i < s.handler.i)
  }

  ghost predicate ServiceOk(periods: seq<nat>, s: State, i: nat)
    requires i < |periods| && periods[i] > 0 && i < |s.services|
  {
    var v := s.services[i];
    && v.sem + v.waits == Releases(periods, s, i) + v.shutdownPosts
    && (s.armed ==> !v.abort && v.shutdownPosts == 0)
    && (v.shutdownPosts > 0 || FlagSet(s, i) ==> v.abort)
    && (Posted(s, i) ==> v.shutdownPosts > 0)
    && (v.shutdownPosts > 0 && v.pc == Waiting ==> v.sem > 0)
    && v.work + (if v.pc == Woken then 1 else 0) <= v.waits
    && (s.armed ==> v.work + (if v.pc == Woken then 1 else 0) == v.waits)
  }

  ghost predicate Inv(periods: seq<nat>, s: State) {
    && WellFormed(periods, s)
    && (s.armed ==> !s.handler.Flagging? && !s.handler.Posting?)
    && forall i :: 0 <= i < |s.services| ==> ServiceOk(periods, s, i)
  }

  lemma InvInit(periods: seq<nat>, s: State)
    requires Table(periods) && Initial(periods, s)
    ensures Inv(periods, s)
  {
  }

  lemma HandleKeeps(periods: seq<nat>, s: State, i: nat)
    requires Inv(periods, s) && s.handler != Idle && i < |s.services|
    ensures WellFormed(periods, Handled(periods, s)) && ServiceOk(periods, Handled(periods, s), i)
  {
    assert ServiceOk(periods, s, i);
    if s.handler.Releasing? {
      CountUp(s.seqCnt, periods[i]);
    }
  }

  lemma ServeKeeps(periods: seq<nat>, s: State, k: nat, raise: bool, i: nat)
    requires Inv(periods, s) && Enabled(s, Serve(k, raise)) && i < |s.services|
    ensures ServiceOk(periods, Step(periods, s, Serve(k, raise)), i)
  {
    assert ServiceOk(periods, s, i);
  }

  lemma InvStep(periods: seq<nat>, s: State, a: Action)
    requires Inv(periods, s) && Enabled(s, a)
    ensures Inv(periods, Step(periods, s, a))
  {
    var t := Step(periods, s, a);
    match a
    case Handle =>
      HandleKeeps(periods, s, 0);
      forall i | 0 <= i < |t.services| ensures ServiceOk(periods, t, i) {
        HandleKeeps(periods, s, i);
      }
    case Serve(k, raise) =>
      forall i | 0 <= i < |t.services| ensures ServiceOk(periods, t, i) {
        ServeKeeps(periods, s, k, raise, i);
      }
    case _ =>
      forall i | 0 <= i < |t.services| ensures ServiceOk(periods, t, i) {
        assert ServiceOk(periods, s, i);
      }
  }

  // ---------- runs ----------

  ghost predicate Leads(periods: seq<nat>, s: State, actions: seq<Action>, t: State)
    decreases |actions|
  {
    if actions == [] then s == t
    else
      && WellFormed(periods, s) && Enabled(s, actions[0])
      && Leads(periods, Step(periods, s, actions[0]), actions[1..], t)
  }

  lemma {:induction false} InvAlong(periods: seq<nat>, s: State, actions: seq<Action>, t: State)
    requires Inv(periods, s) && Leads(periods, s, actions, t)
    ensures Inv(periods, t)
    decreases |actions|
  {
    hide Inv, Step, Enabled, WellFormed;
    if actions != [] {
      InvStep(periods, s, actions[0]);
      InvAlong(periods, Step(periods, s, actions[0]), actions[1..], t);
    }
  }

  lemma EveryRun(periods: seq<nat>, s: State, actions: seq<Action>, t: State)
    requires |periods| > 0 && forall i :: 0 <= i < |periods| ==> periods[i] > 0
    requires Initial(periods, s) && Leads(periods, s, actions, t)
    ensures Inv(periods, t)
  {
    hide Inv, Initial, Leads;
    InvInit(periods, s);
    InvAlong(periods, s, actions, t);
  }

  // Until the shutdown a service has waited, or can wait without blocking, exactly once
  // per period.
  lemma ReleasedOncePerPeriod(periods: seq<nat>, s: State, i: nat)
    requires Inv(periods, s) && s.armed && s.handler == Idle && i < |periods|
    ensures s.services[i].sem + s.services[i].waits == s.seqCnt / periods[i]
    ensures s.services[i].work <= s.seqCnt / periods[i]
  {
    assert ServiceOk(periods, s, i);
  }

  // ---------- from abortTest to the shutdown ----------

  // The service has done the work of its n-th release.
  ghost predicate Worked(s: State, i: nat, n: nat) {
    i < |s.services| && (s.services[i].work > n || (s.services[i].work == n && s.services[i].pc != Working))
  }

  // What abortTest says about the work done.
  ghost predicate AbortMeans(s: State) {
    s.abortTest <==> Worked(s, 0, 251) || Worked(s, 2, 10)
  }

  lemma AbortMeansStep(periods: seq<nat>, s: State, a: Action)
    requires WellFormed(periods, s) && Enabled(s, a) && AbortMeans(s)
    ensures AbortMeans(Step(periods, s, a))
  {
    var t := Step(periods, s, a);
    if a.Serve? {
      assert forall i :: 0 <= i < |s.services| && i != a.i ==> t.services[i] == s.services[i];
    } else {
      assert forall i :: 0 <= i < |s.services| ==>
        t.services[i].work == s.services[i].work && t.services[i].pc == s.services[i].pc;
    }
  }

  lemma {:induction false} AbortMeansAlong(periods: seq<nat>, s: State, actions: seq<Action>, t: State)
    requires AbortMeans(s) && Leads(periods, s, actions, t)
    ensures AbortMeans(t)
    decreases |actions|
  {
    hide Step, Enabled, WellFormed, AbortMeans;
    if actions != [] {
      AbortMeansStep(periods, s, actions[0]);
      AbortMeansAlong(periods, Step(periods, s, actions[0]), actions[1..], t);
    }
  }

  // In every run the end of the test has been asked for exactly if the first service has
  // worked 251 times or the third one ten times.
  lemma AbortExactly(periods: seq<nat>, s: State, actions: seq<Action>, t: State)
    requires Initial(periods, s) && Leads(periods, s, actions, t)
    ensures t.abortTest <==> Worked(t, 0, 251) || Worked(t, 2, 10)
  {
    AbortMeansAlong(periods, s, actions, t);
  }

  // In actions a signal is delivered and the handler goes on afterwards.
  ghost predicate HandlerStarts(actions: seq<Action>) {
    exists i, j :: 0 <= i < j < |actions| && actions[i] == Deliver && actions[j] == Handle
  }

  // Neither abortTest nor the end of the timer is ever taken back, and a handler that has
  // been entered stays at its first test until it runs.
  lemma AbortStep(periods: seq<nat>, s: State, a: Action)
    requires WellFormed(periods, s) && Enabled(s, a)
    ensures var t := Step(periods, s, a);
      && (s.abortTest ==> t.abortTest)
      && (!s.armed ==> !t.armed)
      && (s.handler == Entered ==> if a == Handle then (s.abortTest ==> !t.armed) else t.handler == Entered)
      && (a == Deliver ==> t.handler == Entered)
  {
  }

  lemma {:induction false} EnteredTurnsOff(periods: seq<nat>, s: State, actions: seq<Action>, t: State)
    requires Inv(periods, s) && s.abortTest && Leads(periods, s, actions, t)
    requires !s.armed || (s.handler == Entered && Handle in actions)
    ensures !t.armed
    decreases |actions|
  {
    hide Inv, Step, Enabled, WellFormed;
    if actions != [] {
      InvStep(periods, s, actions[0]);
      AbortStep(periods, s, actions[0]);
      EnteredTurnsOff(periods, Step(periods, s, actions[0]), actions[1..], t);
    }
  }

  // Once abortTest is set, the next signal that is delivered and handled turns the timer
  // off: every run in which that happens has come to the shutdown, whatever else happens.
  lemma {:induction false} AbortComesToShutdown(periods: seq<nat>, s: State, actions: seq<Action>, t: State)
    requires Inv(periods, s) && s.abortTest && Leads(periods, s, actions, t) && HandlerStarts(actions)
    ensures Inv(periods, t) && t.abortTest && !t.armed
    decreases |actions|
  {
    hide Inv, Step, Enabled, WellFormed;
    var i, j :| 0 <= i < j < |actions| && actions[i] == Deliver && actions[j] == Handle;
    var a, rest := actions[0], actions[1..];
    InvStep(periods, s, a);
    AbortStep(periods, s, a);
    assert rest[j - 1] == Handle;
    if a == Deliver {
      EnteredTurnsOff(periods, Step(periods, s, a), rest, t);
      AbortAlong(periods, s, actions, t);
    } else {
      assert rest[i - 1] == Deliver;
      AbortComesToShutdown(periods, Step(periods, s, a), rest, t);
    }
  }

  lemma {:induction false} AbortAlong(periods: seq<nat>, s: State, actions: seq<Action>, t: State)
    requires Inv(periods, s) && s.abortTest && Leads(periods, s, actions, t)
    ensures Inv(periods, t) && t.abortTest
    decreases |actions|
  {
    hide Inv, Step, Enabled, WellFormed;
    if actions != [] {
      InvStep(periods, s, actions[0]);
      AbortStep(periods, s, actions[0]);
      AbortAlong(periods, Step(periods, s, actions[0]), actions[1..], t);
    }
  }

  // And while the timer runs such a signal always can come: the handler finishes what it is
  // doing, the timer expires, and nothing stands in the way of the next delivery.
  lemma SignalCanCome(periods: seq<nat>, s: State)
    requires Inv(periods, s) && s.armed
    ensures s.handler != Idle ==> Enabled(s, Handle)
    ensures s.handler == Idle ==> Enabled(s, Expire) && Enabled(Step(periods, s, Expire), Deliver)
  {
  }

  // ---------- shutdown ----------

  // A service may take four steps for a post it can still consume, and a few to leave.
  function Weight(v: Service): nat {
    4 * v.sem + match v.pc case Check => 1 case Waiting => 0 case Woken => 3 case Working => 2 case Done => 0
  }

  function Weights(vs: seq<Service>): nat {
    Total(vs, Weight)
  }

  // What the handler still has to do, at five for each step since a step may post once.
  function Remaining(periods: seq<nat>, h: Handler): int {
    var n := |periods|;
    match h
    case Idle => 0
    case Entered => 5 * (3 * n + 2)
    case Flagging(i) => 5 * (3 * n + 1 - i)
    case Posting(i) => 5 * (2 * n + 1 - i)
    case Counting => 5 * (n + 1)
    case Releasing(i) => 5 * (n - i)
  }

  function Measure(periods: seq<nat>, s: State): int {
    Weights(s.services) + Remaining(periods, s.handler) + if s.pending then 5 * (3 * |periods| + 3) else 0
  }

  lemma HandleDecreases(periods: seq<nat>, s: State)
    requires WellFormed(periods, s) && s.handler != Idle
    ensures Measure(periods, Handled(periods, s)) < Measure(periods, s)
  {
    hide Total;
    var t := Handled(periods, s);
    if s.handler.Flagging? || s.handler.Posting? || s.handler.Releasing? {
      var i := s.handler.i;
      assert t.services == s.services[i := t.services[i]];
      TotalUpdate(s.services, Weight, i, t.services[i]);
    }
  }

  // Once the timer is off every step brings the end nearer, whoever takes it.
  lemma ShutdownProgress(periods: seq<nat>, s: State, a: Action)
    requires Inv(periods, s) && !s.armed && Enabled(s, a)
    ensures 0 <= Measure(periods, Step(periods, s, a)) < Measure(periods, s)
    ensures !Step(periods, s, a).armed
  {
    InvStep(periods, s, a);
    match a
    case Handle => HandleDecreases(periods, s);
    case Serve(i, raise) => TotalUpdate(s.services, Weight, i, Served(s.services[i]));
    case _ =>
  }

  // From the moment the shutdown has posted it no service is ever blocked, whatever the
  // handler does: it has ended or can take its next step.
  lemma NoServiceStuck(periods: seq<nat>, s: State, i: nat)
    requires Inv(periods, s) && i < |s.services| && (Posted(s, i) || s.services[i].shutdownPosts > 0)
    ensures s.services[i].pc == Done || Enabled(s, Serve(i, Raises(i, s.services[i].work)))
  {
    assert ServiceOk(periods, s, i);
  }

  ghost predicate Quiet(s: State) {
    forall a :: !Enabled(s, a)
  }

  lemma QuietMeansDone(periods: seq<nat>, s: State)
    requires Inv(periods, s) && Quiet(s)
    ensures !s.armed && forall i :: 0 <= i < |s.services| ==> s.services[i].pc == Done
  {
    assert !Enabled(s, Expire) && !Enabled(s, Deliver) && !Enabled(s, Handle);
    forall i | 0 <= i < |s.services| ensures s.services[i].pc == Done {
      NoServiceStuck(periods, s, i);
    }
  }

  // Every run that starts after the shutdown is short, and one that cannot be prolonged has
  // ended all services.
  lemma {:induction false} ShutdownEnds(periods: seq<nat>, s: State, actions: seq<Action>, t: State)
    requires Inv(periods, s) && !s.armed && Leads(periods, s, actions, t)
    ensures |actions| <= Measure(periods, s)
    ensures Quiet(t) ==> forall i :: 0 <= i < |t.services| ==> t.services[i].pc == Done
    decreases |actions|
  {
    hide Inv, Step, Enabled, Measure, Quiet;
    if actions == [] {
      MeasureIsNat(periods, s);
      if Quiet(t) {
        QuietMeansDone(periods, t);
      }
    } else {
      InvStep(periods, s, actions[0]);
      ShutdownProgress(periods, s, actions[0]);
      ShutdownEnds(periods, Step(periods, s, actions[0]), actions[1..], t);
    }
  }

  lemma MeasureIsNat(periods: seq<nat>, s: State)
    requires Inv(periods, s)
    ensures Measure(periods, s) >= 0
  {
  }
}
