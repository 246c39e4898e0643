/** seqgen3v2.c: the table-driven sequencer. Its shutdown posts each semaphore before it sets
    the flag, and its services do not test the flag after a wait; so a service can be left
    waiting. Which ones are left is proved exactly. */
module SequencerGen3 {
  import opened Divisibility
  import opened Totals

  datatype Pc = Check | Waiting | Working | Done

  datatype Service = Service(
    pc: Pc,
    sem: nat,
    abort: bool,
    cnt: nat,            // the service's own count of releases: waits that have returned
    shutdownPosts: nat)  // history: posts by the shutdown

  // The handler: count, release, test for the end, post and flag each service in turn.
  datatype Handler = Idle | Counting | Releasing(i: nat) | Ending | Posting(i: nat) | Flagging(i: nat)

  datatype State = State(seqCnt: nat, armed: bool, pending: bool, handler: Handler, services: seq<Service>)

  datatype Action = Expire | Deliver | Handle | Serve(i: nat)

  // The table of periods and the number of ticks after which the sequencer ends; nothing
  // ever sets the other condition for the end.
  datatype Config = Config(periods: seq<nat>, sequencePeriods: nat)

  ghost predicate Table(cfg: Config) {
    |cfg.periods| > 0 && forall i :: 0 <= i < |cfg.periods| ==> cfg.periods[i] > 0
  }

  ghost predicate Initial(cfg: Config, s: State) {
    s == State(0, true, false, Idle, seq(|cfg.periods|, i => Service(Check, 0, false, 0, 0)))
  }

  predicate Enabled(s: State, a: Action) {
    match a
    case Expire => s.armed
    case Deliver => s.pending && s.handler == Idle
    case Handle => s.handler != Idle
    case Serve(i) =>
      i < |s.services| && s.services[i].pc != Done && (s.services[i].pc == Waiting ==> s.services[i].sem > 0)
  }

  function Served(v: Service): Service {
    match v.pc
    case Check => v.(pc := if v.abort then Done else Waiting)
    case Waiting => if v.sem > 0 then v.(pc := Working, sem := v.sem - 1, cnt := v.cnt + 1) else v
    case Working => v.(pc := Check)
    case Done => v
  }

  ghost predicate WellFormed(cfg: Config, s: State) {
    && Table(cfg) && |s.services| == |cfg.periods|
    && (s.handler.Releasing? || s.handler.Posting? || s.handler.Flagging? ==> s.handler.i < |s.services|)
  }

  ghost function Handled(cfg: Config, s: State): State
    requires WellFormed(cfg, s)
  {
    var n := |s.services|;
    match s.handler
    case Idle => s
    case Counting => s.(seqCnt := s.seqCnt + 1, handler := Releasing(0))
    case Releasing(i) =>
      var v := s.services[i];
      s.(services := if s.seqCnt % cfg.periods[i] == 0 then s.services[i := v.(sem := v.sem + 1)] else s.services,
         handler := if i + 1 < n then Releasing(i + 1) else Ending)
    case Ending =>
      if s.seqCnt >= cfg.sequencePeriods then s.(armed := false, handler := Posting(0)) else s.(handler := Idle)
    case Posting(i) =>
      var v := s.services[i];
      s.(services := s.services[i := v.(sem := v.sem + 1, shutdownPosts := v.shutdownPosts + 1)],
         handler := Flagging(i))
    case Flagging(i) =>
      s.(services := s.services[i := s.services[i].(abort := true)],
         handler := if i + 1 < n then Posting(i + 1) else Idle)
  }

  ghost function Step(cfg: Config, s: State, a: Action): State
    requires WellFormed(cfg, s) && Enabled(s, a)
  {
    match a
    case Expire => s.(pending := true)
    case Deliver => s.(pending := false, handler := Counting)
    case Handle => Handled(cfg, s)
    case Serve(i) => s.(services := s.services[i := Served(s.services[i])])
  }

  ghost predicate Leads(cfg: Config, s: State, actions: seq<Action>, t: State)
    decreases |actions|
  {
    if actions == [] then s == t
    else WellFormed(cfg, s) && Enabled(s, actions[0]) && Leads(cfg, Step(cfg, s, actions[0]), actions[1..], t)
  }

  ghost predicate Quiet(s: State) {
    forall a :: !Enabled(s, a)
  }

  lemma WellFormedStep(cfg: Config, s: State, a: Action)
    requires WellFormed(cfg, s) && Enabled(s, a)
    ensures WellFormed(cfg, Step(cfg, s, a))
  {
  }

  // The timer goes off once, when the ticks are over, and then the shutdown begins.
  ghost predicate Inv(cfg: Config, s: State) {
    && WellFormed(cfg, s)
    && (!s.armed ==> s.seqCnt >= cfg.sequencePeriods)
    && (s.handler.Posting? || s.handler.Flagging? ==> !s.armed)
  }

  lemma InvStep(cfg: Config, s: State, a: Action)
    requires Inv(cfg, s) && Enabled(s, a)
    ensures Inv(cfg, Step(cfg, s, a))
  {
  }

  lemma {:induction false} InvAlong(cfg: Config, s: State, actions: seq<Action>, t: State)
    requires Inv(cfg, s) && Leads(cfg, s, actions, t)
    ensures Inv(cfg, t)
    decreases |actions|
  {
    hide Step, Enabled;
    if actions != [] {
      InvStep(cfg, s, actions[0]);
      InvAlong(cfg, Step(cfg, s, actions[0]), actions[1..], t);
    }
  }

  lemma EveryRun(cfg: Config, s: State, actions: seq<Action>, t: State)
    requires Table(cfg) && Initial(cfg, s) && Leads(cfg, s, actions, t)
    ensures Inv(cfg, t)
  {
    InvAlong(cfg, s, actions, t);
  }

  // ---------- the account of posts and waits ----------

  // How often the periodic part of the handler has posted a service of this period.
  function Releases(seqCnt: nat, h: Handler, period: nat, i: nat): nat
    requires period > 0
  {
    (if h.Releasing? && h.i <= i && seqCnt > 0 then seqCnt - 1 else seqCnt) / period
  }

  // The handler counts, releases and only then may shut down; every post of a semaphore is
  // still there or has let the service go on once; and the flag follows the post.
  ghost predicate AccountOf(cfg: Config, s: State, i: nat)
    requires i < |cfg.periods| && cfg.periods[i] > 0 && i < |s.services|
  {
    var v := s.services[i];
    && v.sem + v.cnt == Releases(s.seqCnt, s.handler, cfg.periods[i], i) + v.shutdownPosts
    && (s.armed ==> v.shutdownPosts == 0)
    && (v.abort || s.handler == Flagging(i) ==> v.shutdownPosts > 0)
    && (v.shutdownPosts > 0 ==> v.abort || s.handler == Flagging(i))
    && (v.pc == Done ==> v.abort)
  }

  ghost predicate Account(cfg: Config, s: State) {
    && Inv(cfg, s) && (s.handler.Releasing? ==> s.seqCnt > 0)
    && (s.armed && s.handler != Ending && !s.handler.Releasing? ==> s.seqCnt == 0 || s.seqCnt < cfg.sequencePeriods)
    && (!s.armed && s.handler == Idle ==> forall i :: 0 <= i < |s.services| ==> s.services[i].abort)
    && (s.handler.Posting? || s.handler.Flagging? ==>
          forall i :: 0 <= i < s.handler.i ==> s.services[i].abort)
    && forall i :: 0 <= i < |s.services| ==> AccountOf(cfg, s, i)
  }

  lemma AccountInit(cfg: Config, s: State)
    requires Table(cfg) && Initial(cfg, s)
    ensures Account(cfg, s)
  {
  }

  lemma HandleReleases(cfg: Config, s: State, i: nat)
    requires WellFormed(cfg, s) && (s.handler.Releasing? ==> s.seqCnt > 0) && i < |s.services|
    ensures cfg.periods[i] > 0
    ensures var t := Handled(cfg, s);
      Releases(t.seqCnt, t.handler, cfg.periods[i], i) == Releases(s.seqCnt, s.handler, cfg.periods[i], i)
      + if s.handler == Releasing(i) && s.seqCnt % cfg.periods[i] == 0 then 1 else 0
  {
    if s.handler == Releasing(i) {
      CountUp(s.seqCnt, cfg.periods[i]);
    }
  }

  lemma DeliverReleases(seqCnt: nat, period: nat, i: nat)
    requires period > 0
    ensures Releases(seqCnt, Idle, period, i) == Releases(seqCnt, Counting, period, i)
  {
  }

  lemma HandleAccount(cfg: Config, s: State, i: nat)
    requires Account(cfg, s) && s.handler != Idle && i < |s.services|
    ensures AccountOf(cfg, Handled(cfg, s), i)
  {
    hide Releases;
    assert AccountOf(cfg, s, i);
    HandleReleases(cfg, s, i);
  }

  lemma AccountStep(cfg: Config, s: State, a: Action)
    requires Account(cfg, s) && Enabled(s, a)
    ensures Account(cfg, Step(cfg, s, a))
  {
    hide Releases;
    InvStep(cfg, s, a);
    var t := Step(cfg, s, a);
    forall i | 0 <= i < |t.services| ensures AccountOf(cfg, t, i) {
      assert AccountOf(cfg, s, i);
      if a == Handle {
        HandleAccount(cfg, s, i);
      } else if a == Deliver {
        DeliverReleases(s.seqCnt, cfg.periods[i], i);
      }
    }
  }

  lemma {:induction false} AccountAlong(cfg: Config, s: State, actions: seq<Action>, t: State)
    requires Account(cfg, s) && Leads(cfg, s, actions, t)
    ensures Account(cfg, t)
    decreases |actions|
  {
    hide Step, Enabled, Account;
    if actions != [] {
      AccountStep(cfg, s, actions[0]);
      AccountAlong(cfg, Step(cfg, s, actions[0]), actions[1..], t);
    }
  }

  // In every run, between two runs of the handler: while the timer is on every service has
  // gone on, or can without blocking, exactly once per period; once it is off there are the
  // posts of the shutdown besides, at least one for each service, and all flags are set.
  lemma ReleasedOncePerPeriod(cfg: Config, s: State, actions: seq<Action>, t: State, i: nat)
    requires forall k :: 0 <= k < |cfg.periods| ==> cfg.periods[k] > 0
    requires Initial(cfg, s) && Leads(cfg, s, actions, t) && t.handler == Idle && i < |cfg.periods|
    ensures |t.services| == |cfg.periods|
    ensures var v := t.services[i];
      && v.sem + v.cnt == t.seqCnt / cfg.periods[i] + v.shutdownPosts
      && (t.armed ==> v.shutdownPosts == 0 && (t.seqCnt == 0 || t.seqCnt < cfg.sequencePeriods))
      && (!t.armed ==> v.shutdownPosts > 0 && v.abort && t.seqCnt >= cfg.sequencePeriods)
  {
    AccountInit(cfg, s);
    AccountAlong(cfg, s, actions, t);
    assert AccountOf(cfg, t, i);
  }

  // ---------- which services are left waiting ----------

  // The handler is past the last post to service i, and will not run again.
  ghost predicate NoMorePosts(s: State, i: nat) {
    && !s.armed && !s.pending
    && (s.handler == Idle || (s.handler.Flagging? && i <= s.handler.i) || (s.handler.Posting? && i < s.handler.i))
  }

  // The flag of service i is set now or with the next step of the handler.
  ghost predicate FlagDue(s: State, i: nat) {
    NoMorePosts(s, i) && i < |s.services| && (s.services[i].abort || s.handler == Flagging(i))
  }

  // Waiting for a post that will not come.
  predicate LeftWaiting(s: State, i: nat)
    requires i < |s.services|
  {
    s.services[i].pc == Waiting && s.services[i].sem == 0
  }

  lemma LeftStays(cfg: Config, s: State, a: Action, i: nat)
    requires WellFormed(cfg, s) && Enabled(s, a) && FlagDue(s, i) && LeftWaiting(s, i)
    ensures FlagDue(Step(cfg, s, a), i) && LeftWaiting(Step(cfg, s, a), i)
  {
  }

  // With the flag set, a service that is not left waiting never will be.
  lemma NotLeftStays(cfg: Config, s: State, a: Action, i: nat)
    requires WellFormed(cfg, s) && Enabled(s, a) && i < |s.services| && s.services[i].abort && !LeftWaiting(s, i)
    ensures var t := Step(cfg, s, a); i < |t.services| && t.services[i].abort && !LeftWaiting(t, i)
  {
  }

  lemma {:induction false} LeftAlong(cfg: Config, s: State, actions: seq<Action>, t: State, i: nat)
    requires WellFormed(cfg, s) && FlagDue(s, i) && LeftWaiting(s, i) && Leads(cfg, s, actions, t)
    ensures FlagDue(t, i) && LeftWaiting(t, i)
    decreases |actions|
  {
    hide Step, WellFormed, Enabled, FlagDue, LeftWaiting;
    if actions != [] {
      WellFormedStep(cfg, s, actions[0]);
      LeftStays(cfg, s, actions[0], i);
      LeftAlong(cfg, Step(cfg, s, actions[0]), actions[1..], t, i);
    }
  }

  // The handler, if it runs on, comes to the post to service i.
  predicate BeforePost(h: Handler, i: nat) {
    match h
    case Idle => false
    case Posting(k) => k <= i
    case Flagging(k) => k < i
    case _ => true
  }

  // Service i has its flag, and is not left waiting or will be posted once more.
  ghost predicate Promised(cfg: Config, s: State, i: nat) {
    && Inv(cfg, s) && !s.armed && i < |s.services| && s.services[i].abort
    && (!LeftWaiting(s, i) || s.pending || BeforePost(s.handler, i))
  }

  lemma PromisedStep(cfg: Config, s: State, a: Action, i: nat)
    requires Promised(cfg, s, i) && Enabled(s, a)
    ensures Promised(cfg, Step(cfg, s, a), i)
  {
  }

  lemma {:induction false} PromisedAlong(cfg: Config, s: State, actions: seq<Action>, t: State, i: nat)
    requires Promised(cfg, s, i) && Leads(cfg, s, actions, t)
    ensures Promised(cfg, t, i)
    decreases |actions|
  {
    hide Step, Enabled, Promised;
    if actions != [] {
      PromisedStep(cfg, s, actions[0], i);
      PromisedAlong(cfg, Step(cfg, s, actions[0]), actions[1..], t, i);
    }
  }

  // The handler is about to set the flag of service i. In every state that is reached from
  // there and in which nothing can move any more, the service has ended exactly if at that
  // moment a signal was pending, whose shutdown posts once more, or the service was not
  // waiting on an empty semaphore.
  lemma EndsExactly(cfg: Config, s: State, actions: seq<Action>, t: State, i: nat)
    requires Inv(cfg, s) && s.handler == Flagging(i)
    requires Leads(cfg, Handled(cfg, s), actions, t) && Quiet(t)
    ensures i < |t.services|
    ensures t.services[i].pc == Done <==> s.pending || !LeftWaiting(s, i)
  {
    var u := Step(cfg, s, Handle);
    InvStep(cfg, s, Handle);
    if s.pending || !LeftWaiting(s, i) {
      PromisedAlong(cfg, u, actions, t, i);
      assert !Enabled(t, Serve(i)) && !Enabled(t, Deliver) && !Enabled(t, Handle);
    } else {
      LeftAlong(cfg, u, actions, t, i);
    }
  }

  lemma {:induction false} FreeAlong(cfg: Config, s: State, actions: seq<Action>, t: State, i: nat)
    requires WellFormed(cfg, s) && i < |s.services| && s.services[i].abort && !LeftWaiting(s, i)
    requires Leads(cfg, s, actions, t)
    ensures i < |t.services| && t.services[i].abort && !LeftWaiting(t, i)
    decreases |actions|
  {
    hide Step, WellFormed, Enabled, LeftWaiting;
    if actions != [] {
      WellFormedStep(cfg, s, actions[0]);
      NotLeftStays(cfg, s, actions[0], i);
      FreeAlong(cfg, Step(cfg, s, actions[0]), actions[1..], t, i);
    }
  }

  // A post that finds the flag of its service already set, as in a second run of the
  // shutdown, lets the service end for certain.
  lemma SecondShutdownFrees(cfg: Config, s: State, actions: seq<Action>, t: State, i: nat)
    requires WellFormed(cfg, s) && s.handler == Posting(i) && s.services[i].abort
    requires Leads(cfg, Handled(cfg, s), actions, t) && Quiet(t)
    ensures i < |t.services| && t.services[i].pc == Done
  {
    WellFormedStep(cfg, s, Handle);
    FreeAlong(cfg, Handled(cfg, s), actions, t, i);
    assert !Enabled(t, Serve(i));
  }

  // ---------- a run that leaves a service waiting ----------

  lemma {:induction false} LeadsOn(cfg: Config, s: State, actions: seq<Action>, t: State, a: Action)
    requires Leads(cfg, s, actions, t) && WellFormed(cfg, t) && Enabled(t, a)
    ensures Leads(cfg, s, actions + [a], Step(cfg, t, a))
    decreases |actions|
  {
    hide Step, Enabled, WellFormed;
    if actions == [] {
      assert actions + [a] == [a] && [a][1..] == [];
    } else {
      LeadsOn(cfg, Step(cfg, s, actions[0]), actions[1..], t, a);
      assert (actions + [a])[1..] == actions[1..] + [a];
    }
  }

  // Service i waits and no flag is set for it yet.
  ghost predicate Midway(cfg: Config, s: State, i: nat) {
    WellFormed(cfg, s) && !s.pending && i < |s.services| && s.services[i].pc == Waiting && !s.services[i].abort
  }

  lemma {:induction false} ToEnding(cfg: Config, s0: State, acts: seq<Action>, s: State, i: nat)
    returns (actions: seq<Action>, t: State)
    requires Leads(cfg, s0, acts, s) && Midway(cfg, s, i) && s.handler.Releasing?
    ensures Leads(cfg, s0, actions, t) && Midway(cfg, t, i) && t.handler == Ending
    ensures t.seqCnt == s.seqCnt && t.armed == s.armed
    decreases |s.services| - s.handler.i
  {
    hide Leads;
    var u := Step(cfg, s, Handle);
    LeadsOn(cfg, s0, acts, s, Handle);
    if u.handler == Ending {
      actions, t := acts + [Handle], u;
    } else {
      actions, t := ToEnding(cfg, s0, acts + [Handle], u, i);
    }
  }

  lemma Tick(cfg: Config, s0: State, acts: seq<Action>, s: State, i: nat) returns (actions: seq<Action>, t: State)
    requires Leads(cfg, s0, acts, s) && Midway(cfg, s, i) && s.handler == Idle && s.armed
    ensures Leads(cfg, s0, actions, t) && Midway(cfg, t, i) && t.handler == Ending
    ensures t.seqCnt == s.seqCnt + 1 && t.armed
  {
    hide Leads;
    LeadsOn(cfg, s0, acts, s, Expire);
    var u := Step(cfg, s, Expire);
    LeadsOn(cfg, s0, acts + [Expire], u, Deliver);
    var v := Step(cfg, u, Deliver);
    LeadsOn(cfg, s0, acts + [Expire] + [Deliver], v, Handle);
    actions, t := ToEnding(cfg, s0, acts + [Expire] + [Deliver] + [Handle], Step(cfg, v, Handle), i);
  }

  lemma {:induction false} Ticks(cfg: Config, s0: State, i: nat, k: nat) returns (actions: seq<Action>, t: State)
    requires Table(cfg) && Initial(cfg, s0) && i < |cfg.periods| && (k == 0 || k < cfg.sequencePeriods)
    ensures Leads(cfg, s0, actions, t) && Midway(cfg, t, i) && t.handler == Idle && t.armed && t.seqCnt == k
  {
    if k == 0 {
      LeadsOn(cfg, s0, [], s0, Serve(i));
      actions, t := [] + [Serve(i)], Step(cfg, s0, Serve(i));
    } else {
      actions, t := Ticks(cfg, s0, i, k - 1);
      hide Leads;
      actions, t := Tick(cfg, s0, actions, t, i);
      LeadsOn(cfg, s0, actions, t, Handle);
      actions, t := actions + [Handle], Step(cfg, t, Handle);
    }
  }

  lemma {:induction false} ToFlagging(cfg: Config, s0: State, acts: seq<Action>, s: State, i: nat)
    returns (actions: seq<Action>, t: State)
    requires Leads(cfg, s0, acts, s) && Midway(cfg, s, i) && !s.armed && s.handler.Posting? && s.handler.i <= i
    ensures Leads(cfg, s0, actions, t) && Midway(cfg, t, i) && !t.armed && t.handler == Flagging(i)
    decreases i - s.handler.i
  {
    hide Leads;
    LeadsOn(cfg, s0, acts, s, Handle);
    var u := Step(cfg, s, Handle);
    if s.handler.i == i {
      actions, t := acts + [Handle], u;
    } else {
      LeadsOn(cfg, s0, acts + [Handle], u, Handle);
      actions, t := ToFlagging(cfg, s0, acts + [Handle] + [Handle], Step(cfg, u, Handle), i);
    }
  }

  // The service takes every post there is, finds the flag clear, and waits again.
  lemma {:induction false} Drain(cfg: Config, s0: State, acts: seq<Action>, s: State, i: nat)
    returns (actions: seq<Action>, t: State)
    requires Leads(cfg, s0, acts, s) && Midway(cfg, s, i) && !s.armed && s.handler == Flagging(i)
    ensures Leads(cfg, s0, actions, t) && Midway(cfg, t, i) && !t.armed && t.handler == Flagging(i)
    ensures LeftWaiting(t, i)
    decreases s.services[i].sem
  {
    hide Leads;
    if s.services[i].sem == 0 {
      actions, t := acts, s;
    } else {
      LeadsOn(cfg, s0, acts, s, Serve(i));
      var u := Step(cfg, s, Serve(i));
      LeadsOn(cfg, s0, acts + [Serve(i)], u, Serve(i));
      var v := Step(cfg, u, Serve(i));
      LeadsOn(cfg, s0, acts + [Serve(i)] + [Serve(i)], v, Serve(i));
      actions, t := Drain(cfg, s0, acts + [Serve(i)] + [Serve(i)] + [Serve(i)], Step(cfg, v, Serve(i)), i);
    }
  }

  // Whatever the table and the number of ticks, any service can be left waiting: a run
  // leads to the moment in question.
  lemma AnyServiceCanHang(cfg: Config, s0: State, i: nat) returns (actions: seq<Action>, t: State)
    requires Table(cfg) && Initial(cfg, s0) && i < |cfg.periods|
    ensures Leads(cfg, s0, actions, t) && WellFormed(cfg, t) && !t.armed && !t.pending
    ensures t.handler == Flagging(i) && LeftWaiting(t, i)
  {
    actions, t := Ticks(cfg, s0, i, if cfg.sequencePeriods == 0 then 0 else cfg.sequencePeriods - 1);
    hide Leads;
    actions, t := Tick(cfg, s0, actions, t, i);
    LeadsOn(cfg, s0, actions, t, Handle);
    actions, t := actions + [Handle], Step(cfg, t, Handle);
    actions, t := ToFlagging(cfg, s0, actions, t, i);
    actions, t := Drain(cfg, s0, actions, t, i);
  }

  // ---------- every run comes to an end after the shutdown ----------

  // A service may take three steps for a post it can still consume, and a few to leave.
  function Weight(v: Service): nat {
    3 * v.sem + match v.pc case Check => 1 case Waiting => 0 case Working => 2 case Done => 0
  }

  function Weights(vs: seq<Service>): nat {
    Total(vs, Weight)
  }

  // What the handler still has to do, at four for each step since a step may post once.
  function Remaining(n: nat, h: Handler): int {
    match h
    case Idle => 0
    case Counting => 4 * (3 * n + 2)
    case Releasing(i) => 4 * (3 * n + 1 - i)
    case Ending => 4 * (2 * n + 1)
    case Posting(i) => 4 * (2 * (n - i))
    case Flagging(i) => 4 * (2 * (n - i) - 1)
  }

  function Measure(s: State): int {
    Weights(s.services) + Remaining(|s.services|, s.handler) + if s.pending then 4 * (3 * |s.services| + 3) else 0
  }

  lemma HandleDecreases(cfg: Config, s: State)
    requires WellFormed(cfg, s) && s.handler != Idle
    ensures Measure(Handled(cfg, s)) < Measure(s)
  {
    hide Total;
    var t := Handled(cfg, s);
    if s.handler.Flagging? || s.handler.Posting? || s.handler.Releasing? {
      var i := s.handler.i;
      assert t.services == s.services[i := t.services[i]];
      TotalUpdate(s.services, Weight, i, t.services[i]);
    }
  }

  // Once the timer is off every step brings the end nearer, whoever takes it.
  lemma ShutdownProgress(cfg: Config, s: State, a: Action)
    requires WellFormed(cfg, s) && !s.armed && Enabled(s, a)
    ensures 0 <= Measure(Step(cfg, s, a)) < Measure(s) && !Step(cfg, s, a).armed
  {
    WellFormedStep(cfg, s, a);
    match a
    case Handle => HandleDecreases(cfg, s);
    case Serve(i) => TotalUpdate(s.services, Weight, i, Served(s.services[i]));
    case _ =>
  }

  // So every run from there is short.
  lemma {:induction false} ShutdownEnds(cfg: Config, s: State, actions: seq<Action>, t: State)
    requires WellFormed(cfg, s) && !s.armed && Leads(cfg, s, actions, t)
    ensures |actions| <= Measure(s)
    decreases |actions|
  {
    hide WellFormed, Step, Enabled, Measure;
    if actions == [] {
      MeasureIsNat(cfg, s);
    } else {
      WellFormedStep(cfg, s, actions[0]);
      ShutdownProgress(cfg, s, actions[0]);
      ShutdownEnds(cfg, Step(cfg, s, actions[0]), actions[1..], t);
    }
  }

  lemma MeasureIsNat(cfg: Config, s: State)
    requires WellFormed(cfg, s)
    ensures Measure(s) >= 0
  {
  }

  // And it can be prolonged to a state in which nothing can move.
  lemma {:induction false} ComesToRest(cfg: Config, s: State) returns (actions: seq<Action>, t: State)
    requires WellFormed(cfg, s) && !s.armed
    ensures Leads(cfg, s, actions, t) && Quiet(t)
    decreases Measure(s)
  {
    hide WellFormed, Step, Enabled, Measure;
    if Quiet(s) {
      actions, t := [], s;
    } else {
      var a :| Enabled(s, a);
      WellFormedStep(cfg, s, a);
      ShutdownProgress(cfg, s, a);
      MeasureIsNat(cfg, s);
      actions, t := ComesToRest(cfg, Step(cfg, s, a));
      assert ([a] + actions)[1..] == actions;
      actions := [a] + actions;
    }
  }

  lemma {:induction false} LeadsThrough(
    cfg: Config, s: State, first: seq<Action>, t: State, last: seq<Action>, u: State)
    requires Leads(cfg, s, first, t) && Leads(cfg, t, last, u)
    ensures Leads(cfg, s, first + last, u)
    decreases |first|
  {
    hide Step, Enabled, WellFormed;
    if first == [] {
      assert first + last == last;
    } else {
      LeadsThrough(cfg, Step(cfg, s, first[0]), first[1..], t, last, u);
      assert (first + last)[1..] == first[1..] + last;
    }
  }

  // A whole run, for any table, number of ticks and service: nothing can move any more and
  // the service still waits.
  lemma ServiceHangs(cfg: Config, s0: State, i: nat) returns (actions: seq<Action>, t: State)
    requires Table(cfg) && Initial(cfg, s0) && i < |cfg.periods|
    ensures Leads(cfg, s0, actions, t) && Quiet(t) && i < |t.services| && t.services[i].pc != Done
  {
    var before, s := AnyServiceCanHang(cfg, s0, i);
    EveryRun(cfg, s0, before, s);
    LeadsOn(cfg, s0, before, s, Handle);
    WellFormedStep(cfg, s, Handle);
    var after: seq<Action>;
    after, t := ComesToRest(cfg, Step(cfg, s, Handle));
    EndsExactly(cfg, s, after, t, i);
    hide Leads, Step, Quiet;
    LeadsThrough(cfg, s0, before + [Handle], Step(cfg, s, Handle), after, t);
    actions := before + [Handle] + after;
  }

  lemma WellFormedAlong(cfg: Config, s: State, actions: seq<Action>, t: State)
    requires Table(cfg) && Initial(cfg, s) && Leads(cfg, s, actions, t)
    ensures |t.services| == |cfg.periods|
  {
    EveryRun(cfg, s, actions, t);
  }

  // As compiled: periods 2, 10 and 15 and two thousand ticks.
  lemma CompiledServiceHangs(s0: State, i: nat) returns (actions: seq<Action>, t: State)
    requires Initial(Config([2, 10, 15], 2000), s0) && i < 3
    ensures Leads(Config([2, 10, 15], 2000), s0, actions, t) && Quiet(t)
    ensures |t.services| == 3 && t.services[i].pc != Done
  {
    actions, t := ServiceHangs(Config([2, 10, 15], 2000), s0, i);
    WellFormedAlong(Config([2, 10, 15], 2000), s0, actions, t);
  }
}
