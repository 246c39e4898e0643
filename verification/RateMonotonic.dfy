/** lab1.c: two services released at multiples of 20 and 50 ms and run under fixed-priority
    preemption. Time is dense; a job may take any time up to its budget of 10 or 20 ms, the
    sequencer itself takes none and sleeps exactly. */
module RateMonotonic {

  // ---------- the sequencer ----------

  function Multiples(step: int, n: nat): seq<int> {
    seq(n, k requires 0 <= k < n => step * k)
  }

  // The loop tests its condition at the end, so it runs at least once.
  function Loops(majorPeriods: int): nat {
    if majorPeriods <= 1 then 1 else majorPeriods
  }

  // The posts of each semaphore, by time: those of the schedule, and the time of the
  // shutdown.
  method Sequencer(majorPeriods: int) returns (f10: seq<int>, f20: seq<int>, end: int)
    ensures var loops := if majorPeriods <= 1 then 1 else majorPeriods;
      && |f10| == 5 * loops && (forall k :: 0 <= k < |f10| ==> f10[k] == 20 * k)
      && |f20| == 2 * loops && (forall k :: 0 <= k < |f20| ==> f20[k] == 50 * k)
      && end == 100 * loops
  {
    f10, f20 := [], [];
    var t, majorPeriodCnt := 0, 0;
    while majorPeriodCnt == 0 || majorPeriodCnt < majorPeriods
      invariant 0 <= majorPeriodCnt <= Loops(majorPeriods)
      invariant t == 100 * majorPeriodCnt
      invariant f10 == Multiples(20, 5 * majorPeriodCnt)
      invariant f20 == Multiples(50, 2 * majorPeriodCnt)
      decreases Loops(majorPeriods) - majorPeriodCnt
    {
      f10, f20 := f10 + [t], f20 + [t];
      t := t + 20;
      f10 := f10 + [t];
      t := t + 20;
      f10 := f10 + [t];
      t := t + 10;
      f20 := f20 + [t];
      t := t + 10;
      f10 := f10 + [t];
      t := t + 20;
      f10 := f10 + [t];
      t := t + 20;
      majorPeriodCnt := majorPeriodCnt + 1;
    }
    end := t;
  }

  // ---------- the schedule ----------

  datatype Task = F10 | F20

  function Budget(task: Task): int {
    match task case F10 => 10 case F20 => 20
  }

  datatype Post = Post(offset: int, task: Task)

  // The body of the sequencer's loop: what is posted how long after its start.
  const SCRIPT: seq<Post> := [
    Post(0, F10), Post(0, F20), Post(20, F10), Post(40, F10), Post(50, F20), Post(60, F10), Post(80, F10)]

  // The work still to do for each task is that of all its jobs released so far.
  datatype State = State(
    major: nat,    // loops completed
    pc: nat,       // posts made in this loop
    u: real,       // time since its start
    left10: real,
    left20: real,
    over: bool)    // the sequencer has ended

  datatype Action = Release(work: real) | Run(d: real) | NextLoop

  // When the sequencer acts next: a post, or the end of the loop.
  function NextEvent(s: State): int {
    if s.pc < |SCRIPT| then SCRIPT[s.pc].offset else 100
  }

  // The sequencer has the highest priority, so nothing runs past its next event, and the
  // first service preempts the second; a run ends where a job does at the latest.
  predicate Enabled(s: State, a: Action) {
    match a
    case Release(w) =>
      !s.over && s.pc < |SCRIPT| && s.u == NextEvent(s) as real && 0.0 <= w <= Budget(SCRIPT[s.pc].task) as real
    case Run(d) =>
      && d > 0.0
      && (!s.over ==> s.u + d <= NextEvent(s) as real)
      && (s.left10 > 0.0 ==> d <= s.left10)
      && (s.left10 <= 0.0 && s.left20 > 0.0 ==> d <= s.left20)
    case NextLoop => !s.over && s.pc == |SCRIPT| && s.u == 100.0
  }

  function Step(loops: int, s: State, a: Action): State
    requires Enabled(s, a)
  {
    match a
    case Release(w) =>
      if SCRIPT[s.pc].task == F10 then s.(pc := s.pc + 1, left10 := s.left10 + w)
      else s.(pc := s.pc + 1, left20 := s.left20 + w)
    case Run(d) =>
      if s.left10 > 0.0 then s.(u := s.u + d, left10 := s.left10 - d)
      else if s.left20 > 0.0 then s.(u := s.u + d, left20 := s.left20 - d)
      else s.(u := s.u + d)
    case NextLoop =>
      if s.major + 1 < loops then State(s.major + 1, 0, 0.0, s.left10, s.left20, false)
      else s.(major := s.major + 1, u := 0.0, pc := 0, over := true)
  }

  const START := State(0, 0, 0.0, 0.0, 0.0, false)

  // Budget released since the start of the loop, and when the first service was last posted.
  function Demand(pc: nat): int
    requires pc <= |SCRIPT|
  {
    if pc == 0 then 0 else Demand(pc - 1) + Budget(SCRIPT[pc - 1].task)
  }

  function LastF10(pc: nat): int
    requires pc <= |SCRIPT|
  {
    if pc == 0 then -20 else if SCRIPT[pc - 1].task == F10 then SCRIPT[pc - 1].offset else LastF10(pc - 1)
  }

  function Max0(x: real): real { if x > 0.0 then x else 0.0 }

  // The work left never exceeds what would be left had the processor been busy since the
  // loop began; the first service is served at once, and the second has caught up before
  // it is released and after 40 and 80 ms.
  ghost predicate Inv(s: State) {
    && s.pc <= |SCRIPT| && 0.0 <= s.left10 && 0.0 <= s.left20
    && (s.over ==> s.left10 == 0.0 && s.left20 == 0.0)
    && (!s.over ==>
          && (if s.pc == 0 then 0.0 else SCRIPT[s.pc - 1].offset as real) <= s.u <= NextEvent(s) as real
          && s.left10 + s.left20 <= Max0(Demand(s.pc) as real - s.u)
          && s.left10 <= Max0(LastF10(s.pc) as real + 10.0 - s.u)
          && (s.pc <= 1 || s.pc == 4 || s.pc == 7 ==> s.left20 == 0.0))
  }

  // The script by cases.
  lemma Table(pc: nat)
    requires pc <= |SCRIPT|
    ensures Demand(pc) == [0, 10, 30, 40, 50, 70, 80, 90][pc]
    ensures LastF10(pc) == [-20, 0, 0, 20, 40, 40, 60, 80][pc]
    ensures pc < |SCRIPT| ==> SCRIPT[pc].offset <= Demand(pc)
    ensures pc < |SCRIPT| && SCRIPT[pc].task == F10 ==> LastF10(pc) + 20 == SCRIPT[pc].offset
  {
    assert Demand(0) == 0 && Demand(1) == 10 && Demand(2) == 30 && Demand(3) == 40;
    assert Demand(4) == 50 && Demand(5) == 70 && Demand(6) == 80 && Demand(7) == 90;
    assert LastF10(0) == -20 && LastF10(1) == 0 && LastF10(2) == 0 && LastF10(3) == 20;
    assert LastF10(4) == 40 && LastF10(5) == 40 && LastF10(6) == 60 && LastF10(7) == 80;
  }

  lemma ReleaseKeeps(loops: int, s: State, w: real)
    requires Inv(s) && Enabled(s, Release(w))
    ensures Inv(Step(loops, s, Release(w)))
  {
    Table(s.pc);
    Table(s.pc + 1);
  }

  lemma RunKeeps(loops: int, s: State, d: real)
    requires Inv(s) && Enabled(s, Run(d))
    ensures Inv(Step(loops, s, Run(d)))
  {
    hide Demand, LastF10;
  }

  lemma NextLoopKeeps(loops: int, s: State)
    requires Inv(s) && Enabled(s, NextLoop)
    ensures Inv(Step(loops, s, NextLoop))
  {
    Table(0);
    Table(7);
  }

  lemma InvStep(loops: int, s: State, a: Action)
    requires Inv(s) && Enabled(s, a)
    ensures Inv(Step(loops, s, a))
  {
    hide Inv, Enabled, Step;
    match a
    case Release(w) => ReleaseKeeps(loops, s, w);
    case Run(d) => RunKeeps(loops, s, d);
    case NextLoop => NextLoopKeeps(loops, s);
  }

  ghost predicate Leads(loops: int, s: State, actions: seq<Action>, t: State)
    decreases |actions|
  {
    if actions == [] then s == t
    else Enabled(s, actions[0]) && Leads(loops, Step(loops, s, actions[0]), actions[1..], t)
  }

  lemma {:induction false} InvAlong(loops: int, s: State, actions: seq<Action>, t: State)
    requires Inv(s) && Leads(loops, s, actions, t)
    ensures Inv(t)
    decreases |actions|
  {
    hide Inv, Step, Enabled;
    if actions != [] {
      InvStep(loops, s, actions[0]);
      InvAlong(loops, Step(loops, s, actions[0]), actions[1..], t);
    }
  }

  // In every run of any number of major periods: a job has ended when the next one of its
  // task is released, nothing is left at the end of a major period or after the last one.
  lemma DeadlinesMet(loops: int, actions: seq<Action>, t: State)
    requires Leads(loops, START, actions, t)
    ensures forall w :: Enabled(t, Release(w)) ==>
      if SCRIPT[t.pc].task == F10 then t.left10 == 0.0 else t.left20 == 0.0
    ensures Enabled(t, NextLoop) || t.over ==> t.left10 == 0.0 && t.left20 == 0.0
  {
    StartHolds();
    InvAlong(loops, START, actions, t);
    hide Leads;
    if t.pc <= |SCRIPT| {
      Table(t.pc);
    }
  }

  lemma StartHolds()
    ensures Inv(START)
  {
    Table(0);
  }

  // A job of the first service ends within 10 ms of its release; those of the second one
  // by 40 and 80 ms into the major period, 40 and 30 ms after theirs.
  lemma ResponseTimes(loops: int, actions: seq<Action>, t: State)
    requires Leads(loops, START, actions, t) && !t.over
    ensures t.pc <= |SCRIPT| && (t.u >= LastF10(t.pc) as real + 10.0 ==> t.left10 == 0.0)
    ensures 40.0 <= t.u && t.pc <= 4 ==> t.left20 == 0.0
    ensures 80.0 <= t.u ==> t.left20 == 0.0
  {
    StartHolds();
    InvAlong(loops, START, actions, t);
    Table(t.pc);
    hide Leads;
  }

  lemma {:induction false} LeadsOn(loops: int, s: State, actions: seq<Action>, t: State, a: Action)
    requires Leads(loops, s, actions, t) && Enabled(t, a)
    ensures Leads(loops, s, actions + [a], Step(loops, t, a))
    decreases |actions|
  {
    hide Step, Enabled;
    if actions == [] {
      assert actions + [a] == [a] && [a][1..] == [];
    } else {
      LeadsOn(loops, Step(loops, s, actions[0]), actions[1..], t, a);
      assert (actions + [a])[1..] == actions[1..] + [a];
    }
  }

  // One more step of a run, towards a state known in advance.
  lemma Then(loops: int, before: seq<Action>, s: State, a: Action, t: State) returns (actions: seq<Action>)
    requires Leads(loops, START, before, s) && Enabled(s, a) && t == Step(loops, s, a)
    ensures Leads(loops, START, actions, t)
  {
    LeadsOn(loops, START, before, s, a);
    actions := before + [a];
  }

  // With full budgets: the first major period up to the second release of the first service,
  // when the second one has had ten of its twenty milliseconds.
  lemma FullUpTo20(loops: int) returns (actions: seq<Action>)
    ensures Leads(loops, START, actions, State(0, 2, 20.0, 0.0, 10.0, false))
  {
    hide Leads;
    actions := FirstPost(loops);
    actions := Then(loops, actions, State(0, 1, 0.0, 10.0, 0.0, false), Release(20.0),
                    State(0, 2, 0.0, 10.0, 20.0, false));
    actions := Then(loops, actions, State(0, 2, 0.0, 10.0, 20.0, false), Run(10.0),
                    State(0, 2, 10.0, 0.0, 20.0, false));
    actions := Then(loops, actions, State(0, 2, 10.0, 0.0, 20.0, false), Run(10.0),
                    State(0, 2, 20.0, 0.0, 10.0, false));
  }

  lemma FirstPost(loops: int) returns (actions: seq<Action>)
    ensures Leads(loops, START, actions, State(0, 1, 0.0, 10.0, 0.0, false))
  {
    actions := [Release(10.0)];
    assert actions[1..] == [];
    assert Leads(loops, Step(loops, START, actions[0]), [], State(0, 1, 0.0, 10.0, 0.0, false));
  }

  // The bounds on the response times cannot be lowered: with full budgets there are runs in
  // which work is left at every instant before 10 ms for the first service, and before 40 ms
  // for the second one.
  lemma BoundsAreTight(loops: int, e: real) returns (one: seq<Action>, s: State, two: seq<Action>, t: State)
    requires 0.0 < e < 10.0
    ensures Leads(loops, START, one, s) && s.u == 10.0 - e && s.left10 == e
    ensures Leads(loops, START, two, t) && t.u == 40.0 - e && t.left20 == e
  {
    hide Leads;
    one := FirstPost(loops);
    s := State(0, 1, 0.0, 10.0, 0.0, false);
    one := Then(loops, one, s, Release(20.0), State(0, 2, 0.0, 10.0, 20.0, false));
    s := State(0, 2, 10.0 - e, e, 20.0, false);
    one := Then(loops, one, State(0, 2, 0.0, 10.0, 20.0, false), Run(10.0 - e), s);
    two := FullUpTo20(loops);
    two := Then(loops, two, State(0, 2, 20.0, 0.0, 10.0, false), Release(10.0),
                State(0, 3, 20.0, 10.0, 10.0, false));
    two := Then(loops, two, State(0, 3, 20.0, 10.0, 10.0, false), Run(10.0), State(0, 3, 30.0, 0.0, 10.0, false));
    t := State(0, 3, 40.0 - e, 0.0, e, false);
    two := Then(loops, two, State(0, 3, 30.0, 0.0, 10.0, false), Run(10.0 - e), t);
  }

  // The posts of the first n entries of the script that release task.
  function Posts(task: Task, n: nat): nat
    requires n <= |SCRIPT|
  {
    if n == 0 then 0 else Posts(task, n - 1) + if SCRIPT[n - 1].task == task then 1 else 0
  }

  lemma PostTable(pc: nat)
    requires pc <= |SCRIPT|
    ensures Posts(F10, pc) == [0, 1, 1, 2, 3, 3, 4, 5][pc] && Posts(F20, pc) == [0, 0, 1, 1, 1, 2, 2, 2][pc]
  {
    assert Posts(F10, 0) == 0 && Posts(F10, 1) == 1 && Posts(F10, 2) == 1 && Posts(F10, 3) == 2;
    assert Posts(F10, 4) == 3 && Posts(F10, 5) == 3 && Posts(F10, 6) == 4 && Posts(F10, 7) == 5;
    assert Posts(F20, 0) == 0 && Posts(F20, 1) == 0 && Posts(F20, 2) == 1 && Posts(F20, 3) == 1;
    assert Posts(F20, 4) == 1 && Posts(F20, 5) == 2 && Posts(F20, 6) == 2 && Posts(F20, 7) == 2;
  }

  // The releases of the state machine are those of the sequencer: release number k of a
  // task, counted over all major periods, is at the k-th multiple of its period.
  lemma ReleaseInstants(s: State, w: real)
    requires Inv(s) && Enabled(s, Release(w))
    ensures var task := SCRIPT[s.pc].task;
      && (task == F10 ==> 100.0 * s.major as real + s.u == 20.0 * (5 * s.major + Posts(F10, s.pc)) as real)
      && (task == F20 ==> 100.0 * s.major as real + s.u == 50.0 * (2 * s.major + Posts(F20, s.pc)) as real)
  {
    PostTable(s.pc);
  }

  // The instants at which a run releases task, over all major periods.
  function Instants(loops: int, s: State, actions: seq<Action>, task: Task): seq<real>
    requires Follows(loops, s, actions)
    decreases |actions|
  {
    if actions == [] then []
    else
      (if actions[0].Release? && SCRIPT[s.pc].task == task then [100.0 * s.major as real + s.u] else [])
      + Instants(loops, Step(loops, s, actions[0]), actions[1..], task)
  }

  predicate Follows(loops: int, s: State, actions: seq<Action>)
    decreases |actions|
  {
    actions == [] || (Enabled(s, actions[0]) && Follows(loops, Step(loops, s, actions[0]), actions[1..]))
  }

  // How many releases of task there have been.
  function Released(s: State, task: Task): nat
    requires s.pc <= |SCRIPT|
  {
    (if task == F10 then 5 else 2) * s.major + Posts(task, s.pc)
  }

  // The sequencer has ended exactly when it has gone through its loops, at least once.
  ghost predicate LoopsInv(loops: int, s: State) {
    && Inv(s)
    && (s.over ==> s.major == if loops <= 1 then 1 else loops)
    && (!s.over ==> s.major == 0 || s.major < loops)
    && (s.over ==> s.pc == 0)
  }

  lemma LoopsStep(loops: int, s: State, a: Action)
    requires LoopsInv(loops, s) && Enabled(s, a)
    ensures LoopsInv(loops, Step(loops, s, a))
  {
    InvStep(loops, s, a);
    hide Inv;
  }

  lemma ReleasedStep(loops: int, s: State, a: Action, task: Task)
    requires LoopsInv(loops, s) && Enabled(s, a) && Step(loops, s, a).pc <= |SCRIPT|
    ensures Released(Step(loops, s, a), task)
      == Released(s, task) + if a.Release? && SCRIPT[s.pc].task == task then 1 else 0
    ensures a.Release? ==>
      var period := if SCRIPT[s.pc].task == F10 then 20.0 else 50.0;
      100.0 * s.major as real + s.u == period * Released(s, SCRIPT[s.pc].task) as real
  {
    PostTable(s.pc);
    match a
    case Release(w) =>
      PostTable(s.pc + 1);
      ReleaseInstants(s, w);
    case NextLoop => PostTable(0);
    case _ =>
  }

  // The releases of a whole run, from a state on, at the multiples of its period.
  lemma {:induction false} InstantsAlong(loops: int, s: State, actions: seq<Action>, t: State, task: Task)
    requires LoopsInv(loops, s) && Leads(loops, s, actions, t)
    ensures LoopsInv(loops, t) && Follows(loops, s, actions)
    ensures var at := Instants(loops, s, actions, task);
      && |at| == Released(t, task) - Released(s, task)
      && forall k :: 0 <= k < |at| ==>
           at[k] == (if task == F10 then 20.0 else 50.0) * (Released(s, task) + k) as real
    decreases |actions|
  {
    hide Enabled, Step, Released;
    if actions != [] {
      LoopsStep(loops, s, actions[0]);
      ReleasedStep(loops, s, actions[0], task);
      InstantsAlong(loops, Step(loops, s, actions[0]), actions[1..], t, task);
    }
  }

  // How long the processor has run or idled in a run.
  function Duration(actions: seq<Action>): real {
    if actions == [] then 0.0 else (if actions[0].Run? then actions[0].d else 0.0) + Duration(actions[1..])
  }

  // Time passes exactly while services run or the processor idles.
  lemma {:induction false} TimePasses(loops: int, s: State, actions: seq<Action>, t: State)
    requires Leads(loops, s, actions, t)
    ensures 100.0 * t.major as real + t.u == 100.0 * s.major as real + s.u + Duration(actions)
    decreases |actions|
  {
    if actions != [] {
      TimePasses(loops, Step(loops, s, actions[0]), actions[1..], t);
      hide Leads;
    }
  }

  // In every run from the start the first service is released at 0, 20, 40 ms and so on and
  // the second one at 0, 50, 100 ms and so on, without end or omission until the sequencer
  // has gone through its loops; then there have been five and two releases for each.
  lemma EveryRelease(loops: int, actions: seq<Action>, t: State)
    requires Leads(loops, START, actions, t)
    ensures Follows(loops, START, actions)
    ensures var f10, f20 := Instants(loops, START, actions, F10), Instants(loops, START, actions, F20);
      && (forall k :: 0 <= k < |f10| ==> f10[k] == 20.0 * k as real)
      && (forall k :: 0 <= k < |f20| ==> f20[k] == 50.0 * k as real)
      && (!t.over ==> |f10| as real * 20.0 >= 100.0 * t.major as real + t.u
                      && |f20| as real * 50.0 >= 100.0 * t.major as real + t.u)
      && (t.over ==> var n := if loops <= 1 then 1 else loops; |f10| == 5 * n && |f20| == 2 * n)
    ensures 100.0 * t.major as real + t.u == Duration(actions)
  {
    StartHolds();
    InstantsAlong(loops, START, actions, t, F10);
    TimePasses(loops, START, actions, t);
    InstantsAlong(loops, START, actions, t, F20);
    PostTable(t.pc);
    PostTable(0);
    hide Leads, Instants, Duration;
  }

  // Time goes on: before the end of the test there is always a next step.
  lemma NeverStops(s: State) returns (a: Action)
    requires Inv(s)
    ensures Enabled(s, a)
  {
    var room := if s.over then 1.0 else NextEvent(s) as real - s.u;
    if room <= 0.0 {
      a := if s.pc < |SCRIPT| then Release(0.0) else NextLoop;
    } else {
      var job := if s.left10 > 0.0 then s.left10 else if s.left20 > 0.0 then s.left20 else room;
      a := Run(if job < room then job else room);
    }
  }
}
