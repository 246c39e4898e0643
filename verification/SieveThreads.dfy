/** One threaded round of the sieve in erast.c: the workers of invalidate_thread as
    interleaved lock, load, store and unlock steps over the shared byte array. */
module SieveThreads {
  import opened Divisibility
  import opened PackedBits
  import opened SieveTheory

  // What stays fixed during a round: MAX, NUM_THREADS and the current prime.
  datatype Grid = Grid(max: nat, n: nat, p: nat) {
    predicate Valid() { n > 0 && p >= 2 }

    function Locks(): nat { 4 * n }
  }

  // Where a worker stands inside invalidate_thread and set_isprime.
  datatype Pc = Test | Wait | Load | Store | Post | Done

  datatype Worker = Worker(id: nat, j: nat, pc: Pc, reg: bv8) {
    function Target(g: Grid): nat { j + id * g.p }

    function Lock(g: Grid): nat
      requires g.Valid()
      ensures Lock(g) < g.Locks()
    {
      (Target(g) / 8) % g.Locks()
    }

    predicate Holding() { pc.Load? || pc.Store? || pc.Post? }

    predicate Busy() { pc.Wait? || Holding() }
  }

  datatype State = State(workers: seq<Worker>, sem: seq<nat>, mem: Bytes)

  // ---------- the steps ----------

  // Sizes agree and every busy worker addresses a byte of the array.
  ghost predicate Accessible(g: Grid, s: State) {
    && g.Valid()
    && |s.sem| == g.Locks()
    && forall w :: w in s.workers && w.Busy() ==> w.Target(g) / 8 < |s.mem|
  }

  // A worker can move unless it has exited or its semaphore is taken.
  predicate CanMove(g: Grid, w: Worker, sem: seq<nat>)
    requires g.Valid() && |sem| == g.Locks()
  {
    match w.pc
    case Done => false
    case Wait => sem[w.Lock(g)] > 0
    case _ => true
  }

  function Step(g: Grid, s: State, u: nat): State
    requires Accessible(g, s)
    requires u < |s.workers| && CanMove(g, s.workers[u], s.sem)
  {
    var w := s.workers[u];
    match w.pc
    case Test =>
      var next := if w.j < g.max + 1 && !(w.Target(g) > g.max + 1) then Wait else Done;
      s.(workers := s.workers[u := w.(pc := next)])
    case Wait =>
      s.(workers := s.workers[u := w.(pc := Load)], sem := s.sem[w.Lock(g) := s.sem[w.Lock(g)] - 1])
    case Load =>
      s.(workers := s.workers[u := w.(pc := Store, reg := s.mem[w.Target(g) / 8])])
    case Store =>
      s.(workers := s.workers[u := w.(pc := Post)],
         mem := s.mem[w.Target(g) / 8 := Updated(w.reg, w.Target(g), false)])
    case Post =>
      s.(workers := s.workers[u := w.(pc := Test, j := w.j + g.n * g.p)],
         sem := s.sem[w.Lock(g) := s.sem[w.Lock(g)] + 1])
  }

  ghost predicate HasWorker(workers: seq<Worker>, id: nat) {
    exists u :: 0 <= u < |workers| && workers[u].id == id
  }

  ghost predicate Staffed(g: Grid, workers: seq<Worker>) {
    forall id: nat :: id < g.n ==> HasWorker(workers, id)
  }

  // All workers start at 2p, each with one of the identities 0 .. n - 1.
  ghost predicate Init(g: Grid, s: State, mem: Bytes) {
    && g.Valid()
    && |s.workers| == g.n
    && (forall w :: w in s.workers ==> w.id < g.n && w.j == 2 * g.p && w.pc == Test)
    && Staffed(g, s.workers)
    && |s.sem| == g.Locks() && (forall l :: 0 <= l < g.Locks() ==> s.sem[l] == 1)
    && s.mem == mem && |mem| == g.max / 8 + 1
  }

  // ---------- the tiles ----------

  // Worker id owns (2 + id) * p and every n * p-th number after it.
  predicate OnTile(g: Grid, id: nat, i: nat) {
    i >= (2 + id) * g.p && Divides(g.n * g.p, i - (2 + id) * g.p)
  }

  // The break test of invalidate_thread stops above MAX + 1, so some worker may write the
  // flag MAX + 1; its byte lies outside the array exactly when MAX % 8 is 7.
  predicate Overruns(g: Grid) {
    g.max % 8 == 7 && WrittenByLate(g, g.max + 1)
  }

  predicate WrittenByLate(g: Grid, i: nat) {
    exists id: nat :: 1 <= id < g.n && OnTile(g, id, i)
  }

  lemma TileStart(g: Grid, id: nat, c: nat)
    requires g.Valid() && id < g.n && c >= 2
    ensures OnTile(g, id, c * g.p) <==> id == (c - 2) % g.n
  {
    var a, b := (c - 2) / g.n, (c - 2) % g.n;
    assert c - 2 == g.n * a + b;
    var e := b - id;
    assert c * g.p - (2 + id) * g.p == (g.n * g.p) * a + g.p * e by {
      assert c == g.n * a + b + 2;
      assert (g.n * a) * g.p == (g.n * g.p) * a;
    }
    TileRemainder(g.n, g.p, a, e, c * g.p - (2 + id) * g.p);
  }

  lemma TileRemainder(n: nat, p: nat, a: nat, e: int, x: int)
    requires n > 0 && p > 0 && -(n as int) < e < n
    requires x == (n * p) * a + p * e
    ensures n * p > 0
    ensures x >= 0 && Divides(n * p, x) <==> e == 0
  {
    var m := n * p;
    MulLe(1, p, n);
    if e == 0 {
      MulLe(0, a, m);
      DividesIntro(m, a, x);
    } else if x >= 0 && Divides(m, x) {
      DividesElim(m, x);
      var y := x / m - a;
      assert m * y == p * e;
      MulLe(e, n - 1, p);
      MulLe(1 - n, e, p);
      assert p * (n - 1) == m - p && p * (1 - n) == p - m;
      if y >= 1 {
        MulLe(1, y, m);
      } else if y <= -1 {
        MulLe(y, -1, m);
      } else {
        assert m * y == 0;
        if e >= 1 { MulLe(1, e, p); } else { MulLe(e, -1, p); }
      }
    }
  }

  // The tiles of the workers partition the proper multiples of p.
  lemma TilesCover(g: Grid, i: nat)
    requires g.Valid()
    ensures ProperMultiple(g.p, i) <==> exists id: nat :: id < g.n && OnTile(g, id, i)
    ensures forall id: nat, id': nat :: id < g.n && id' < g.n && OnTile(g, id, i) && OnTile(g, id', i) ==> id == id'
  {
    if ProperMultiple(g.p, i) {
      DividesElim(g.p, i);
      var c := i / g.p;
      assert c * g.p == i;
      if c < 2 { MulLe(c, 1, g.p); }
      TileStart(g, (c - 2) % g.n, c);
    }
    forall id: nat | id < g.n && OnTile(g, id, i)
      ensures ProperMultiple(g.p, i) && id == (i / g.p - 2) % g.n
    {
      var k := (i - (2 + id) * g.p) / (g.n * g.p);
      DividesElim(g.n * g.p, i - (2 + id) * g.p);
      var c := 2 + id + g.n * k;
      assert i == c * g.p by {
        assert (g.n * g.p) * k == (g.n * k) * g.p;
        assert c * g.p == (2 + id) * g.p + (g.n * k) * g.p;
      }
      DividesIntro(g.p, c, i);
      MulLe(0, k, g.n);
      MulLe(2, c, g.p);
      TileStart(g, id, c);
    }
  }

  // A worker at j after any number of rounds works on its own tile.
  lemma TargetOnTile(g: Grid, w: Worker)
    requires g.Valid() && w.j >= 2 * g.p && Divides(g.n * g.p, w.j - 2 * g.p)
    ensures OnTile(g, w.id, w.Target(g))
  {
    assert (2 + w.id) * g.p == 2 * g.p + w.id * g.p;
  }

  // Between two rounds of a worker there is nothing of its tile.
  lemma TileGap(g: Grid, w: Worker, i: nat)
    requires g.Valid() && w.j >= 2 * g.p && Divides(g.n * g.p, w.j - 2 * g.p)
    requires OnTile(g, w.id, i)
    ensures g.n * g.p > 0
    ensures i < w.Target(g) + g.n * g.p <==> i <= w.Target(g)
  {
    TargetOnTile(g, w);
    var base := (2 + w.id) * g.p;
    if w.Target(g) < i < w.Target(g) + g.n * g.p {
      NoMultipleBetween(g.n * g.p, w.Target(g) - base, i - base);
    }
  }

  // ---------- the invariant ----------

  ghost predicate WorkerOk(g: Grid, w: Worker, size: nat)
    requires g.Valid()
  {
    && w.id < g.n
    && w.j >= 2 * g.p && Divides(g.n * g.p, w.j - 2 * g.p)
    && (w.Busy() ==> w.j <= g.max && w.Target(g) <= g.max + 1 && w.Target(g) / 8 < size)
    && (w.pc.Done? ==> w.j > g.max || w.Target(g) > g.max + 1)
  }

  ghost predicate Shape(g: Grid, s: State) {
    && g.Valid() && !Overruns(g)
    && |s.workers| == g.n && |s.sem| == g.Locks() && |s.mem| == g.max / 8 + 1
    && (forall u :: 0 <= u < g.n ==> WorkerOk(g, s.workers[u], |s.mem|))
    && Staffed(g, s.workers)
  }

  // A semaphore is zero exactly while one worker holds it.
  ghost predicate Exclusive(g: Grid, workers: seq<Worker>, sem: seq<nat>)
    requires g.Valid() && |sem| == g.Locks()
  {
    && (forall l :: 0 <= l < g.Locks() ==> sem[l] <= 1)
    && (forall u :: 0 <= u < |workers| && workers[u].Holding() ==> sem[workers[u].Lock(g)] == 0)
    && (forall u, v :: 0 <= u < v < |workers| && workers[u].Holding() && workers[v].Holding() ==>
          workers[u].Lock(g) != workers[v].Lock(g))
    && (forall l :: 0 <= l < g.Locks() && sem[l] == 0 ==> Held(g, workers, l))
  }

  ghost predicate Held(g: Grid, workers: seq<Worker>, l: nat)
    requires g.Valid()
  {
    exists u :: 0 <= u < |workers| && workers[u].Holding() && workers[u].Lock(g) == l
  }

  // Between its load and its store no worker's byte changes under it.
  ghost predicate Fresh(g: Grid, workers: seq<Worker>, mem: Bytes) {
    forall u :: 0 <= u < |workers| && workers[u].pc.Store? ==>
      var i := workers[u].Target(g) / 8;
      i < |mem| && workers[u].reg == mem[i]
  }

  // The flags a worker has cleared so far.
  ghost predicate ClearedBy(g: Grid, w: Worker, i: nat) {
    OnTile(g, w.id, i) && (i < w.Target(g) || (i == w.Target(g) && w.pc.Post?))
  }

  ghost predicate Cleared(g: Grid, s: State, i: nat) {
    exists u :: 0 <= u < |s.workers| && ClearedBy(g, s.workers[u], i)
  }

  // No update is lost: the array is the old one minus exactly what has been cleared.
  ghost predicate NoLoss(g: Grid, s: State, mem: Bytes)
    requires Shape(g, s)
  {
    && |mem| == |s.mem|
    && forall i: nat :: i / 8 < |mem| ==> (Marked(s.mem, i) <==> Marked(mem, i) && !Cleared(g, s, i))
  }

  ghost predicate Inv(g: Grid, s: State, mem: Bytes) {
    Shape(g, s) && Exclusive(g, s.workers, s.sem) && Fresh(g, s.workers, s.mem) && NoLoss(g, s, mem)
  }

  lemma InvInit(g: Grid, s: State, mem: Bytes)
    requires Init(g, s, mem) && !Overruns(g)
    ensures Inv(g, s, mem)
  {
    DividesIntro(g.n * g.p, 0, 0) by { MulLe(1, g.n, g.p); }
    forall u | 0 <= u < g.n
      ensures WorkerOk(g, s.workers[u], |s.mem|)
    {
      assert s.workers[u] in s.workers;
    }
    forall u, i: nat | 0 <= u < g.n
      ensures !ClearedBy(g, s.workers[u], i)
    {
      var w := s.workers[u];
      assert w in s.workers;
      assert (2 + w.id) * g.p == w.Target(g);
    }
  }

  // A worker that passes the two tests addresses a byte of the array.
  lemma PassedTests(g: Grid, w: Worker)
    requires g.Valid() && !Overruns(g) && w.id < g.n
    requires w.j >= 2 * g.p && Divides(g.n * g.p, w.j - 2 * g.p)
    requires w.j <= g.max && w.Target(g) <= g.max + 1
    ensures w.Target(g) / 8 < g.max / 8 + 1
  {
    if w.Target(g) == g.max + 1 {
      TargetOnTile(g, w);
      assert w.id >= 1;
    }
  }

  lemma WorkerStep(g: Grid, s: State, u: nat)
    requires Shape(g, s) && Accessible(g, s)
    requires u < g.n && CanMove(g, s.workers[u], s.sem)
    ensures WorkerOk(g, Step(g, s, u).workers[u], |s.mem|)
  {
    var w := s.workers[u];
    assert WorkerOk(g, w, |s.mem|);
    if w.pc.Test? && w.j <= g.max && w.Target(g) <= g.max + 1 {
      PassedTests(g, w);
    } else if w.pc.Post? {
      NextMultiple(g.n * g.p, w.j - 2 * g.p);
    }
  }

  lemma ShapeStep(g: Grid, s: State, u: nat)
    requires Shape(g, s) && Accessible(g, s)
    requires u < g.n && CanMove(g, s.workers[u], s.sem)
    ensures Shape(g, Step(g, s, u))
  {
    WorkerStep(g, s, u);
    var s' := Step(g, s, u);
    assert s'.workers == s.workers[u := s'.workers[u]];
    StaffedStep(g, s.workers, u, s'.workers[u]);
  }

  lemma StaffedStep(g: Grid, workers: seq<Worker>, u: nat, w: Worker)
    requires Staffed(g, workers) && u < |workers| && w.id == workers[u].id
    ensures Staffed(g, workers[u := w])
  {
    var workers' := workers[u := w];
    forall id: nat | id < g.n
      ensures HasWorker(workers', id)
    {
      assert HasWorker(workers, id);
      var v :| 0 <= v < |workers| && workers[v].id == id;
      assert workers'[v].id == id;
    }
  }

  // Taking a free semaphore keeps the locking discipline.
  lemma AcquireKeeps(g: Grid, workers: seq<Worker>, sem: seq<nat>, u: nat, w: Worker)
    requires g.Valid() && |sem| == g.Locks() && Exclusive(g, workers, sem)
    requires u < |workers| && w == workers[u].(pc := Load) && workers[u].pc.Wait?
    requires sem[w.Lock(g)] > 0
    ensures Exclusive(g, workers[u := w], sem[w.Lock(g) := sem[w.Lock(g)] - 1])
  {
    var workers' := workers[u := w];
    assert workers'[u].Holding() && workers'[u].Lock(g) == w.Lock(g);
    forall l | 0 <= l < g.Locks() && l != w.Lock(g) && sem[l] == 0
      ensures Held(g, workers', l)
    {
      var v :| 0 <= v < |workers| && workers[v].Holding() && workers[v].Lock(g) == l;
      assert workers'[v] == workers[v];
    }
  }

  lemma ReleaseKeeps(g: Grid, workers: seq<Worker>, sem: seq<nat>, u: nat, w: Worker)
    requires g.Valid() && |sem| == g.Locks() && Exclusive(g, workers, sem)
    requires u < |workers| && workers[u].pc.Post? && !w.Holding()
    ensures Exclusive(g, workers[u := w], sem[workers[u].Lock(g) := sem[workers[u].Lock(g)] + 1])
  {
    var workers', l' := workers[u := w], workers[u].Lock(g);
    forall l | 0 <= l < g.Locks() && l != l' && sem[l] == 0
      ensures Held(g, workers', l)
    {
      var v :| 0 <= v < |workers| && workers[v].Holding() && workers[v].Lock(g) == l;
      assert workers'[v] == workers[v];
    }
  }

  lemma OtherStepsKeep(g: Grid, workers: seq<Worker>, sem: seq<nat>, u: nat, w: Worker)
    requires g.Valid() && |sem| == g.Locks() && Exclusive(g, workers, sem)
    requires u < |workers| && w.id == workers[u].id && w.j == workers[u].j
    requires w.Holding() <==> workers[u].Holding()
    ensures Exclusive(g, workers[u := w], sem)
  {
    var workers' := workers[u := w];
    assert w.Lock(g) == workers[u].Lock(g);
    forall l | 0 <= l < g.Locks() && sem[l] == 0
      ensures Held(g, workers', l)
    {
      var v :| 0 <= v < |workers| && workers[v].Holding() && workers[v].Lock(g) == l;
      assert workers'[v].Holding() && workers'[v].Lock(g) == l;
    }
  }

  lemma ExclusiveStep(g: Grid, s: State, u: nat)
    requires Accessible(g, s) && Exclusive(g, s.workers, s.sem)
    requires u < |s.workers| && CanMove(g, s.workers[u], s.sem)
    ensures Exclusive(g, Step(g, s, u).workers, Step(g, s, u).sem)
  {
    var w' := Step(g, s, u).workers[u];
    match s.workers[u].pc
    case Wait => AcquireKeeps(g, s.workers, s.sem, u, w');
    case Post => ReleaseKeeps(g, s.workers, s.sem, u, w');
    case _ => OtherStepsKeep(g, s.workers, s.sem, u, w');
  }

  // The semaphore of the byte j + id * p falls in is the one a worker has taken between its
  // wait and its post; the value of each of the 4n semaphores is known from the workers.
  lemma SemaphoreValue(g: Grid, s: State, l: nat)
    requires g.Valid() && |s.sem| == 4 * g.n && Exclusive(g, s.workers, s.sem) && l < 4 * g.n
    ensures s.sem[l] == 0 <==>
      exists u :: && 0 <= u < |s.workers| && s.workers[u].pc in {Load, Store, Post}
                  && (s.workers[u].j + s.workers[u].id * g.p) / 8 % (4 * g.n) == l
    ensures s.sem[l] <= 1
  {
    if s.sem[l] == 0 {
      assert Held(g, s.workers, l);
    }
  }

  // Workers that address the same byte share a lock, so a store cannot hit a byte that
  // another worker has loaded.
  lemma FreshStep(g: Grid, s: State, u: nat)
    requires Accessible(g, s) && Exclusive(g, s.workers, s.sem) && Fresh(g, s.workers, s.mem)
    requires u < |s.workers| && CanMove(g, s.workers[u], s.sem)
    ensures Fresh(g, Step(g, s, u).workers, Step(g, s, u).mem)
  {
    var w, s' := s.workers[u], Step(g, s, u);
    forall v | 0 <= v < |s.workers| && s'.workers[v].pc.Store?
      ensures s'.workers[v].Target(g) / 8 < |s'.mem|
      ensures s'.workers[v].reg == s'.mem[s'.workers[v].Target(g) / 8]
    {
      if v != u && w.pc.Store? {
        assert w.Lock(g) != s.workers[v].Lock(g);
        assert w.Target(g) / 8 != s.workers[v].Target(g) / 8;
      }
    }
  }

  lemma ClearedStep(g: Grid, s: State, u: nat, i: nat)
    requires Shape(g, s) && Accessible(g, s)
    requires u < g.n && CanMove(g, s.workers[u], s.sem)
    ensures Cleared(g, Step(g, s, u), i) <==>
            Cleared(g, s, i) || (s.workers[u].pc.Store? && i == s.workers[u].Target(g))
  {
    var w, s' := s.workers[u], Step(g, s, u);
    var w' := s'.workers[u];
    assert WorkerOk(g, w, |s.mem|);
    assert ClearedBy(g, w', i) <==> ClearedBy(g, w, i) || (w.pc.Store? && i == w.Target(g)) by {
      TargetOnTile(g, w);
      if OnTile(g, w.id, i) {
        TileGap(g, w, i);
      }
    }
    assert forall v :: 0 <= v < g.n && v != u ==> s'.workers[v] == s.workers[v];
    if Cleared(g, s, i) {
      var v :| 0 <= v < g.n && ClearedBy(g, s.workers[v], i);
      assert ClearedBy(g, s'.workers[v], i);
    }
  }

  lemma NoLossStep(g: Grid, s: State, u: nat, mem: Bytes)
    requires Inv(g, s, mem) && Accessible(g, s)
    requires u < g.n && CanMove(g, s.workers[u], s.sem)
    ensures Shape(g, Step(g, s, u)) && NoLoss(g, Step(g, s, u), mem)
  {
    ShapeStep(g, s, u);
    var w, s' := s.workers[u], Step(g, s, u);
    if w.pc.Store? {
      assert s'.mem == WithFlag(s.mem, w.Target(g), false);
      WithFlagMarks(s.mem, w.Target(g), false);
    } else {
      assert s'.mem == s.mem;
    }
    forall i: nat | i / 8 < |mem|
      ensures Marked(s'.mem, i) <==> Marked(mem, i) && !Cleared(g, s', i)
    {
      ClearedStep(g, s, u, i);
    }
  }

  // Every step of every worker keeps the invariant.
  lemma InvStep(g: Grid, s: State, u: nat, mem: Bytes)
    requires Inv(g, s, mem)
    requires u < g.n && CanMove(g, s.workers[u], s.sem)
    ensures Accessible(g, s) && Inv(g, Step(g, s, u), mem)
  {
    InvAccessible(g, s, mem);
    ExclusiveStep(g, s, u);
    FreshStep(g, s, u);
    NoLossStep(g, s, u, mem);
  }

  lemma InvAccessible(g: Grid, s: State, mem: Bytes)
    requires Inv(g, s, mem)
    ensures Accessible(g, s)
  {
    forall w | w in s.workers && w.Busy()
      ensures w.Target(g) / 8 < |s.mem|
    {
      var u :| 0 <= u < g.n && s.workers[u] == w;
      assert WorkerOk(g, s.workers[u], |s.mem|);
    }
  }

  // ---------- progress ----------

  predicate AllDone(workers: seq<Worker>) {
    forall w :: w in workers ==> w.pc.Done?
  }

  // No deadlock: while a worker is left, some worker can move.
  lemma SomeoneMoves(g: Grid, s: State, mem: Bytes) returns (u: nat)
    requires Inv(g, s, mem) && !AllDone(s.workers)
    ensures u < g.n && CanMove(g, s.workers[u], s.sem)
  {
    var w :| w in s.workers && !w.pc.Done?;
    u :| u < g.n && s.workers[u] == w;
    if w.pc.Wait? && s.sem[w.Lock(g)] == 0 {
      assert Held(g, s.workers, w.Lock(g));
      u :| 0 <= u < g.n && s.workers[u].Holding() && s.workers[u].Lock(g) == w.Lock(g);
    }
  }

  // Steps a worker has left before it exits, at most.
  function Work(g: Grid, w: Worker): nat {
    var left := if w.j <= g.max then 6 * (g.max + 1 - w.j) else 0;
    match w.pc
    case Test => left + 5
    case Wait => left + 4
    case Load => left + 3
    case Store => left + 2
    case Post => left + 1
    case Done => 0
  }

  function TotalWork(g: Grid, workers: seq<Worker>): nat {
    if workers == [] then 0 else Work(g, workers[0]) + TotalWork(g, workers[1..])
  }

  lemma {:induction false} TotalWorkUpdate(g: Grid, workers: seq<Worker>, u: nat, w: Worker)
    requires u < |workers| && Work(g, w) < Work(g, workers[u])
    ensures TotalWork(g, workers[u := w]) < TotalWork(g, workers)
  {
    if u == 0 {
      assert workers[u := w][1..] == workers[1..];
    } else {
      assert workers[u := w][1..] == workers[1..][u - 1 := w];
      TotalWorkUpdate(g, workers[1..], u - 1, w);
    }
  }

  // Every step uses up work, so every interleaving ends.
  lemma WorkDecreases(g: Grid, s: State, u: nat, mem: Bytes)
    requires Inv(g, s, mem) && Accessible(g, s)
    requires u < g.n && CanMove(g, s.workers[u], s.sem)
    ensures TotalWork(g, Step(g, s, u).workers) < TotalWork(g, s.workers)
  {
    var w := s.workers[u];
    assert WorkerOk(g, w, |s.mem|);
    MulLe(1, g.n, g.p);
    var w' := Step(g, s, u).workers[u];
    TotalWorkUpdate(g, s.workers, u, w');
    assert Step(g, s, u).workers == s.workers[u := w'];
  }

  // When the last worker has exited, exactly the proper multiples of p are gone.
  lemma RoundResult(g: Grid, s: State, mem: Bytes)
    requires Inv(g, s, mem) && AllDone(s.workers)
    ensures forall i: nat :: i <= g.max ==> (Marked(s.mem, i) <==> Marked(mem, i) && !ProperMultiple(g.p, i))
    ensures forall l :: 0 <= l < g.Locks() ==> s.sem[l] == 1
  {
    forall i: nat | i <= g.max
      ensures Cleared(g, s, i) <==> ProperMultiple(g.p, i)
    {
      AllCleared(g, s, i);
    }
    forall u | 0 <= u < g.n
      ensures !s.workers[u].Holding()
    {
      assert s.workers[u] in s.workers;
    }
  }

  // A worker that has exited is past every flag of its tile.
  lemma TileFinished(g: Grid, w: Worker, i: nat)
    requires g.Valid() && i <= g.max
    requires w.j > g.max || w.Target(g) > g.max + 1
    ensures i < w.Target(g)
  {
    MulLe(0, w.id, g.p);
  }

  lemma AllCleared(g: Grid, s: State, i: nat)
    requires Shape(g, s) && AllDone(s.workers) && i <= g.max
    ensures Cleared(g, s, i) <==> ProperMultiple(g.p, i)
  {
    TilesCover(g, i);
    forall u | 0 <= u < g.n
      ensures ClearedBy(g, s.workers[u], i) <==> OnTile(g, s.workers[u].id, i)
      ensures s.workers[u].id < g.n
    {
      assert WorkerOk(g, s.workers[u], |s.mem|) && s.workers[u] in s.workers;
      TileFinished(g, s.workers[u], i);
    }
    if ProperMultiple(g.p, i) {
      var id: nat :| id < g.n && OnTile(g, id, i);
      assert HasWorker(s.workers, id);
      var u :| 0 <= u < g.n && s.workers[u].id == id;
      assert ClearedBy(g, s.workers[u], i);
    }
  }

  // ---------- whole runs ----------

  // Each move names the worker that the scheduler lets run next.
  ghost predicate IsRun(g: Grid, states: seq<State>, moves: seq<nat>) {
    && |states| == |moves| + 1
    && forall k :: 0 <= k < |moves| ==>
         && Accessible(g, states[k])
         && moves[k] < |states[k].workers| && CanMove(g, states[k].workers[moves[k]], states[k].sem)
         && states[k + 1] == Step(g, states[k], moves[k])
  }

  // In every interleaving: no update is lost at any moment, the run is no longer than the
  // work it started with, and where nobody can move any more the round is complete.
  lemma {:induction false} EveryRun(g: Grid, states: seq<State>, moves: seq<nat>, mem: Bytes)
    requires IsRun(g, states, moves)
    requires Init(g, states[0], mem) && !Overruns(g)
    ensures Inv(g, states[|moves|], mem)
    ensures |moves| + TotalWork(g, states[|moves|].workers) <= TotalWork(g, states[0].workers)
    ensures (forall u: nat :: u < g.n ==> !CanMove(g, states[|moves|].workers[u], states[|moves|].sem)) ==>
      forall i: nat :: i <= g.max ==>
        (Marked(states[|moves|].mem, i) <==> Marked(mem, i) && !ProperMultiple(g.p, i))
  {
    var last := |moves|;
    if last == 0 {
      InvInit(g, states[0], mem);
    } else {
      EveryRun(g, states[..last], moves[..last - 1], mem);
      InvStep(g, states[last - 1], moves[last - 1], mem);
      WorkDecreases(g, states[last - 1], moves[last - 1], mem);
    }
    if AllDone(states[last].workers) {
      RoundResult(g, states[last], mem);
    } else {
      var u := SomeoneMoves(g, states[last], mem);
    }
  }

  // With MAX and NUM_THREADS below 2^32, no number a round or the outer loop forms wraps
  // around in 64 bits: neither the two sums of a worker nor the square of the next prime.
  lemma NoWrapAround(g: Grid, w: Worker, q: nat)
    requires g.Valid() && g.max < 0x1_0000_0000 && g.n < 0x1_0000_0000
    requires g.p * g.p <= g.max && w.j <= g.max && w.id < g.n && q <= g.max
    ensures w.Target(g) < 0x1_0000_0000_0000_0000
    ensures w.j + g.n * g.p < 0x1_0000_0000_0000_0000
    ensures q * q < 0x1_0000_0000_0000_0000
  {
    if g.p >= 0x1_0000 {
      MulLe(0x1_0000, g.p, g.p);
    }
    MulLe(w.id, g.n, g.p);
    MulLe(g.p, 0x1_0000, g.n);
    MulLe(q, 0xFFFF_FFFF, q);
  }

  // ---------- runs that leave the array ----------

  // A run from s0 after which some worker is about to address a byte outside the array.
  ghost predicate LeavesArray(g: Grid, s0: State, states: seq<State>, moves: seq<nat>) {
    IsRun(g, states, moves) && states[0] == s0 && !Accessible(g, states[|moves|])
  }

  // Every worker is at its test, every lock is free, and worker u works on tile id.
  ghost predicate Resting(g: Grid, s: State, u: nat, id: nat) {
    && g.Valid() && u < |s.workers|
    && (forall w :: w in s.workers ==> w.pc == Test)
    && |s.sem| == g.Locks() && (forall l :: 0 <= l < g.Locks() ==> s.sem[l] == 1)
    && |s.mem| == g.max / 8 + 1
    && s.workers[u].id == id && s.workers[u].j >= 2 * g.p
    && Divides(g.n * g.p, s.workers[u].j - 2 * g.p)
  }

  lemma RunOn(g: Grid, states: seq<State>, moves: seq<nat>, u: nat)
    requires IsRun(g, states, moves) && Accessible(g, states[|moves|])
    requires u < |states[|moves|].workers| && CanMove(g, states[|moves|].workers[u], states[|moves|].sem)
    ensures IsRun(g, states + [Step(g, states[|moves|], u)], moves + [u])
  {
    hide Accessible, Step, CanMove;
  }

  // In the middle of a turn of worker u alone, at pc; s is the state when it began.
  ghost predicate MidTurn(g: Grid, s: State, t: State, u: nat, pc: Pc) {
    && g.Valid() && u < |s.workers| && |s.sem| == g.Locks()
    && |t.workers| == |s.workers| && t.workers == s.workers[u := s.workers[u].(pc := pc, reg := t.workers[u].reg)]
    && t.sem == (if pc.Test? || pc.Wait? then s.sem else s.sem[s.workers[u].Lock(g) := 0])
    && |t.mem| == |s.mem|
  }

  // What a whole turn makes of the state.
  ghost predicate Turned(g: Grid, s: State, t: State, u: nat) {
    && u < |s.workers| && t.sem == s.sem && |t.mem| == |s.mem| && |t.workers| == |s.workers|
    && t.workers == s.workers[u := t.workers[u]]
    && t.workers[u].id == s.workers[u].id && t.workers[u].pc == Test
    && t.workers[u].j == s.workers[u].j + g.n * g.p
  }

  ghost predicate MayTurn(g: Grid, s: State, u: nat) {
    && g.Valid() && u < |s.workers| && |s.sem| == g.Locks()
    && (forall v :: 0 <= v < |s.workers| ==> s.workers[v].pc == Test)
    && s.sem[s.workers[u].Lock(g)] == 1
    && s.workers[u].j <= g.max && s.workers[u].Target(g) <= g.max && |s.mem| == g.max / 8 + 1
  }

  // What the next move of the turn leads to.
  ghost predicate Moved(g: Grid, s: State, t: State, u: nat, pc: Pc) {
    match pc
    case Test => MidTurn(g, s, t, u, Wait)
    case Wait => MidTurn(g, s, t, u, Load)
    case Load => MidTurn(g, s, t, u, Store)
    case Store => MidTurn(g, s, t, u, Post)
    case Post => Turned(g, s, t, u)
    case Done => false
  }

  lemma TurnMoves(g: Grid, s: State, t: State, u: nat, pc: Pc)
    requires MayTurn(g, s, u) && MidTurn(g, s, t, u, pc) && !pc.Done?
    ensures u < |t.workers| && Accessible(g, t) && CanMove(g, t.workers[u], t.sem)
    ensures Moved(g, s, Step(g, t, u), u, pc)
  {
    var w := s.workers[u];
    assert t.workers[u].Target(g) == w.Target(g) && t.workers[u].Lock(g) == w.Lock(g);
    if pc.Post? {
      assert t.sem[w.Lock(g) := 1] == s.sem;
    }
  }

  lemma NextMove(g: Grid, s: State, states: seq<State>, moves: seq<nat>, u: nat, pc: Pc)
    returns (states': seq<State>, moves': seq<nat>)
    requires |states| == |moves| + 1 && IsRun(g, states, moves) && MayTurn(g, s, u)
    requires MidTurn(g, s, states[|moves|], u, pc) && !pc.Done?
    ensures |states'| == |moves'| + 1 && IsRun(g, states', moves') && states'[0] == states[0]
    ensures Moved(g, s, states'[|moves'|], u, pc)
  {
    hide IsRun, MidTurn, MayTurn, Turned, Moved, Accessible, CanMove, Step;
    var t := states[|moves|];
    TurnMoves(g, s, t, u, pc);
    RunOn(g, states, moves, u);
    states', moves' := states + [Step(g, t, u)], moves + [u];
  }

  // A turn of five moves by worker u, appended to a run.
  lemma TurnAlone(g: Grid, states: seq<State>, moves: seq<nat>, u: nat)
    returns (states': seq<State>, moves': seq<nat>)
    requires |states| == |moves| + 1 && IsRun(g, states, moves) && MayTurn(g, states[|moves|], u)
    ensures |states'| == |moves'| + 1 && IsRun(g, states', moves') && states'[0] == states[0]
    ensures Turned(g, states[|moves|], states'[|moves'|], u)
  {
    hide IsRun, MidTurn, MayTurn, Turned;
    var s := states[|moves|];
    TurnBegins(g, s, u);
    states', moves' := NextMove(g, s, states, moves, u, Test);
    states', moves' := NextMove(g, s, states', moves', u, Wait);
    states', moves' := NextMove(g, s, states', moves', u, Load);
    states', moves' := NextMove(g, s, states', moves', u, Store);
    states', moves' := NextMove(g, s, states', moves', u, Post);
  }

  lemma TurnBegins(g: Grid, s: State, u: nat)
    requires MayTurn(g, s, u)
    ensures MidTurn(g, s, s, u, Test)
  {
    assert s.workers == s.workers[u := s.workers[u]];
  }

  lemma TurnedRests(g: Grid, s: State, t: State, u: nat, id: nat)
    requires Resting(g, s, u, id) && Turned(g, s, t, u)
    ensures Resting(g, t, u, id)
  {
    NextMultiple(g.n * g.p, s.workers[u].j - 2 * g.p);
    assert t.workers[u].j - 2 * g.p == s.workers[u].j - 2 * g.p + g.n * g.p;
    assert forall v :: 0 <= v < |s.workers| ==> s.workers[v] in s.workers;
  }

  // The worker of a tile that holds MAX + 1 is at that flag, or may take another turn that
  // brings it nearer.
  lemma NotYetLast(g: Grid, s: State, u: nat, id: nat)
    requires Resting(g, s, u, id) && 1 <= id && OnTile(g, id, g.max + 1)
    requires s.workers[u].Target(g) <= g.max + 1
    ensures s.workers[u].j <= g.max
    ensures s.workers[u].Target(g) <= g.max ==>
      MayTurn(g, s, u) && g.n * g.p > 0 && s.workers[u].Target(g) + g.n * g.p <= g.max + 1
  {
    var w := s.workers[u];
    MulLe(1, id, g.p);
    if w.Target(g) <= g.max {
      TileGap(g, w, g.max + 1);
      assert forall v :: 0 <= v < |s.workers| ==> s.workers[v] in s.workers;
    }
  }

  // The break test lets the worker past although its flag is MAX + 1.
  lemma LastTest(g: Grid, s: State, u: nat, id: nat)
    requires Resting(g, s, u, id) && g.max % 8 == 7
    requires s.workers[u].Target(g) == g.max + 1 && s.workers[u].j <= g.max
    ensures Accessible(g, s) && CanMove(g, s.workers[u], s.sem) && !Accessible(g, Step(g, s, u))
  {
    var t := Step(g, s, u);
    assert t.workers[u] in t.workers && t.workers[u].Busy();
  }

  lemma {:induction false} AloneToTheEnd(g: Grid, states: seq<State>, moves: seq<nat>, u: nat, id: nat)
    returns (states': seq<State>, moves': seq<nat>)
    requires |states| == |moves| + 1 && IsRun(g, states, moves) && Resting(g, states[|moves|], u, id)
    requires g.max % 8 == 7 && 1 <= id && OnTile(g, id, g.max + 1)
    requires states[|moves|].workers[u].Target(g) <= g.max + 1
    ensures LeavesArray(g, states[0], states', moves')
    decreases g.max + 1 - states[|moves|].workers[u].Target(g)
  {
    var s := states[|moves|];
    NotYetLast(g, s, u, id);
    if s.workers[u].Target(g) == g.max + 1 {
      LastTest(g, s, u, id);
      RunOn(g, states, moves, u);
      states', moves' := states + [Step(g, s, u)], moves + [u];
    } else {
      hide OnTile, Resting, MayTurn, IsRun;
      states', moves' := TurnAlone(g, states, moves, u);
      TurnedRests(g, s, states'[|moves'|], u, id);
      states', moves' := AloneToTheEnd(g, states', moves', u, id);
    }
  }

  // If a tile holds MAX + 1 and MAX % 8 is 7, the worker of that tile, let run alone, comes
  // to write outside the array.
  lemma OverrunReached(g: Grid, s0: State, mem: Bytes) returns (states: seq<State>, moves: seq<nat>)
    requires Init(g, s0, mem) && Overruns(g)
    ensures LeavesArray(g, s0, states, moves)
  {
    var id: nat :| 1 <= id < g.n && OnTile(g, id, g.max + 1);
    assert HasWorker(s0.workers, id);
    var u: nat :| u < |s0.workers| && s0.workers[u].id == id;
    assert s0.workers[u] in s0.workers;
    MulLe(1, g.n, g.p);
    DividesIntro(g.n * g.p, 0, 0);
    assert (2 + id) * g.p == s0.workers[u].Target(g);
    states, moves := AloneToTheEnd(g, [s0], [], u, id);
  }

  // Exactly then some run leaves the array.
  lemma OverrunsExactly(g: Grid, s0: State, mem: Bytes)
    requires Init(g, s0, mem)
    ensures Overruns(g) <==> exists states, moves :: LeavesArray(g, s0, states, moves)
  {
    if Overruns(g) {
      var states, moves := OverrunReached(g, s0, mem);
    } else {
      forall states, moves ensures !LeavesArray(g, s0, states, moves) {
        if IsRun(g, states, moves) && states[0] == s0 {
          EveryRun(g, states, moves, mem);
          InvAccessible(g, states[|moves|], mem);
        }
      }
    }
  }

  // As compiled, with four threads, some run of the round for 2 leaves the array exactly
  // when MAX % 8 is 7; the values of MAX in the two programs are multiples of 8.
  lemma OverrunWithFourThreads(max: nat, s0: State, mem: Bytes)
    requires Init(Grid(max, 4, 2), s0, mem)
    ensures max % 8 == 7 <==> exists states, moves :: LeavesArray(Grid(max, 4, 2), s0, states, moves)
  {
    if max % 8 == 7 {
      assert OnTile(Grid(max, 4, 2), 2, max + 1);
    }
    OverrunsExactly(Grid(max, 4, 2), s0, mem);
  }
}
