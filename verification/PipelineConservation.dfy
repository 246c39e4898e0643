/** Buffers of the synchronome are neither lost nor duplicated, in every interleaving. */
module PipelineConservation {
  import opened Images
  import opened TickDetection
  import opened Pipeline

  lemma {:induction false} IndicesOnce(n: nat, x: nat)
    ensures multiset(Indices(n))[x] == if x < n then 1 else 0
  {
    if n > 0 {
      IndicesOnce(n - 1, x);
    }
  }

  lemma IndicesAreOnce(n: nat)
    ensures Once(multiset(Indices(n)), n)
  {
    forall id: nat ensures multiset(Indices(n))[id] == if id < n then 1 else 0 {
      IndicesOnce(n, id);
    }
  }

  lemma OnceSize(m: multiset<nat>, n: nat)
    requires Once(m, n)
    ensures |m| == n
  {
    IndicesAreOnce(n);
    assert m == multiset(Indices(n));
  }

  lemma OnceIsDistinct(q: seq<nat>, i: nat, j: nat)
    requires i < j < |q| && multiset(q)[q[i]] <= 1
    ensures q[i] != q[j]
  {
    assert q == q[..i] + [q[i]] + q[i + 1..j] + [q[j]] + q[j + 1..];
  }

  lemma {:induction false} PoolIds(n: nat)
    requires n <= NUM_BUFFERS
    ensures Pooled(PoolHandles(n)) && Ids(PoolHandles(n)) == Indices(n)
  {
    if n > 0 {
      PoolIds(n - 1);
      assert PoolHandles(n) == PoolHandles(n - 1) + [Handle(n - 1, 0, false)];
      assert Ids(PoolHandles(n)) == Ids(PoolHandles(n - 1)) + [n - 1];
    }
  }

  lemma ConservedInit(cfg: Config, s: State)
    requires Initial(cfg, s)
    ensures Conserved(cfg, s)
  {
    hide PoolHandles, Indices;
    PoolIds(NUM_BUFFERS);
    IndicesAreOnce(NUM_BUFFERS);
    IndicesAreOnce(cfg.buffers);
    assert AllHandles(s) == PoolHandles(NUM_BUFFERS);
    assert Flight(s) == [];
  }

  lemma IdsOfSum(a: seq<Handle>, b: seq<Handle>)
    ensures Pooled(a + b) <==> Pooled(a) && Pooled(b)
    ensures Pooled(a) && Pooled(b) ==> Ids(a + b) == Ids(a) + Ids(b)
  {
    forall i | 0 <= i < |a| && Pooled(a + b) ensures InPool(a[i]) {
      assert (a + b)[i] == a[i];
    }
    forall i | 0 <= i < |b| && Pooled(a + b) ensures InPool(b[i]) {
      assert (a + b)[|a| + i] == b[i];
    }
  }

  // The same buffers in another order, with other sizes and marks.
  ghost predicate SameBuffers(a: seq<Handle>, b: seq<Handle>) {
    Pooled(a) ==> Pooled(b) && multiset(Ids(a)) == multiset(Ids(b))
  }

  lemma MovedToEnd(h: Handle, b: seq<Handle>, h': Handle)
    requires h.Handle? && h'.Handle? && h.id == h'.id && h'.size == h.size
    ensures SameBuffers([h] + b, b + [h'])
  {
    if Pooled([h] + b) {
      IdsOfSum([h], b);
      IdsOfSum(b, [h']);
      assert InPool([h][0]);
    }
  }

  lemma Altered(a: seq<Handle>, h: Handle, b: seq<Handle>, h': Handle)
    requires h.Handle? && h'.Handle? && h.id == h'.id && h'.size <= BUFFER_SIZE
    ensures SameBuffers(a + [h] + b, a + [h'] + b)
  {
    if Pooled(a + [h] + b) {
      IdsOfSum(a + [h], b);
      IdsOfSum(a, [h]);
      IdsOfSum(a + [h'], b);
      IdsOfSum(a, [h']);
      assert InPool([h][0]);
      assert Ids([h]) == Ids([h']);
    }
  }

  // Most steps move a buffer from the end of one place to the start of the next.
  lemma QuietHandles(cfg: Config, s: State, a: Action)
    requires Enabled(cfg, s, a) && !a.ConvertFrame? && !a.Decide? && !a.GiveBack?
    ensures AllHandles(Step(cfg, s, a)) == AllHandles(s)
  {
    hide Convert, Painted, Decided, Picture, InPool, MemoryValid, Consistent, Returned;
    var t := Step(cfg, s, a);
    match a
    case Allocate =>
      assert Fresh(t) + t.detector.available == Fresh(s) + s.detector.available;
    case Requeue => assert InHand(t) == InHand(s);
    case Forward => assert Line(t) == Line(s);
    case Take => assert Downstream(t) == Downstream(s);
    case Save => assert Downstream(t) == Downstream(s);
    case _ =>
  }

  lemma ConvertHandles(cfg: Config, s: State)
    requires Enabled(cfg, s, ConvertFrame)
    ensures SameBuffers(AllHandles(s), AllHandles(Step(cfg, s, ConvertFrame)))
  {
    hide SameBuffers, Painted, Convert;
    var t := Step(cfg, s, ConvertFrame);
    var rest := s.detector.available + Line(s);
    Altered([], s.worker.rgb, rest, t.worker.rgb);
    assert AllHandles(s) == [] + [s.worker.rgb] + rest;
    assert AllHandles(t) == [] + [t.worker.rgb] + rest;
  }

  lemma DecideHandles(cfg: Config, s: State)
    requires Enabled(cfg, s, Decide)
    ensures SameBuffers(AllHandles(s), AllHandles(Step(cfg, s, Decide)))
  {
    hide SameBuffers;
    var t := Step(cfg, s, Decide);
    var rgb := s.worker.rgb;
    if t.exit == Running {
      MovedToEnd(rgb, s.detector.available + Line(s), t.detector.oldImage);
      assert AllHandles(s) == [rgb] + (s.detector.available + Line(s));
      assert Line(t) == Line(s) + [t.detector.oldImage];
      assert AllHandles(t) == s.detector.available + Line(s) + [t.detector.oldImage];
    } else {
      Unchanged(AllHandles(s));
    }
  }

  lemma Unchanged(hs: seq<Handle>)
    ensures SameBuffers(hs, hs)
  {
  }

  lemma SaverHolds(s: State)
    requires Pooled(AllHandles(s)) && (s.saver.Holding? || s.saver.Processed?)
    ensures InPool(s.saver.h)
  {
    assert AllHandles(s)[|Fresh(s) + s.detector.available|] == s.saver.h;
  }

  lemma GiveBackLine(cfg: Config, s: State)
    requires Enabled(cfg, s, GiveBack)
    ensures Line(s) == [s.saver.h] + Line(Step(cfg, s, GiveBack))
  {
    hide Returned;
  }

  lemma GiveBackHandles(cfg: Config, s: State)
    requires Enabled(cfg, s, GiveBack) && InPool(s.saver.h)
    ensures SameBuffers(AllHandles(s), AllHandles(Step(cfg, s, GiveBack)))
  {
    hide SameBuffers, Line;
    GiveBackLine(cfg, s);
    var t := Step(cfg, s, GiveBack);
    var h, before := s.saver.h, Fresh(s) + s.detector.available;
    Altered(before, h, Line(t), h.(isTick := false));
    assert AllHandles(s) == before + [h] + Line(t);
    assert AllHandles(t) == before + [h.(isTick := false)] + Line(t);
  }

  lemma HandlesStep(cfg: Config, s: State, a: Action)
    requires Pooled(AllHandles(s)) && Enabled(cfg, s, a)
    ensures SameBuffers(AllHandles(s), AllHandles(Step(cfg, s, a)))
  {
    hide Step, AllHandles;
    match a
    case ConvertFrame => ConvertHandles(cfg, s);
    case Decide => DecideHandles(cfg, s);
    case GiveBack => SaverHolds(s); GiveBackHandles(cfg, s);
    case _ => QuietHandles(cfg, s, a); Unchanged(AllHandles(s));
  }

  lemma QuietFlight(cfg: Config, s: State, a: Action)
    requires Enabled(cfg, s, a) && !a.Dequeue? && !a.Requeue?
    ensures Flight(Step(cfg, s, a)) == Flight(s)
  {
    hide Convert, Painted, Decided, Picture, InPool, MemoryValid, Consistent, Returned;
    match a
    case SendFrame => assert Flight(Step(cfg, s, a)) == Flight(s);
    case ReceiveFrame => assert Flight(Step(cfg, s, a)) == Flight(s);
    case _ =>
  }

  lemma DequeueFlight(cfg: Config, s: State, i: nat)
    requires Enabled(cfg, s, Dequeue(i))
    ensures Flight(Step(cfg, s, Dequeue(i))) == Flight(s) + [i]
  {
  }

  lemma RequeueFlight(cfg: Config, s: State)
    requires Enabled(cfg, s, Requeue)
    ensures Flight(s) == [s.worker.index] + Flight(Step(cfg, s, Requeue))
  {
  }

  // Frame buffers leave the driver at one end of the flight and return to it at the other.
  lemma FlightStep(cfg: Config, s: State, a: Action)
    requires Enabled(cfg, s, a)
    ensures var t := Step(cfg, s, a); t.driver + multiset(Flight(t)) == s.driver + multiset(Flight(s))
  {
    hide Convert, Painted, Decided, Picture, InPool, MemoryValid, Consistent, Returned, Flight;
    var t := Step(cfg, s, a);
    match a
    case Dequeue(i) => DequeueFlight(cfg, s, i);
    case Requeue => RequeueFlight(cfg, s);
    case _ => QuietFlight(cfg, s, a);
  }

  lemma ConservedStep(cfg: Config, s: State, a: Action)
    requires Conserved(cfg, s) && Enabled(cfg, s, a)
    ensures Conserved(cfg, Step(cfg, s, a))
  {
    hide Step, AllHandles, Enabled, Flight;
    HandlesStep(cfg, s, a);
    FlightStep(cfg, s, a);
  }

  // ---------- what conservation gives ----------

  // The handle at one place of the list and the handle at another are different buffers.
  ghost predicate Apart(hs: seq<Handle>, i: nat, j: nat) {
    i < j < |hs| && hs[i].Handle? && hs[j].Handle? ==> hs[i].id != hs[j].id
  }

  lemma ListApart(hs: seq<Handle>, n: nat, i: nat, j: nat)
    requires Pooled(hs) && Once(multiset(Ids(hs)), n)
    ensures |hs| == n && Apart(hs, i, j)
  {
    var ids := Ids(hs);
    OnceSize(multiset(ids), n);
    if i < j < |ids| {
      assert ids[i] == hs[i].id && ids[j] == hs[j].id;
      OnceIsDistinct(ids, i, j);
    }
  }

  lemma AllApart(cfg: Config, s: State, i: nat, j: nat)
    requires Conserved(cfg, s)
    ensures Pooled(AllHandles(s)) && |AllHandles(s)| == 20 && Apart(AllHandles(s), i, j)
  {
    ListApart(AllHandles(s), NUM_BUFFERS, i, j);
    hide AllHandles, Apart;
  }

  lemma PoolBound(cfg: Config, s: State)
    requires Conserved(cfg, s)
    ensures |s.detector.available| <= NUM_BUFFERS
  {
    hide Conserved, Apart, Fresh, Line;
    AllApart(cfg, s, 0, 0);
  }

  lemma PoolExit(cfg: Config, s: State, a: Action)
    requires s.exit != PoolTooLarge && Enabled(cfg, s, a) && |Step(cfg, s, a).detector.available| <= NUM_BUFFERS
    ensures Step(cfg, s, a).exit != PoolTooLarge
  {
    hide Decided, Convert, Picture, Painted, InPool, MemoryValid, Consistent, Returned;
  }

  // Giving a buffer back ends the process exactly if the pool has grown too large.
  lemma GiveBackExit(cfg: Config, s: State)
    requires Enabled(cfg, s, GiveBack)
    ensures Step(cfg, s, GiveBack).exit == PoolTooLarge <==> |Step(cfg, s, GiveBack).detector.available| > 20
  {
  }

  // The pool cannot grow too large, so giving a buffer back never ends the process.
  lemma PoolFits(cfg: Config, s: State, a: Action)
    requires Conserved(cfg, s) && s.exit != PoolTooLarge && Enabled(cfg, s, a)
    ensures Step(cfg, s, a).exit != PoolTooLarge && |Step(cfg, s, a).detector.available| <= 20
  {
    hide Conserved, Step, Enabled;
    ConservedStep(cfg, s, a);
    PoolBound(cfg, Step(cfg, s, a));
    PoolExit(cfg, s, a);
  }

  // A sender with an image in hand finds at most eighteen in the queue of forty, so it
  // never waits.
  lemma ForwardNeverBlocks(cfg: Config, s: State)
    requires Conserved(cfg, s) && s.worker.Forwarding? && s.detector.count > 0
    ensures |s.tickQueue| <= 18
    ensures s.exit == Running ==> Enabled(cfg, s, Forward)
  {
    AllApart(cfg, s, 0, 0);
  }

  lemma NoneAvailable(cfg: Config, s: State)
    requires Conserved(cfg, s) && s.worker.Got?
    ensures s.detector.available == [] <==> |Downstream(s)| == NUM_BUFFERS - if s.detector.count > 0 then 1 else 0
  {
    AllApart(cfg, s, 0, 0);
    hide Conserved, Apart, Downstream;
  }

  // An allocation fails exactly when all buffers but that of the old image are on their
  // way to the saver or with it.
  lemma AllocationFails(cfg: Config, s: State)
    requires Conserved(cfg, s) && Enabled(cfg, s, Allocate)
    ensures Step(cfg, s, Allocate).exit == OutOfBuffers
      <==> |Downstream(s)| == 20 - if s.detector.count > 0 then 1 else 0
  {
    NoneAvailable(cfg, s);
    AllocateExit(cfg, s);
    hide Conserved, Downstream, Step, Enabled;
  }

  lemma AllocateExit(cfg: Config, s: State)
    requires Enabled(cfg, s, Allocate)
    ensures Step(cfg, s, Allocate).exit == OutOfBuffers <==> s.detector.available == []
  {
  }

  // The camera waits for room in its queue only if the driver granted more than forty
  // buffers.
  lemma CameraNeverBlocks(cfg: Config, s: State)
    requires Conserved(cfg, s) && s.camera.Sending? && cfg.buffers <= 40
    ensures |s.cameraQueue| < 40
    ensures s.exit == Running ==> Enabled(cfg, s, SendFrame)
  {
    OnceSize(s.driver + multiset(Flight(s)), cfg.buffers);
    assert |multiset(Flight(s))| == |Flight(s)|;
  }

  // No frame buffer is queued with the driver twice, or queued while a message names it.
  lemma QueuedOnce(cfg: Config, s: State, index: nat)
    requires Conserved(cfg, s)
    ensures s.driver[index] + multiset(Flight(s))[index] == if index < cfg.buffers then 1 else 0
    ensures s.worker.Finished? && s.worker.index == index ==> index !in s.driver
    ensures s.camera.Sending? && s.camera.index == index ==> index !in s.driver
    ensures index in s.cameraQueue ==> index !in s.driver
  {
    assert (s.driver + multiset(Flight(s)))[index] == s.driver[index] + multiset(Flight(s))[index];
    if s.worker.Finished? && s.worker.index == index {
      assert Flight(s)[0] == index;
      assert index in multiset(Flight(s));
    }
    if s.camera.Sending? && s.camera.index == index {
      assert Flight(s)[|Flight(s)| - 1] == index;
      assert index in multiset(Flight(s));
    }
    if index in s.cameraQueue {
      assert index in Flight(s);
      assert index in multiset(Flight(s));
    }
  }
}
