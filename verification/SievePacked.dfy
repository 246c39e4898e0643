/** The bit-packed sieve of the two erast.c programs, with its three ways of running a
    round: one loop, a grid of loops, and a grid of threads. */
module SievePacked {
  import opened Divisibility
  import opened PackedBits
  import opened SieveTheory
  import opened SieveThreads

  datatype Variant = SequentialInvalidate | SequentialGridInvalidate | ThreadGridInvalidate

  // ---------- thread identities ----------

  // The loop in main that scrambles thread indices two at a time.
  method ScrambleIds(n: nat) returns (threadID: seq<nat>)
    requires n % 2 == 0
    ensures |threadID| == n
    ensures forall k :: 0 <= k < n ==> threadID[k] == if k % 2 == 0 then n - 1 - k else k - 1
  {
    var ids := new nat[n];
    var idx, ridx := 0, n - 1;
    while idx < n
      invariant 0 <= idx <= n && idx % 2 == 0 && ridx == n - 1 - idx
      invariant forall k :: 0 <= k < idx ==> ids[k] == if k % 2 == 0 then n - 1 - k else k - 1
    {
      ids[idx] := ridx;
      ids[idx + 1] := idx;
      idx, ridx := idx + 2, ridx - 2;
    }
    threadID := ids[..];
  }

  // The scramble is a permutation of 0 .. n - 1: every identity has exactly one place.
  lemma ScrambleIsPermutation(n: nat, id: nat)
    requires n % 2 == 0 && id < n
    ensures var place := if id % 2 == 0 then id + 1 else n - 1 - id;
      0 <= place < n && forall k :: 0 <= k < n ==>
        ((if k % 2 == 0 then n - 1 - k else k - 1) == id <==> k == place)
  {
  }

  // ---------- the program ----------

  // The flag MAX is the only one that initialisation leaves to chance: malloc does not
  // clear the array and the loop that sets the flags stops at MAX - 1.
  ghost predicate LastFlagSet(max: nat, garbage: Bytes)
    requires |garbage| == max / 8 + 1
  {
    Marked(garbage[0 := 0xFC], max)
  }

  ghost predicate Reported(max: nat, garbage: Bytes, i: nat)
    requires |garbage| == max / 8 + 1
  {
    Prime(i) && (i < max || (i == max && LastFlagSet(max, garbage)))
  }

  // The loop of tile id comes to the flag MAX + 1, and that flag has no byte.
  ghost predicate LeavesTile(g: Grid, id: nat) {
    g.max % 8 == 7 && id >= 1 && OnTile(g, id, g.max + 1)
  }

  lemma SomeLoopLeaves(g: Grid)
    ensures Overruns(g) <==> exists id: nat :: id < g.n && LeavesTile(g, id)
  {
    if Overruns(g) {
      var id: nat :| 1 <= id < g.n && OnTile(g, id, g.max + 1);
      assert LeavesTile(g, id);
    }
  }

  class PackedSieve {
    const max: nat
    const n: nat
    const isprime: array<bv8>
    const updateIsPrime: array<nat>

    ghost predicate Valid()
      reads updateIsPrime
    {
      && n > 0 && n % 2 == 0
      && isprime as object != updateIsPrime
      && isprime.Length == max / 8 + 1
      && updateIsPrime.Length == 4 * n
      && forall l :: 0 <= l < 4 * n ==> updateIsPrime[l] == 1
    }

    constructor (max: nat, n: nat, garbage: Bytes)
      requires n > 0 && n % 2 == 0 && |garbage| == max / 8 + 1
      ensures Valid() && this.max == max && this.n == n
      ensures fresh(isprime) && fresh(updateIsPrime) && isprime[..] == garbage
    {
      this.max, this.n := max, n;
      isprime := new bv8[max / 8 + 1](i requires 0 <= i < |garbage| => garbage[i]);
      updateIsPrime := new nat[4 * n](l => 1);
      new;
      assert isprime[..] == garbage;
    }

    method ChkIsPrime(i: nat) returns (r: bool)
      requires i / 8 < isprime.Length
      ensures r <==> Marked(isprime[..], i)
    {
      r := isprime[i / 8] & Mask(i % 8) > 0;
    }

    method SetIsPrime(i: nat, val: bool)
      requires Valid() && i / 8 < isprime.Length
      modifies isprime, updateIsPrime
      ensures Valid() && isprime[..] == WithFlag(old(isprime[..]), i, val)
    {
      var idx := i / 8;
      var lock := idx % (4 * n);
      updateIsPrime[lock] := updateIsPrime[lock] - 1;
      isprime[idx] := Updated(isprime[idx], i, val);
      updateIsPrime[lock] := updateIsPrime[lock] + 1;
    }

    // Clears one flag and says so flag by flag.
    method ClearFlag(i: nat)
      requires Valid() && i / 8 < isprime.Length
      modifies isprime, updateIsPrime
      ensures Valid()
      ensures forall k: nat :: k <= max ==>
        (Marked(isprime[..], k) <==> Marked(old(isprime[..]), k) && k != i)
    {
      SetIsPrime(i, false);
      WithFlagMarks(old(isprime[..]), i, false);
    }

    // ---------- the three forms of a round ----------

    method InvalidateSequential(p: nat)
      requires Valid() && p >= 2
      modifies isprime, updateIsPrime
      ensures Valid()
      ensures forall i: nat :: i <= max ==>
        (Marked(isprime[..], i) <==> Marked(old(isprime[..]), i) && !ProperMultiple(p, i))
    {
      var j := 2 * p;
      DividesIntro(p, 2, j);
      DividesIntro(p, 1, p);
      ghost var prev := p;
      while j < max + 1
        invariant p <= prev < j == prev + p && Divides(p, prev) && Divides(p, j) && Valid()
        invariant forall i: nat :: i <= max ==>
          (Marked(isprime[..], i) <==> Marked(old(isprime[..]), i) && !(ProperMultiple(p, i) && i <= prev))
      {
        ClearFlag(j);
        forall i: nat | prev < i < j
          ensures !Divides(p, i)
        {
          NoMultipleBetween(p, prev, i);
        }
        prev := j;
        NextMultiple(p, j);
        j := j + p;
      }
      forall i: nat | prev < i < j
        ensures !Divides(p, i)
      {
        NoMultipleBetween(p, prev, i);
      }
    }

    // The loop that one grid cell runs: worker id clears its tile. False stands for a write
    // outside the array, which the loop comes to exactly if the tile holds MAX + 1, this is
    // not the first tile, and the flag MAX + 1 has no byte.
    method InvalidateTile(id: nat, p: nat) returns (inside: bool)
      requires Valid() && p >= 2 && id < n
      modifies isprime, updateIsPrime
      ensures Valid()
      ensures inside <==> !LeavesTile(Grid(max, n, p), id)
      ensures inside ==> forall i: nat :: i <= max ==>
        (Marked(isprime[..], i) <==> Marked(old(isprime[..]), i) && !OnTile(Grid(max, n, p), id, i))
    {
      ghost var g := Grid(max, n, p);
      var j := 2 * p;
      MulLe(1, n, p);
      DividesIntro(n * p, 0, 0);
      ghost var w := Worker(id, j, Test, 0);
      assert (2 + id) * p == w.Target(g);
      while j < max + 1
        invariant j >= 2 * p && Divides(n * p, j - 2 * p) && n * p > 0 && Valid()
        invariant w == Worker(id, j, Test, 0)
        invariant LeavesTile(g, id) ==> w.Target(g) <= max + 1
        invariant forall i: nat :: i <= max ==>
          (Marked(isprime[..], i) <==>
             Marked(old(isprime[..]), i) && !(OnTile(g, id, i) && i < w.Target(g)))
        decreases max + 1 - j
      {
        if j + id * p > max + 1 {
          break;
        }
        TargetOnTile(g, w);
        if (j + id * p) / 8 >= isprime.Length {
          MulLe(0, id, p);
          return false;
        }
        ClearFlag(j + id * p);
        forall i: nat | OnTile(g, id, i)
          ensures i < w.Target(g) + n * p <==> i <= w.Target(g)
        {
          TileGap(g, w, i);
        }
        NextMultiple(n * p, j - 2 * p);
        j := j + n * p;
        w := Worker(id, j, Test, 0);
      }
      forall i: nat | i <= max && OnTile(g, id, i)
        ensures i < w.Target(g)
      {
        TileFinished(g, w, i);
      }
      MulLe(1, if id == 0 then 1 else id, p);
      return true;
    }

    // The grid of loops; it leaves the array exactly when some run of the threads does.
    method InvalidateGrid(p: nat) returns (inside: bool)
      requires Valid() && p >= 2
      modifies isprime, updateIsPrime
      ensures Valid()
      ensures inside <==> !Overruns(Grid(max, n, p))
      ensures inside ==> forall i: nat :: i <= max ==>
        (Marked(isprime[..], i) <==> Marked(old(isprime[..]), i) && !ProperMultiple(p, i))
    {
      ghost var g := Grid(max, n, p);
      SomeLoopLeaves(g);
      var idx := 0;
      while idx < n
        invariant idx <= n && Valid()
        invariant forall id: nat :: id < idx ==> !LeavesTile(g, id)
        invariant forall i: nat :: i <= max ==>
          (Marked(isprime[..], i) <==>
             Marked(old(isprime[..]), i) && forall id: nat :: id < idx ==> !OnTile(g, id, i))
      {
        inside := InvalidateTile(idx, p);
        if !inside {
          assert LeavesTile(g, idx);
          return;
        }
        idx := idx + 1;
      }
      forall i: nat | i <= max
        ensures ProperMultiple(p, i) <==> exists id: nat :: id < n && OnTile(g, id, i)
      {
        TilesCover(g, i);
      }
      return true;
    }

    // One step of worker u, in place.
    method Advance(g: Grid, workers: array<Worker>, u: nat)
      requires Accessible(g, State(workers[..], updateIsPrime[..], isprime[..]))
      requires u < workers.Length && CanMove(g, workers[u], updateIsPrime[..])
      requires isprime as object != updateIsPrime && isprime as object != workers && updateIsPrime as object != workers
      modifies isprime, updateIsPrime, workers
      ensures State(workers[..], updateIsPrime[..], isprime[..]) ==
              Step(g, old(State(workers[..], updateIsPrime[..], isprime[..])), u)
    {
      var w := workers[u];
      assert w in workers[..];
      match w.pc {
        case Test =>
          workers[u] := w.(pc := if w.j < g.max + 1 && !(w.Target(g) > g.max + 1) then Wait else Done);
        case Wait =>
          updateIsPrime[w.Lock(g)] := updateIsPrime[w.Lock(g)] - 1;
          workers[u] := w.(pc := Load);
        case Load =>
          workers[u] := w.(pc := Store, reg := isprime[w.Target(g) / 8]);
        case Store =>
          isprime[w.Target(g) / 8] := Updated(w.reg, w.Target(g), false);
          workers[u] := w.(pc := Post);
        case Post =>
          updateIsPrime[w.Lock(g)] := updateIsPrime[w.Lock(g)] + 1;
          workers[u] := w.(pc := Test, j := w.j + g.n * g.p);
      }
    }

    // Creates the workers, lets an arbitrary scheduler run them, and joins them.
    method InvalidateThreaded(p: nat, threadID: seq<nat>)
      requires Valid() && p >= 2 && !Overruns(Grid(max, n, p))
      requires |threadID| == n
      requires forall k :: 0 <= k < n ==> threadID[k] == if k % 2 == 0 then n - 1 - k else k - 1
      modifies isprime, updateIsPrime
      ensures Valid()
      ensures forall i: nat :: i <= max ==>
        (Marked(isprime[..], i) <==> Marked(old(isprime[..]), i) && !ProperMultiple(p, i))
    {
      var g := Grid(max, n, p);
      var workers := new Worker[n](k requires 0 <= k < |threadID| =>
        Worker(threadID[k], 2 * p, Test, 0));
      ghost var mem := isprime[..];
      StartState(g, workers[..], updateIsPrime[..], mem);
      while !AllDone(workers[..])
        invariant Inv(g, State(workers[..], updateIsPrime[..], isprime[..]), mem)
        invariant workers.Length == n && updateIsPrime.Length == 4 * n && isprime.Length == max / 8 + 1
        decreases TotalWork(g, workers[..])
      {
        ghost var s := State(workers[..], updateIsPrime[..], isprime[..]);
        ghost var v := SomeoneMoves(g, s, mem);
        var u: nat :| u < n && CanMove(g, workers[u], updateIsPrime[..]);
        InvStep(g, s, u, mem);
        WorkDecreases(g, s, u, mem);
        Advance(g, workers, u);
      }
      RoundResult(g, State(workers[..], updateIsPrime[..], isprime[..]), mem);
    }

    static lemma StartState(g: Grid, workers: seq<Worker>, sem: seq<nat>, mem: Bytes)
      requires g.Valid() && !Overruns(g) && g.n % 2 == 0
      requires |workers| == g.n && |sem| == g.Locks() && |mem| == g.max / 8 + 1
      requires forall l :: 0 <= l < |sem| ==> sem[l] == 1
      requires forall k :: 0 <= k < g.n ==>
        workers[k] == Worker(if k % 2 == 0 then g.n - 1 - k else k - 1, 2 * g.p, Test, 0)
      ensures Inv(g, State(workers, sem, mem), mem)
    {
      forall id: nat | id < g.n
        ensures HasWorker(workers, id)
      {
        var place := if id % 2 == 0 then id + 1 else g.n - 1 - id;
        assert workers[place].id == id;
      }
      InvInit(g, State(workers, sem, mem), mem);
    }

    // ---------- main ----------

    // Sets the flags 2 .. MAX - 1, the first byte by a constant.
    method Initialise(ghost garbage: Bytes)
      requires Valid() && isprime[..] == garbage
      modifies isprime, updateIsPrime
      ensures Valid()
      ensures forall i: nat :: i <= max ==>
        (Marked(isprime[..], i) <==> i >= 2 && (i < max || LastFlagSet(max, garbage)))
    {
      isprime[0] := 0xFC;
      ghost var start := isprime[..];
      assert start == garbage[0 := 0xFC];
      FirstByte(start);
      var i := 2;
      while i < max
        invariant Valid() && 2 <= i
        invariant forall k: nat :: k <= max ==>
          (Marked(isprime[..], k) <==> (2 <= k < i && k < max) || Marked(start, k))
      {
        ghost var before := isprime[..];
        SetIsPrime(i, true);
        WithFlagMarks(before, i, true);
        i := i + 1;
      }
    }

    static lemma FirstByte(mem: Bytes)
      requires |mem| > 0 && mem[0] == 0xFC
      ensures forall i: nat :: i < 8 ==> (Marked(mem, i) <==> i >= 2)
    {
      forall i: nat | i < 8
        ensures Marked(mem, i) <==> i >= 2
      {
        MaskTable(i);
      }
    }

    // The sequential search for the next survivor.
    method FindNext(p: nat, ghost garbage: Bytes) returns (q: nat)
      requires Valid() && p >= 2 && p * p <= max && |garbage| == max / 8 + 1
      requires forall i: nat :: 2 <= i <= max ==>
        (Marked(isprime[..], i) <==> Survives(i, p + 1) && (i < max || LastFlagSet(max, garbage)))
      ensures p < q <= max && Prime(q)
      ensures forall i: nat :: Survives(i, q) <==> Survives(i, p + 1)
    {
      ghost var next := p + 1;
      ghost var s := SurvivorAbove(p);
      q := p;
      var j := p + 1;
      while j < max + 1
        invariant next <= j <= s
        invariant forall i :: next <= i < j ==> !Survives(i, next)
      {
        var prime := ChkIsPrime(j);
        if prime {
          q := j;
          break;
        }
        j := j + 1;
      }
      NextSurvivor(next, q);
    }

    // The whole program, for each of the three build variants and every interleaving.
    method Run(variant: Variant, ghost garbage: Bytes) returns (cnt: nat)
      requires Valid() && isprime[..] == garbage
      requires variant != SequentialInvalidate ==>
        forall p: nat :: Prime(p) && p * p <= max ==> !Overruns(Grid(max, n, p))
      modifies isprime, updateIsPrime
      ensures Valid()
      ensures forall i: nat :: i <= max ==> (Marked(isprime[..], i) <==> Reported(max, garbage, i))
      ensures cnt == |set i: nat | i <= max && Reported(max, garbage, i)|
    {
      NothingTreated();
      hide Survives;
      var threadID := ScrambleIds(n);
      Initialise(garbage);
      var p := 2;
      while p * p <= max
        invariant Valid() && Prime(p) && (p <= max || p == 2)
        invariant forall i: nat :: i <= max ==>
          (Marked(isprime[..], i) <==> i >= 2 && Survives(i, p) && (i < max || LastFlagSet(max, garbage)))
        decreases max - p
      {
        MulLe(1, p, p);
        match variant {
          case SequentialInvalidate => InvalidateSequential(p);
          case SequentialGridInvalidate => var inside := InvalidateGrid(p);
          case ThreadGridInvalidate => InvalidateThreaded(p, threadID);
        }
        forall i: nat
          ensures Survives(i, p + 1) <==> Survives(i, p) && !ProperMultiple(p, i)
        {
          RoundExtends(p, i);
        }
        p := FindNext(p, garbage);
      }
      forall i: nat | 2 <= i <= max
        ensures Survives(i, p) <==> Prime(i)
      {
        SurvivorsArePrimes(i, p, max);
      }
      cnt := Count();
      assert (set i: nat | i <= max && Marked(isprime[..], i)) ==
             (set i: nat | i <= max && Reported(max, garbage, i));
    }

    method Count() returns (cnt: nat)
      requires isprime.Length == max / 8 + 1
      ensures cnt == |set i: nat | i <= max && Marked(isprime[..], i)|
    {
      hide Marked;
      cnt := 0;
      var i := 0;
      while i < max + 1
        invariant i <= max + 1
        invariant cnt == |set k: nat | k <= max && k < i && Marked(isprime[..], k)|
      {
        var prime := ChkIsPrime(i);
        ghost var before := set k: nat | k <= max && k < i && Marked(isprime[..], k);
        ghost var after := set k: nat | k <= max && k < i + 1 && Marked(isprime[..], k);
        assert after == if prime then before + {i} else before;
        if prime {
          cnt := cnt + 1;
        }
        i := i + 1;
      }
      assert (set k: nat | k <= max && k < i && Marked(isprime[..], k)) ==
             (set k: nat | k <= max && Marked(isprime[..], k));
    }
  }

  // The reported numbers are the primes exactly when MAX is composite, or its flag was set
  // by chance; below 8 the constant first byte sets it.
  lemma ReportIsExact(max: nat, garbage: Bytes)
    requires |garbage| == max / 8 + 1
    ensures (forall i: nat :: i <= max ==> (Reported(max, garbage, i) <==> Prime(i))) <==>
            !Prime(max) || LastFlagSet(max, garbage)
    ensures 2 <= max < 8 ==> LastFlagSet(max, garbage)
  {
    if 2 <= max < 8 {
      PackedSieve.FirstByte(garbage[0 := 0xFC]);
    }
    if Prime(max) && !LastFlagSet(max, garbage) {
      assert !Reported(max, garbage, max);
    }
  }

  // With MAX = 11 and an array of zeros from malloc the prime 11 goes missing.
  lemma LastPrimeMissed()
    ensures Prime(11) && !Reported(11, [0, 0], 11)
  {
    ReportIsExact(11, [0, 0]);
    assert !Marked([0xFC, 0], 11);
  }
}
