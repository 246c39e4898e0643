/** The two-threshold decision of the tick detector over a sequence of image differences. */
module Hysteresis {

  // The difference as a part of the largest possible one, 255 per byte, against the
  // thresholds 0.0023 and 0.0022; an empty image is on neither side.
  predicate Above(sum: nat, maxDiff: nat) { 10000 * sum > 23 * maxDiff }
  predicate Below(sum: nat, maxDiff: nat) { 10000 * sum < 22 * maxDiff }

  predicate Next(moving: bool, sum: nat, maxDiff: nat) {
    if moving then !Below(sum, maxDiff) else Above(sum, maxDiff)
  }

  // The state after the first n differences: still before any.
  predicate Moving(ds: seq<nat>, maxDiff: nat, n: nat)
    requires n <= |ds|
  {
    n > 0 && Next(Moving(ds, maxDiff, n - 1), ds[n - 1], maxDiff)
  }

  predicate Tick(ds: seq<nat>, maxDiff: nat, n: nat)
    requires n < |ds|
  {
    Moving(ds, maxDiff, n) && Below(ds[n], maxDiff)
  }

  predicate Move(ds: seq<nat>, maxDiff: nat, n: nat)
    requires n < |ds|
  {
    !Moving(ds, maxDiff, n) && Above(ds[n], maxDiff)
  }

  function Ticks(ds: seq<nat>, maxDiff: nat, n: nat): nat
    requires n <= |ds|
  {
    if n == 0 then 0 else Ticks(ds, maxDiff, n - 1) + if Tick(ds, maxDiff, n - 1) then 1 else 0
  }

  function Moves(ds: seq<nat>, maxDiff: nat, n: nat): nat
    requires n <= |ds|
  {
    if n == 0 then 0 else Moves(ds, maxDiff, n - 1) + if Move(ds, maxDiff, n - 1) then 1 else 0
  }

  lemma ThresholdsExclude(sum: nat, maxDiff: nat)
    ensures !(Above(sum, maxDiff) && Below(sum, maxDiff))
  {
  }

  // Moves and ticks alternate, starting with a move.
  lemma {:induction false} Alternate(ds: seq<nat>, maxDiff: nat, n: nat)
    requires n <= |ds|
    ensures Moves(ds, maxDiff, n) == Ticks(ds, maxDiff, n) + if Moving(ds, maxDiff, n) then 1 else 0
  {
    if n > 0 {
      Alternate(ds, maxDiff, n - 1);
      ThresholdsExclude(ds[n - 1], maxDiff);
    }
  }

  // From difference k, above 0.0023 of the largest, up to n nothing fell below 0.0022 of it.
  ghost predicate MovingSince(ds: seq<nat>, maxDiff: nat, k: nat, n: nat)
    requires n <= |ds|
  {
    k < n && 10000 * ds[k] > 23 * maxDiff && forall m :: k < m < n ==> 10000 * ds[m] >= 22 * maxDiff
  }

  // What the state means without running the machine.
  lemma {:induction false} MovingExactly(ds: seq<nat>, maxDiff: nat, n: nat)
    requires n <= |ds|
    ensures Moving(ds, maxDiff, n) <==> exists k: nat :: MovingSince(ds, maxDiff, k, n)
  {
    if n > 0 {
      MovingExactly(ds, maxDiff, n - 1);
      ThresholdsExclude(ds[n - 1], maxDiff);
      if Moving(ds, maxDiff, n) {
        if Moving(ds, maxDiff, n - 1) {
          var k: nat :| MovingSince(ds, maxDiff, k, n - 1);
          assert MovingSince(ds, maxDiff, k, n);
        } else {
          assert MovingSince(ds, maxDiff, n - 1, n);
        }
      } else {
        forall k: nat ensures !MovingSince(ds, maxDiff, k, n) {
          if MovingSince(ds, maxDiff, k, n) {
            assert k < n - 1 ==> MovingSince(ds, maxDiff, k, n - 1);
          }
        }
      }
    }
  }

  // Which images are ticks: the first to fall below the lower threshold after a difference
  // above the upper one.
  lemma TickExactly(ds: seq<nat>, maxDiff: nat, n: nat)
    requires n < |ds|
    ensures Tick(ds, maxDiff, n) <==> 10000 * ds[n] < 22 * maxDiff && exists k: nat :: MovingSince(ds, maxDiff, k, n)
  {
    MovingExactly(ds, maxDiff, n);
  }

  // Two ticks are at least two images apart, with a difference above the upper threshold
  // strictly between them.
  lemma TicksApart(ds: seq<nat>, maxDiff: nat, i: nat, j: nat) returns (k: nat)
    requires i < j < |ds| && Tick(ds, maxDiff, i) && Tick(ds, maxDiff, j)
    ensures i < k < j && 10000 * ds[k] > 23 * maxDiff
  {
    TickExactly(ds, maxDiff, j);
    k :| MovingSince(ds, maxDiff, k, j);
    ThresholdsExclude(ds[i], maxDiff);
  }

  // The state depends on the differences seen so far only.
  lemma {:induction false} MovingPrefix(ds: seq<nat>, es: seq<nat>, maxDiff: nat, n: nat)
    requires n <= |ds| && n <= |es| && ds[..n] == es[..n]
    ensures Moving(ds, maxDiff, n) == Moving(es, maxDiff, n)
  {
    if n > 0 {
      assert ds[..n - 1] == ds[..n][..n - 1] && es[..n - 1] == es[..n][..n - 1];
      assert ds[n - 1] == ds[..n][n - 1] && es[n - 1] == es[..n][n - 1];
      MovingPrefix(ds, es, maxDiff, n - 1);
    }
  }
}
