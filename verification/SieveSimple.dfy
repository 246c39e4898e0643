/** The plain array sieve of erastsimp.c. */
module SieveSimple {
  import opened Divisibility
  import opened SieveTheory

  // One round: clear 2p, 3p, ... up to the end of the array.
  method Invalidate(isprime: array<bool>, p: nat)
    requires p >= 2
    modifies isprime
    ensures forall i: nat :: i < isprime.Length ==>
      (isprime[i] <==> old(isprime[i]) && !ProperMultiple(p, i))
  {
    var j := 2 * p;
    DividesIntro(p, 2, j);
    forall i: nat | p < i < j
      ensures !Divides(p, i)
    {
      DividesIntro(p, 1, p);
      NoMultipleBetween(p, p, i);
    }
    while j < isprime.Length
      invariant p < j && Divides(p, j)
      invariant forall i: nat :: i < isprime.Length ==>
        (isprime[i] <==> old(isprime[i]) && !(ProperMultiple(p, i) && i < j))
    {
      isprime[j] := false;
      forall i: nat | j < i < j + p
        ensures !Divides(p, i)
      {
        NoMultipleBetween(p, j, i);
      }
      NextMultiple(p, j);
      j := j + p;
    }
  }

  // The next surviving entry above p.
  method FindNext(isprime: array<bool>, p: nat) returns (q: nat)
    requires p >= 2 && p * p < isprime.Length
    requires forall i: nat :: 2 <= i < isprime.Length ==> (isprime[i] <==> Survives(i, p + 1))
    ensures p < q < isprime.Length && Prime(q)
    ensures forall i: nat :: Survives(i, q) <==> Survives(i, p + 1)
  {
    ghost var next := p + 1;
    ghost var s := SurvivorAbove(p);
    q := p;
    var j := p + 1;
    while j < isprime.Length
      invariant next <= j <= s
      invariant forall i :: next <= i < j ==> !Survives(i, next)
    {
      if isprime[j] {
        q := j;
        break;
      }
      j := j + 1;
    }
    NextSurvivor(next, q);
  }

  method Sieve(max: nat) returns (isprime: array<bool>, cnt: nat)
    ensures isprime.Length == max + 1
    ensures forall i: nat :: i <= max ==> (isprime[i] <==> Prime(i))
    ensures cnt == |set i: nat | i <= max && Prime(i)|
  {
    NothingTreated();
    hide Survives;
    var p := 2;
    isprime := new bool[max + 1](i => i >= 2);
    while p * p <= max
      invariant isprime.Length == max + 1
      invariant Prime(p) && (p <= max || p == 2)
      invariant forall i: nat :: i <= max ==> (isprime[i] <==> i >= 2 && Survives(i, p))
      decreases max - p
    {
      MulLe(1, p, p);
      Invalidate(isprime, p);
      forall i: nat
        ensures Survives(i, p + 1) <==> Survives(i, p) && !ProperMultiple(p, i)
      {
        RoundExtends(p, i);
      }
      p := FindNext(isprime, p);
    }
    forall i: nat | 2 <= i <= max
      ensures isprime[i] <==> Prime(i)
    {
      SurvivorsArePrimes(i, p, max);
    }
    cnt := Count(isprime);
    assert (set i: nat | i < isprime.Length && isprime[i]) == set i: nat | i <= max && Prime(i);
  }

  method Count(isprime: array<bool>) returns (cnt: nat)
    ensures cnt == |set i: nat | i < isprime.Length && isprime[i]|
  {
    cnt := 0;
    var i := 0;
    while i < isprime.Length
      invariant i <= isprime.Length
      invariant cnt == |set k: nat | k < i && isprime[k]|
    {
      ghost var before, after := set k: nat | k < i && isprime[k], set k: nat | k < i + 1 && isprime[k];
      assert after == if isprime[i] then before + {i} else before;
      if isprime[i] {
        cnt := cnt + 1;
      }
      i := i + 1;
    }
  }
}
