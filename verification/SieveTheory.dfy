/** What the rounds of the sieve of Eratosthenes establish, independently of how the
    bits are stored and of who clears them. */
module SieveTheory {
  import opened Divisibility
  import PrimeGap

  // i has no proper divisor among 2, ..., p - 1: the state of entry i when p is the
  // current prime and the multiples of all earlier numbers are gone.
  ghost predicate Survives(i: nat, p: nat) {
    forall d :: 2 <= d < p && d < i ==> !Divides(d, i)
  }

  // The entries a round for p must clear: 2p, 3p, ...
  predicate ProperMultiple(p: nat, i: nat) {
    p < i && Divides(p, i)
  }

  lemma NothingTreated()
    ensures forall i: nat :: Survives(i, 2)
  {
  }

  // A round for p takes the survivors of all numbers below p to those of p as well.
  lemma RoundExtends(p: nat, i: nat)
    requires p >= 2
    ensures Survives(i, p + 1) <==> Survives(i, p) && !ProperMultiple(p, i)
  {
  }

  // When all numbers below next have been treated, the least survivor from next on is
  // the next prime, and no number in between had anything left to clear.
  lemma NextSurvivor(next: nat, q: nat)
    requires 3 <= next <= q && Survives(q, next)
    requires forall j :: next <= j < q ==> !Survives(j, next)
    ensures Prime(q)
    ensures forall i: nat :: Survives(i, q) <==> Survives(i, next)
  {
    forall i: nat, d: nat | next <= d < q && d < i && Divides(d, i)
      ensures !Survives(i, next)
    {
      assert !Survives(d, next);
      var e :| 2 <= e < next && e < d && Divides(e, d);
      DividesTransitive(e, d, i);
    }
  }

  // A prime above p survives the rounds up to p, so the search always finds one.
  lemma SurvivorAbove(p: nat) returns (q: nat)
    requires p >= 2
    ensures p < q < p * p && Survives(q, p + 1)
  {
    q := PrimeGap.PrimeBetween(p);
  }

  lemma CofactorBounds(d: nat, e: nat, i: nat)
    requires 2 <= d < i && Divides(d, i) && e == i / d
    ensures d * e == i && 2 <= e < i && Divides(e, i)
  {
    DividesElim(d, i);
    DividesIntro(e, d, i);
    if e >= i {
      MulLe(2, d, e);
    }
  }

  // Once p * p exceeds max the survivors up to max are the primes.
  lemma SurvivorsArePrimes(i: nat, p: nat, max: nat)
    requires 2 <= i <= max < p * p
    ensures Survives(i, p) <==> Prime(i)
  {
    if Survives(i, p) && !Prime(i) {
      var d :| 2 <= d < i && Divides(d, i);
      var e: nat := i / d;
      CofactorBounds(d, e, i);
      if e >= p {
        MulLe(p, d, e);
        MulLe(p, e, p);
      }
    }
  }

  // Between two consecutive multiples of p there is none.
  lemma NoMultipleBetween(p: nat, j: nat, i: nat)
    requires Divides(p, j) && j < i < j + p
    ensures !Divides(p, i)
  {
    if Divides(p, i) {
      var x := i / p - j / p;
      assert p * x == i - j;
      if x >= 1 {
        MulLe(1, x, p);
      } else {
        MulLe(x, 0, p);
      }
    }
  }

  lemma NextMultiple(p: nat, j: nat)
    requires Divides(p, j)
    ensures Divides(p, j + p)
  {
    DividesIntro(p, j / p + 1, j + p);
  }
}
