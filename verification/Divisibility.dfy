/** Divisibility, primes and powers over the natural numbers: the vocabulary in which the
    sieve and the gcd routines are specified. */
module Divisibility {

  predicate Divides(d: nat, n: nat) {
    d > 0 && n % d == 0
  }

  predicate Prime(n: nat) {
    n >= 2 && forall d :: 2 <= d < n ==> !Divides(d, n)
  }

  // Multiplication by a non-negative factor is monotone.
  lemma MulLe(a: int, b: int, c: int)
    requires a <= b && c >= 0
    ensures a * c <= b * c && c * a <= c * b
  {
  }

  lemma MulAssociative(a: int, b: int, c: int)
    ensures (a * b) * c == a * (b * c)
  {
  }

  // A quotient and a remainder in range are the quotient and the remainder.
  lemma QuotientIs(n: int, p: nat, q: int, r: nat)
    requires p > 0 && n == q * p + r && r < p
    ensures n / p == q && n % p == r
  {
    assert n == p * (n / p) + n % p;
    var x := q - n / p;
    assert p * x == n % p - r;
    if x >= 1 {
      MulLe(1, x, p);
    } else if x <= -1 {
      MulLe(x, -1, p);
    }
  }

  // Counting up by one, a quotient grows exactly at the multiples.
  lemma CountUp(n: nat, p: nat)
    requires p > 0 && n > 0
    ensures n / p == (n - 1) / p + if n % p == 0 then 1 else 0
  {
    var q, r := (n - 1) / p, (n - 1) % p;
    if r + 1 == p {
      QuotientIs(n, p, q + 1, 0);
    } else {
      QuotientIs(n, p, q, r + 1);
    }
  }

  // A product with a whole cofactor is a multiple.
  lemma DividesIntro(d: nat, k: int, n: nat)
    requires d > 0 && n == d * k
    ensures Divides(d, n)
    ensures n / d == k
  {
    assert n == d * (n / d) + n % d;
    var r, x := n % d, k - n / d;
    assert d * x == r;
    if x >= 1 {
      MulLe(1, x, d);
    } else if x <= -1 {
      MulLe(x, -1, d);
    }
  }

  lemma DividesElim(d: nat, n: nat)
    requires Divides(d, n)
    ensures n == d * (n / d)
  {
  }

  lemma DividesTransitive(a: nat, b: nat, c: nat)
    requires Divides(a, b) && Divides(b, c)
    ensures Divides(a, c)
  {
    DividesElim(a, b);
    DividesElim(b, c);
    assert c == a * ((b / a) * (c / b));
    DividesIntro(a, (b / a) * (c / b), c);
  }

  lemma DividesLe(d: nat, n: nat)
    requires Divides(d, n) && n > 0
    ensures d <= n
  {
    DividesElim(d, n);
    if n / d >= 1 {
      MulLe(1, n / d, d);
    }
  }

  // Divisors of two factors multiply.
  lemma DividesProduct(a: nat, b: nat, x: nat, y: nat)
    requires Divides(a, x) && Divides(b, y)
    ensures a * b > 0 && Divides(a * b, x * y)
  {
    DividesElim(a, x);
    DividesElim(b, y);
    assert x * y == (a * b) * ((x / a) * (y / b)) by {
      assert x * y == (a * (x / a)) * (b * (y / b));
    }
    assert a * b > 0;
    DividesIntro(a * b, (x / a) * (y / b), x * y);
  }

  lemma DividesMultiple(d: nat, x: nat, y: nat)
    requires Divides(d, x)
    ensures Divides(d, x * y)
  {
    DividesElim(d, x);
    assert x * y == d * ((x / d) * y);
    DividesIntro(d, (x / d) * y, x * y);
  }

  // Every number from two on has a prime factor.
  lemma PrimeFactor(n: nat) returns (q: nat)
    requires n >= 2
    ensures Prime(q) && Divides(q, n)
  {
    if Prime(n) {
      q := n;
    } else {
      var d :| 2 <= d < n && Divides(d, n);
      q := PrimeFactor(d);
      DividesTransitive(q, d, n);
    }
  }

  function Pow(b: nat, e: nat): nat {
    if e == 0 then 1 else b * Pow(b, e - 1)
  }

  lemma {:induction false} PowAdd(b: nat, x: nat, y: nat)
    ensures Pow(b, x + y) == Pow(b, x) * Pow(b, y)
  {
    if x > 0 {
      PowAdd(b, x - 1, y);
      assert Pow(b, x + y) == b * (Pow(b, x - 1) * Pow(b, y));
    }
  }

  lemma {:induction false} PowMul(b: nat, x: nat, y: nat)
    ensures Pow(b, x * y) == Pow(Pow(b, x), y)
  {
    if y > 0 {
      PowMul(b, x, y - 1);
      assert x * y == x + x * (y - 1);
      PowAdd(b, x, x * (y - 1));
    } else {
      assert x * y == 0;
    }
  }

  lemma {:induction false} PowMonotone(a: nat, b: nat, e: nat)
    requires a <= b
    ensures Pow(a, e) <= Pow(b, e)
  {
    if e > 0 {
      PowMonotone(a, b, e - 1);
      MulLe(a, b, Pow(a, e - 1));
      MulLe(Pow(a, e - 1), Pow(b, e - 1), b);
    }
  }

  lemma {:induction false} PowPositive(b: nat, e: nat)
    requires b > 0
    ensures Pow(b, e) > 0
  {
    if e > 0 {
      PowPositive(b, e - 1);
    }
  }
}
