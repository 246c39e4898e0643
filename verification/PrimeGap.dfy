/** There is a prime in (p, p * p] for every p >= 2.

    The sieve's search for the next prime relies on it: without a survivor above p the
    variable p would keep its value and the outer loop would spin.  The proof squeezes a
    common multiple M of 1, 2, ..., n.  The denominators of the Leibniz harmonic triangle all
    divide M, so M is at least 4 to the power (n - 1) / 2; and were there no prime above p,
    M could be chosen as a product of p - 1 numbers not above n. */
module PrimeGap {
  import opened Divisibility

  // ---------- lower bound: the Leibniz harmonic triangle ----------

  function Binomial(n: nat, k: nat): nat {
    if k == 0 then 1
    else if n == 0 then 0
    else Binomial(n - 1, k - 1) + Binomial(n - 1, k)
  }

  lemma {:induction false} BinomialPositive(n: nat, k: nat)
    requires k <= n
    ensures Binomial(n, k) > 0
  {
    if 0 < k {
      BinomialPositive(n - 1, k - 1);
    }
  }

  lemma AbsorptionSum(n: int, k: int, left: int, right: int, x: int, y: int)
    requires left == x + y
    requires (k - 1) * left == (n - 1) * x && k * right == (n - 1) * y
    ensures k * (left + right) == n * left
  {
    assert (n - 1) * x + (n - 1) * y == (n - 1) * left;
  }

  lemma {:induction false} Absorption(n: nat, k: nat)
    requires 1 <= k && 1 <= n
    ensures k * Binomial(n, k) == n * Binomial(n - 1, k - 1)
    decreases n
  {
    if n == 1 {
      if k == 1 {
      } else {
        assert Binomial(0, k - 1) == 0 && Binomial(0, k) == 0;
      }
    } else {
      var left, right := Binomial(n - 1, k - 1), Binomial(n - 1, k);
      Absorption(n - 1, k);
      if k == 1 {
        assert left == 1 && Binomial(n - 2, k - 1) == 1;
      } else {
        Absorption(n - 1, k - 1);
        AbsorptionSum(n, k, left, right, Binomial(n - 2, k - 2), Binomial(n - 2, k - 1));
      }
    }
  }

  // Denominator in row n, column k of the Leibniz triangle.
  function Leibniz(n: nat, k: nat): nat {
    k * Binomial(n, k)
  }

  // 1 / Leibniz(n, k) + 1 / Leibniz(n, k + 1) == 1 / Leibniz(n - 1, k), without the fractions.
  lemma LeibnizRule(n: nat, k: nat)
    requires 1 <= k < n
    ensures Leibniz(n - 1, k) * (Leibniz(n, k) + Leibniz(n, k + 1)) == Leibniz(n, k) * Leibniz(n, k + 1)
  {
    var a, b, c := Binomial(n - 1, k - 1), Binomial(n - 1, k), Binomial(n, k);
    Absorption(n, k);
    Absorption(n, k + 1);
    LeibnizAlgebra(n, k, a, b, c);
  }

  lemma LeibnizAlgebra(n: int, k: int, a: int, b: int, c: int)
    requires c == a + b && k * c == n * a
    ensures (k * b) * (k * c + n * b) == (k * c) * (n * b)
  {
    assert k * c + n * b == n * c;
    assert (k * b) * (n * c) == (k * c) * (n * b);
  }

  // The rule moves divisibility one step along a row of the triangle.
  lemma HarmonicStep(x: nat, y: nat, z: nat, m: nat)
    requires x > 0 && z > 0 && y * (x + z) == x * z
    requires Divides(x, m) && Divides(y, m)
    ensures Divides(z, m)
  {
    var u, v := m / x, m / y;
    DividesElim(x, m);
    DividesElim(y, m);
    calc {
      m * x + m * z;
      m * (x + z);
      (y * v) * (x + z);
      (y * (x + z)) * v;
      (x * z) * v;
      x * (z * v);
    }
    assert m * z == x * (z * u) by { assert m * z == (x * u) * z; }
    assert x * m == x * (z * v) - x * (z * u);
    assert x * (z * v) - x * (z * u) == x * (z * v - z * u);
    assert m == z * v - z * u;
    assert z * v - z * u == z * (v - u);
    DividesIntro(z, v - u, m);
  }

  lemma LeibnizPositive(n: nat, k: nat)
    requires 1 <= k <= n
    ensures Leibniz(n, k) > 0
  {
    BinomialPositive(n, k);
    MulLe(1, Binomial(n, k), k);
  }

  lemma {:induction false} LeibnizDivides(n: nat, k: nat, m: nat)
    requires 1 <= k <= n
    requires forall i :: 1 <= i <= n ==> Divides(i, m)
    ensures Divides(Leibniz(n, k), m)
    decreases n, k
  {
    if k == 1 {
      Absorption(n, 1);
      assert Leibniz(n, 1) == n;
    } else {
      LeibnizDivides(n, k - 1, m);
      LeibnizDivides(n - 1, k - 1, m);
      LeibnizRule(n, k - 1);
      LeibnizPositive(n, k - 1);
      LeibnizPositive(n, k);
      HarmonicStep(Leibniz(n, k - 1), Leibniz(n - 1, k - 1), Leibniz(n, k), m);
    }
  }

  // The two middle entries of an odd row are equal, so the middle grows fourfold.
  lemma MiddleStep(h: int, even: int, odd: int)
    requires h > 0 && odd >= 0
    requires h * (even + odd) == (2 * h) * even
    ensures (2 * h + 1) * (even + odd) >= 4 * (h * odd)
  {
    assert h * (even + odd) - (2 * h) * even == h * (odd - even);
    assert odd == even;
    assert (2 * h + 1) * (2 * odd) == 4 * (h * odd) + 2 * odd;
  }

  lemma {:induction false} MiddleLarge(h: nat)
    ensures Leibniz(2 * h + 1, h + 1) >= Pow(4, h)
  {
    if h > 0 {
      MiddleLarge(h - 1);
      var even, odd := Binomial(2 * h - 1, h - 1), Binomial(2 * h - 1, h);
      Absorption(2 * h, h);
      Absorption(2 * h + 1, h + 1);
      assert Binomial(2 * h, h) == even + odd;
      MiddleStep(h, even, odd);
      assert Leibniz(2 * (h - 1) + 1, h) == h * odd;
      assert Leibniz(2 * h + 1, h + 1) == (2 * h + 1) * Binomial(2 * h, h);
      assert (2 * h + 1) * Binomial(2 * h, h) == (2 * h + 1) * (even + odd);
    } else {
      assert Binomial(1, 1) == 1;
    }
  }

  // ---------- upper bound: a small common multiple from few primes ----------

  // The greatest power of q that is not above n.
  function TopPower(q: nat, n: nat): (r: nat)
    requires q >= 2 && n >= 1
    ensures 1 <= r <= n
  {
    if n < q then 1 else
      assert 1 <= n / q < n by { QuotientBounds(q, n); }
      var r := TopPower(q, n / q);
      MulLe(r, n / q, q);
      MulLe(1, r, q);
      q * r
  }

  lemma QuotientBounds(q: nat, n: nat)
    requires 2 <= q <= n
    ensures 1 <= n / q < n
  {
    if n / q <= 0 {
      MulLe(n / q, 0, q);
    } else {
      MulLe(2, q, n / q);
    }
  }

  // The part of i made of the factor q alone.
  function PowerPart(i: nat, q: nat): (r: nat)
    requires i >= 1 && q >= 2
    ensures r >= 1
  {
    if Divides(q, i) then
      assert 1 <= i / q < i by { DividesLe(q, i); QuotientBounds(q, i); }
      var r := PowerPart(i / q, q);
      MulLe(1, r, q);
      q * r
    else 1
  }

  // Splits off the factor q.
  lemma {:induction false} PowerPartSplits(i: nat, q: nat) returns (rest: nat)
    requires i >= 1 && q >= 2
    ensures i == PowerPart(i, q) * rest && rest >= 1
    ensures !Divides(q, rest)
    decreases i
  {
    if Divides(q, i) {
      DividesElim(q, i);
      DividesLe(q, i);
      QuotientBounds(q, i);
      rest := PowerPartSplits(i / q, q);
      MulAssociative(q, PowerPart(i / q, q), rest);
    } else {
      rest := i;
    }
  }

  lemma {:induction false} PowerPartInTop(i: nat, q: nat, n: nat)
    requires 1 <= i <= n && q >= 2
    ensures Divides(PowerPart(i, q), TopPower(q, n))
    decreases i
  {
    if Divides(q, i) {
      DividesLe(q, i);
      QuotientBounds(q, i);
      DivMonotone(i, n, q);
      PowerPartInTop(i / q, q, n / q);
      DividesProduct(q, PowerPart(i / q, q), q, TopPower(q, n / q));
    }
  }

  lemma DivMonotone(a: nat, b: nat, q: nat)
    requires a <= b && q > 0
    ensures a / q <= b / q
  {
    if a / q >= b / q + 1 {
      MulLe(b / q + 1, a / q, q);
    }
  }

  function SmallMultiple(p: nat, n: nat): nat
    requires n >= 1
  {
    if p < 2 then 1 else SmallMultiple(p - 1, n) * TopPower(p, n)
  }

  lemma {:induction false} SmallMultipleBound(p: nat, n: nat)
    requires n >= 1 && p >= 1
    ensures 1 <= SmallMultiple(p, n) <= Pow(n, p - 1)
  {
    if p >= 2 {
      SmallMultipleBound(p - 1, n);
      var s, t := SmallMultiple(p - 1, n), TopPower(p, n);
      MulLe(1, s, t);
      MulLe(t, n, s);
      MulLe(s, Pow(n, p - 2), n);
    }
  }

  // A number whose prime factors are at most p divides the small multiple.
  lemma {:induction false} SmoothDivides(i: nat, p: nat, n: nat)
    requires 1 <= i <= n && p >= 1
    requires forall q: nat :: Prime(q) && Divides(q, i) ==> q <= p
    ensures Divides(i, SmallMultiple(p, n))
    decreases p
  {
    if p < 2 {
      if i >= 2 {
        var q := PrimeFactor(i);
        assert false;
      }
    } else if Prime(p) && Divides(p, i) {
      var rest := PowerPartSplits(i, p);
      assert rest <= i by { assert PowerPart(i, p) * rest >= 1 * rest; }
      DividesIntro(rest, PowerPart(i, p), i);
      forall q: nat | Prime(q) && Divides(q, rest)
        ensures q <= p - 1
      {
        DividesTransitive(q, rest, i);
      }
      SmoothDivides(rest, p - 1, n);
      PowerPartInTop(i, p, n);
      DividesProduct(rest, PowerPart(i, p), SmallMultiple(p - 1, n), TopPower(p, n));
      assert rest * PowerPart(i, p) == i;
    } else {
      SmoothDivides(i, p - 1, n);
      DividesMultiple(i, SmallMultiple(p - 1, n), TopPower(p, n));
    }
  }

  // ---------- the two bounds collide ----------

  lemma {:induction false} SquareBelowPower(p: nat)
    requires p >= 4
    ensures p * p <= Pow(2, p)
  {
    if p == 4 {
      assert Pow(2, 4) == 2 * Pow(2, 3) == 4 * Pow(2, 2) == 8 * Pow(2, 1) == 16;
    } else {
      SquareBelowPower(p - 1);
      assert p * p <= 2 * ((p - 1) * (p - 1)) by {
        var q := p - 1;
        assert p * p == q * q + 2 * q + 1;
        assert q * q >= 4 * q;
      }
    }
  }

  lemma GapNumbers(p: nat, h: nat)
    requires p >= 4 && h == (p * p - 1) / 2
    ensures 2 * h + 1 <= p * p
    ensures Pow(4, h) > Pow(2 * h + 1, p - 1)
  {
    var e := p * (p - 1);
    assert p * p == e + p;
    assert 2 * h >= p * p - 2 > e;
    assert Pow(2, 2) == 2 * Pow(2, 1) == 4;
    PowMul(2, 2, h);
    PowAdd(2, e, 2 * h - e);
    PowPositive(2, e);
    PowPositive(2, 2 * h - e - 1);
    assert Pow(2, 2 * h - e) == 2 * Pow(2, 2 * h - e - 1) >= 2;
    assert Pow(2, 2 * h) >= 2 * Pow(2, e);
    PowMul(2, p, p - 1);
    SquareBelowPower(p);
    PowMonotone(2 * h + 1, p * p, p - 1);
    PowMonotone(p * p, Pow(2, p), p - 1);
  }

  lemma PrimeBetween(p: nat) returns (q: nat)
    requires p >= 2
    ensures p < q < p * p && Prime(q)
  {
    if p == 2 {
      q := 3;
      assert Prime(3);
    } else if p == 3 {
      q := 5;
      assert Prime(5);
    } else if forall r :: p < r < p * p ==> !Prime(r) {
      var h := (p * p - 1) / 2;
      var n := 2 * h + 1;
      GapNumbers(p, h);
      var m := SmallMultiple(p, n);
      forall i | 1 <= i <= n
        ensures Divides(i, m)
      {
        forall r: nat | Prime(r) && Divides(r, i)
          ensures r <= p
        {
          DividesLe(r, i);
          if r == p * p {
            DividesIntro(p, p, r);
          }
        }
        SmoothDivides(i, p, n);
      }
      LeibnizDivides(n, h + 1, m);
      SmallMultipleBound(p, n);
      DividesLe(Leibniz(n, h + 1), m);
      MiddleLarge(h);
      assert false;
    } else {
      q :| p < q < p * p && Prime(q);
    }
  }
}
