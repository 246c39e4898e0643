/** Greatest common divisors and least common multiples, and the C routines of lcmc.c
    that compute them with subtraction only. */
module Lcm {
  import opened Divisibility

  const INT_LIMIT: int := 0x8000_0000

  // The value both the C loop and the assembly loops compute.
  function Gcd(a: nat, b: nat): (g: nat)
    requires a > 0 && b > 0
    ensures g > 0 && g <= a && g <= b
    decreases a + b
  {
    if a == b then a
    else if a > b then Gcd(a - b, b)
    else Gcd(a, b - a)
  }

  lemma DividesDifference(d: nat, x: nat, y: nat)
    requires Divides(d, y) && x >= y
    ensures Divides(d, x) <==> Divides(d, x - y)
  {
    DividesElim(d, y);
    if Divides(d, x) {
      DividesElim(d, x);
      DividesIntro(d, x / d - y / d, x - y);
    }
    if Divides(d, x - y) {
      DividesElim(d, x - y);
      DividesIntro(d, (x - y) / d + y / d, x);
    }
  }

  // A number divides both arguments exactly when it divides their gcd.
  lemma {:induction false} GcdMeaning(a: nat, b: nat, d: nat)
    requires a > 0 && b > 0
    ensures Divides(d, Gcd(a, b)) <==> Divides(d, a) && Divides(d, b)
    decreases a + b
  {
    if a > b {
      GcdMeaning(a - b, b, d);
      if Divides(d, b) { DividesDifference(d, a, b); }
    } else if a < b {
      GcdMeaning(a, b - a, d);
      if Divides(d, a) { DividesDifference(d, b, a); }
    }
  }

  lemma GcdDivides(a: nat, b: nat)
    requires a > 0 && b > 0
    ensures Divides(Gcd(a, b), a) && Divides(Gcd(a, b), b)
  {
    DividesIntro(Gcd(a, b), 1, Gcd(a, b));
    GcdMeaning(a, b, Gcd(a, b));
  }

  lemma {:induction false} Bezout(a: nat, b: nat) returns (x: int, y: int)
    requires a > 0 && b > 0
    ensures a * x + b * y == Gcd(a, b)
    decreases a + b
  {
    if a == b {
      x, y := 1, 0;
    } else if a > b {
      var u, v := Bezout(a - b, b);
      Shift(a, b, u, v);
      x, y := u, v - u;
    } else {
      var u, v := Bezout(a, b - a);
      Shift(b, a, v, u);
      x, y := u - v, v;
    }
  }

  lemma Shift(a: int, b: int, x: int, y: int)
    ensures (a - b) * x + b * y == a * x + b * (y - x)
  {
  }

  function LeastMultiple(a: nat, b: nat): nat
    requires a > 0 && b > 0
  {
    (a * b) / Gcd(a, b)
  }

  lemma CofactorAlgebra(a: int, b: int, g: int, s: int, t: int)
    requires a == g * s && b == g * t
    ensures a * t == b * s && a * b == g * (a * t)
  {
    assert (g * s) * t == (g * t) * s;
    assert a * (g * t) == g * (a * t);
  }

  lemma LeastMultipleShape(a: nat, b: nat) returns (l: nat)
    requires a > 0 && b > 0
    ensures l == LeastMultiple(a, b) > 0 && l * Gcd(a, b) == a * b
    ensures Divides(a, l) && Divides(b, l)
  {
    var g := Gcd(a, b);
    GcdDivides(a, b);
    DividesElim(g, a);
    DividesElim(g, b);
    var s, t := a / g, b / g;
    CofactorAlgebra(a, b, g, s, t);
    l := a * t;
    if t <= 0 { MulLe(t, 0, g); }
    MulLe(1, t, a);
    DividesIntro(g, l, a * b);
    DividesIntro(a, t, l);
    DividesIntro(b, s, l);
  }

  // The quotient a * b / gcd is a common multiple and divides every other one.
  lemma LeastMultipleMeaning(a: nat, b: nat, m: nat)
    requires a > 0 && b > 0
    ensures LeastMultiple(a, b) > 0 && LeastMultiple(a, b) * Gcd(a, b) == a * b
    ensures Divides(LeastMultiple(a, b), m) <==> Divides(a, m) && Divides(b, m)
  {
    var l := LeastMultipleShape(a, b);
    if Divides(l, m) {
      DividesTransitive(a, l, m);
      DividesTransitive(b, l, m);
    }
    if Divides(a, m) && Divides(b, m) {
      CommonMultiple(a, b, m);
    }
  }

  lemma CommonMultiple(a: nat, b: nat, m: nat)
    requires a > 0 && b > 0 && Divides(a, m) && Divides(b, m)
    requires LeastMultiple(a, b) > 0 && LeastMultiple(a, b) * Gcd(a, b) == a * b
    ensures Divides(LeastMultiple(a, b), m)
  {
    var g, l := Gcd(a, b), LeastMultiple(a, b);
    var x, y := Bezout(a, b);
    var u, v := m / a, m / b;
    DividesElim(a, m);
    DividesElim(b, m);
    BezoutScaled(a, b, g, l, x, y, u, v, m);
    DividesIntro(l, v * x + u * y, m);
  }

  lemma BezoutScaled(a: int, b: int, g: int, l: int, x: int, y: int, u: int, v: int, m: int)
    requires g > 0 && a * x + b * y == g && l * g == a * b && m == a * u == b * v
    ensures m == l * (v * x + u * y)
  {
    var w := v * x + u * y;
    assert m * g == m * (a * x) + m * (b * y);
    assert m * (a * x) == (b * v) * (a * x) == (a * b) * (v * x);
    assert m * (b * y) == (a * u) * (b * y) == (a * b) * (u * y);
    assert m * g == (a * b) * w == (l * g) * w == (l * w) * g;
    var e := m - l * w;
    assert e * g == 0;
  }

  // ---------- lcmc.c ----------

  predicate IsInt(x: int) { -INT_LIMIT <= x < INT_LIMIT }

  // Division of C and of the Run-time ABI: truncation toward zero.
  function TruncDiv(a: int, b: int): int
    requires b != 0
  {
    if (a >= 0) == (b >= 0) then AbsInt(a) / AbsInt(b) else -(AbsInt(a) / AbsInt(b))
  }

  function AbsInt(x: int): nat { if x < 0 then -x else x }

  // It is the quotient whose remainder is smaller than the divisor and has the sign of the
  // dividend.
  lemma TruncDivMeaning(a: int, b: int)
    requires b != 0
    ensures var r := a - TruncDiv(a, b) * b;
      && (if b > 0 then -b < r < b else b < r < -b)
      && (a >= 0 ==> r >= 0) && (a <= 0 ==> r <= 0)
  {
    var m, n := AbsInt(a), AbsInt(b);
    var q := m / n;
    assert m == n * q + m % n;
    assert (-q) * b == -(q * b) && q * (-b) == -(q * b);
  }

  method Gcfc(a: int, b: int) returns (r: int)
    requires IsInt(a) && IsInt(b)
    requires (a > 0 && b > 0) || a == b
    ensures r == if a == b then a else Gcd(a, b)
  {
    var x, y := a, b;
    while x != y
      invariant a != b ==> x > 0 && y > 0 && Gcd(x, y) == Gcd(a, b)
      invariant a == b ==> x == y == a
      decreases x + y
    {
      if x > y {
        x := x - y;
      } else {
        y := y - x;
      }
    }
    r := x;
  }

  // The quotient by repeated subtraction; a dividend below the divisor gives zero.
  function Quotient(a: int, b: int): (q: nat)
    requires b > 0 || a < b
    decreases if a > 0 then a else 0
  {
    if a >= b then 1 + Quotient(a - b, b) else 0
  }

  lemma {:induction false} QuotientMeaning(a: int, b: int)
    requires b > 0
    ensures a >= 0 ==> Quotient(a, b) == a / b
    ensures a >= 0 ==> 0 <= a - Quotient(a, b) * b < b
    ensures a < 0 ==> Quotient(a, b) == 0
    decreases if a > 0 then a else 0
  {
    if a >= b {
      QuotientMeaning(a - b, b);
      var q := Quotient(a, b);
      assert q * b == (q - 1) * b + b;
      QuotientUnique(a, b, q);
    } else if a >= 0 {
      QuotientUnique(a, b, 0);
    }
  }

  lemma QuotientUnique(a: int, b: int, q: int)
    requires b > 0 && 0 <= a - q * b < b
    ensures a / b == q
  {
    var x := a / b - q;
    assert b * x == (a - q * b) - a % b;
    if x >= 1 {
      MulLe(1, x, b);
    } else if x <= -1 {
      MulLe(x, -1, b);
    }
  }

  // The quotient and remainder by subtraction are those of C exactly when the dividend is
  // above the negated divisor.
  lemma QuotientTruncates(a: int, b: int)
    requires b > 0
    ensures Quotient(a, b) == TruncDiv(a, b) <==> a > -b
  {
    QuotientMeaning(a, b);
    if a < 0 {
      if a > -b {
        QuotientUnique(-a, b, 0);
      } else {
        QuotientMeaning(-a, b);
        assert Quotient(-a, b) > 0;
      }
    }
  }

  // Below that the routine gives zero and a negative remainder, and C another pair.
  lemma QuotientDiffers()
    ensures Quotient(-5, 3) == 0 && TruncDiv(-5, 3) == -1
    ensures -5 - Quotient(-5, 3) * 3 == -5 && -5 - TruncDiv(-5, 3) * 3 == -2
  {
  }

  method Divide(a: int, b: int) returns (cnt: int)
    requires IsInt(a) && IsInt(b) && (b > 0 || a < b)
    ensures cnt == Quotient(a, b)
    ensures b > 0 ==> (cnt == TruncDiv(a, b) <==> a > -b)
  {
    var r := a;
    cnt := 0;
    while r >= b
      invariant b > 0 || r < b
      invariant cnt + Quotient(r, b) == Quotient(a, b)
      decreases if r > 0 then r else 0
    {
      r := r - b;
      cnt := cnt + 1;
    }
    if b > 0 {
      QuotientTruncates(a, b);
    }
  }

  method Remain(a: int, b: int) returns (r: int)
    requires IsInt(a) && IsInt(b) && (b > 0 || a < b)
    ensures r == a - Quotient(a, b) * b
    ensures b > 0 ==> (r == a - TruncDiv(a, b) * b <==> a > -b)
  {
    r := a;
    ghost var cnt := 0;
    while r >= b
      invariant b > 0 || r < b
      invariant cnt + Quotient(r, b) == Quotient(a, b)
      invariant r == a - cnt * b
      decreases if r > 0 then r else 0
    {
      r := r - b;
      cnt := cnt + 1;
    }
    if b > 0 {
      QuotientTruncates(a, b);
      var x := TruncDiv(a, b) - Quotient(a, b);
      assert (a - Quotient(a, b) * b) - (a - TruncDiv(a, b) * b) == x * b;
      if x != 0 {
        assert x * b != 0;
      }
    }
  }

  method Lcmc(a: int, b: int) returns (lcm: int)
    requires a > 0 && b > 0 && IsInt(a) && IsInt(b) && a * b < 0x8000_0000
    ensures lcm == LeastMultiple(a, b)
  {
    var g := Gcfc(a, b);
    assert g == Gcd(a, b);
    QuotientMeaning(a * b, g);
    lcm := Divide(a * b, g);
  }
}
