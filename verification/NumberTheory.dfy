/** The number theory loops of src/abs_stats.c over unbounded integers. */
module NumberTheory {
  import opened Common

  // ---------------------------------------------------------------- divisibility

  ghost predicate Divides(d: int, n: int) {
    exists q: int :: n == d * q
  }

  lemma DividesIsRemainder(d: int, n: int)
    requires d > 0
    ensures Divides(d, n) <==> n % d == 0
  {
    if n % d == 0 {
      assert n == d * (n / d);
    }
    if q: int :| n == d * q {
      MultipleRemainder(d, q);
    }
  }

  lemma MultipleRemainder(d: int, q: int)
    requires d > 0
    ensures (d * q) % d == 0
  {
    var p, r := (d * q) / d, (d * q) % d;
    assert r == d * (q - p) by { assert d * q == d * p + r; }
    TimesAtLeast(d, q - p);
    TimesAtLeast(d, p - q);
  }

  lemma TimesAtLeast(d: int, k: int)
    requires d > 0
    ensures k >= 1 ==> d * k >= d
    ensures d * -k == -(d * k)
  {}

  lemma DividesTrans(p: int, d: int, n: int)
    requires Divides(p, d) && Divides(d, n)
    ensures Divides(p, n)
  {
    var a: int :| d == p * a;
    var b: int :| n == d * b;
    assert n == p * (a * b);
  }

  // ---------------------------------------------------------------- primes

  ghost predicate Prime(n: int) {
    n >= 2 && forall d :: 2 <= d < n ==> !Divides(d, n)
  }

  /** No divisor from 2 up to but not including m. */
  ghost predicate NoneBelow(n: int, m: int) {
    forall d :: 2 <= d < m ==> !Divides(d, n)
  }

  lemma SmallFactor(p: int, d: int, n: int)
    requires Divides(p, d) && !Divides(p, n)
    ensures !Divides(d, n)
  {
    if Divides(d, n) { DividesTrans(p, d, n); }
  }

  /** Testing i and i + 2 for i = 5 modulo 6 leaves no divisor up to i + 5 out. */
  lemma SixStep(n: int, i: int)
    requires i >= 5 && i % 6 == 5 && NoneBelow(n, i) && !Divides(2, n) && !Divides(3, n)
    requires !Divides(i, n) && !Divides(i + 2, n)
    ensures NoneBelow(n, i + 6)
  {
    var k := i / 6;
    assert i + 1 == 2 * (3 * k + 3) && i + 3 == 2 * (3 * k + 4) && i + 5 == 2 * (3 * k + 5) && i + 4 == 3 * (2 * k + 3);
    SmallFactor(2, i + 1, n);
    SmallFactor(2, i + 3, n);
    SmallFactor(3, i + 4, n);
    SmallFactor(2, i + 5, n);
  }

  /** Without a divisor up to its square root a number is prime. */
  lemma RootSuffices(n: int, m: int)
    requires n >= 2 && m >= 2 && m * m > n && NoneBelow(n, m)
    ensures Prime(n)
  {
    forall d | 2 <= d < n ensures !Divides(d, n) {
      if Divides(d, n) {
        var q: int :| n == d * q;
        if d >= m {
          Cofactor(n, d, q, m);
          assert n == q * d;
          assert Divides(q, n);
        }
      }
    }
  }

  lemma Cofactor(n: int, d: int, q: int, m: int)
    requires 2 <= m <= d < n && n == d * q && m * m > n
    ensures 2 <= q < m
  {}

  /** abs_is_prime. */
  method IsPrime(n: int) returns (r: bool)
    ensures r <==> Prime(n)
  {
    if n <= 1 {
      return false;
    }
    if n <= 3 {
      if n == 3 { DividesIsRemainder(2, 3); }
      return true;
    }
    DividesIsRemainder(2, n);
    DividesIsRemainder(3, n);
    if n % 2 == 0 || n % 3 == 0 {
      return false;
    }
    if Divides(4, n) { assert 4 == 2 * 2; DividesTrans(2, 4, n); }
    var i := 5;
    while i * i <= n
      invariant i >= 5 && i % 6 == 5 && NoneBelow(n, i)
      decreases n - i
    {
      DividesIsRemainder(i, n);
      DividesIsRemainder(i + 2, n);
      BelowSquare(i, n);
      if n % i == 0 || n % (i + 2) == 0 {
        return false;
      }
      SixStep(n, i);
      i := i + 6;
    }
    RootSuffices(n, i);
    return true;
  }

  lemma BelowSquare(i: int, n: int)
    requires i >= 5 && i * i <= n
    ensures i + 2 < n
  {}

  // ---------------------------------------------------------------- gcd and lcm

  function Abs(x: int): int {
    if x < 0 then -x else x
  }

  /** g is a common divisor of a and b that every common divisor divides. */
  ghost predicate IsGcd(g: int, a: int, b: int) {
    && g >= 0 && Divides(g, a) && Divides(g, b)
    && forall d :: Divides(d, a) && Divides(d, b) ==> Divides(d, g)
  }

  lemma DividesCombination(d: int, a: int, b: int, q: int)
    requires Divides(d, a) && Divides(d, b)
    ensures Divides(d, a + b * q)
  {
    var x: int :| a == d * x;
    var y: int :| b == d * y;
    assert a + b * q == d * (x + y * q) by {
      assert (d * y) * q == d * (y * q);
    }
  }

  lemma DividesNegated(d: int, a: int)
    ensures Divides(d, a) <==> Divides(d, -a)
  {
    if x: int :| a == d * x { assert -a == d * (-x); }
    if x: int :| -a == d * x { assert a == d * (-x); }
  }

  /** One division step keeps the common divisors. */
  lemma SameCommon(d: int, a: int, b: int)
    requires b > 0
    ensures Divides(d, a) && Divides(d, b) <==> Divides(d, b) && Divides(d, a % b)
  {
    var q := a / b;
    assert a % b == a + b * (-q) && a == a % b + b * q;
    if Divides(d, a) && Divides(d, b) { DividesCombination(d, a, b, -q); }
    if Divides(d, b) && Divides(d, a % b) { DividesCombination(d, a % b, b, q); }
  }

  ghost predicate SameDivisors(a: int, b: int, c: int, d: int) {
    forall x {:trigger Divides(x, c)} {:trigger Divides(x, a)} ::
      Divides(x, a) && Divides(x, b) <==> Divides(x, c) && Divides(x, d)
  }

  lemma SameDivisorsStep(a: int, b: int, c: int, d: int)
    requires SameDivisors(a, b, c, d) && d > 0
    ensures SameDivisors(a, b, d, c % d)
  {
    forall x {:trigger Divides(x, d)} ensures Divides(x, a) && Divides(x, b) <==> Divides(x, d) && Divides(x, c % d) {
      SameCommon(x, c, d);
      assert Divides(x, a) && Divides(x, b) <==> Divides(x, c) && Divides(x, d);
    }
  }

  /** The combination of a and b with the given factors. */
  ghost function Combine(a: int, b: int, u: int, v: int): int {
    a * u + b * v
  }

  /** What Euclid's loop keeps: the common divisors of a and b are those of g and r, which are both
      combinations of a and b. */
  ghost predicate Euclid(a: int, b: int, g: int, r: int, x: int, y: int, u: int, v: int) {
    && g >= 0 && r >= 0 && SameDivisors(a, b, g, r) && (g == 0 && r == 0 <==> a == 0 && b == 0)
    && g == Combine(a, b, x, y) && r == Combine(a, b, u, v)
  }

  lemma CombineStep(a: int, b: int, x: int, y: int, u: int, v: int, q: int)
    ensures Combine(a, b, x - u * q, y - v * q) == Combine(a, b, x, y) - Combine(a, b, u, v) * q
  {}

  lemma EuclidStep(a: int, b: int, g: int, r: int, x: int, y: int, u: int, v: int)
    requires Euclid(a, b, g, r, x, y, u, v) && r > 0
    ensures Euclid(a, b, r, g % r, u, v, x - u * (g / r), y - v * (g / r))
  {
    SameDivisorsStep(a, b, g, r);
    CombineStep(a, b, x, y, u, v, g / r);
    assert g % r == g - r * (g / r);
  }

  lemma EuclidStart(a: int, b: int)
    ensures Euclid(a, b, Abs(a), Abs(b), if a < 0 then -1 else 1, 0, 0, if b < 0 then -1 else 1)
  {
    forall d {:trigger Divides(d, a)}
      ensures Divides(d, a) && Divides(d, b) <==> Divides(d, Abs(a)) && Divides(d, Abs(b))
    {
      DividesNegated(d, a);
      DividesNegated(d, b);
    }
  }

  lemma EuclidDone(a: int, b: int, g: int, x: int, y: int, u: int, v: int)
    requires Euclid(a, b, g, 0, x, y, u, v)
    ensures IsGcd(g, a, b)
  {
    assert g == g * 1 && 0 == g * 0;
    assert Divides(g, g) && Divides(g, 0);
    forall d | Divides(d, a) && Divides(d, b) ensures Divides(d, g) {
      assert Divides(d, g) && Divides(d, 0);
    }
  }

  /** abs_gcd: Euclid's algorithm on the absolute values. The result is also a combination of a
      and b, with factors x and y. */
  method Gcd(a: int, b: int) returns (g: int, ghost x: int, ghost y: int)
    ensures IsGcd(g, a, b) && g == Combine(a, b, x, y) && (g == 0 <==> a == 0 && b == 0)
  {
    g := if a < 0 then -a else a;
    var r := if b < 0 then -b else b;
    x, y := if a < 0 then -1 else 1, 0;
    ghost var u, v := 0, if b < 0 then -1 else 1;
    EuclidStart(a, b);
    while r != 0
      invariant Euclid(a, b, g, r, x, y, u, v)
      decreases r
    {
      EuclidStep(a, b, g, r, x, y, u, v);
      x, y, u, v := u, v, x - u * (g / r), y - v * (g / r);
      var t := r;
      r := g % r;
      g := t;
    }
    EuclidDone(a, b, g, x, y, u, v);
  }

  /** l is a common multiple of a and b that divides every common multiple. */
  ghost predicate IsLcm(l: int, a: int, b: int) {
    && l >= 0 && Divides(a, l) && Divides(b, l)
    && forall m :: Divides(a, m) && Divides(b, m) ==> Divides(l, m)
  }

  lemma Distribute(a: int, b: int, c: int)
    ensures (a + b) * c == a * c + b * c && c * (a + b) == c * a + c * b
  {}

  /** With g = a x + b y and a = g c, the product c b divides every common multiple of a and b. */
  lemma ProductDivides(a: int, b: int, g: int, c: int, x: int, y: int, m: int)
    requires a == g * c && g == Combine(a, b, x, y) && Divides(a, m) && Divides(b, m)
    ensures Divides(c * b, m)
  {
    var p: int :| m == a * p;
    var q: int :| m == b * q;
    ProductFactor(a, b, g, c, x, y, m, p, q);
  }

  lemma ProductFactor(a: int, b: int, g: int, c: int, x: int, y: int, m: int, p: int, q: int)
    requires a == g * c && g == a * x + b * y && m == a * p && m == b * q
    ensures m == (c * b) * (x * q + y * p)
  {}

  lemma CancelFactor(m: int, n: int, g: int)
    requires g != 0 && m * g == n * g
    ensures m == n
  {}

  /** abs_lcm. */
  method Lcm(a: int, b: int) returns (l: int)
    ensures IsLcm(l, a, b)
  {
    var g;
    ghost var x, y;
    g, x, y := Gcd(a, b);
    if g == 0 {
      assert 0 == 0 * 0;
      return 0;
    }
    DividesIsRemainder(g, a);
    var c := a / g;
    var r := c * b;
    l := if r < 0 then -r else r;
    LcmOfProduct(a, b, g, c, x, y);
    DividesNegated(a, r);
    DividesNegated(b, r);
    forall m | Divides(a, m) && Divides(b, m) ensures Divides(l, m) {
      ProductDivides(a, b, g, c, x, y, m);
      NegatedDivides(r, m);
    }
  }

  lemma NegatedDivides(d: int, a: int)
    requires Divides(d, a)
    ensures Divides(-d, a)
  {
    var x: int :| a == d * x;
    assert a == -d * -x;
  }

  lemma LcmOfProduct(a: int, b: int, g: int, c: int, x: int, y: int)
    requires g > 0 && a == g * c && Divides(g, b)
    ensures Divides(a, c * b) && Divides(b, c * b)
  {
    var d: int :| b == g * d;
    assert c * b == a * d by { assert c * (g * d) == (g * c) * d; }
    assert c * b == b * c;
  }

  // ---------------------------------------------------------------- binomial coefficients

  /** Pascal's triangle. */
  function Choose(n: nat, k: nat): nat {
    if k == 0 then 1 else if n == 0 then 0 else Choose(n - 1, k - 1) + Choose(n - 1, k)
  }

  /** fact_rec. */
  function Factorial(n: nat): (r: nat)
    ensures r > 0
  {
    if n <= 1 then 1 else Times(n, Factorial(n - 1))
  }

  function Times(a: nat, b: nat): (r: nat)
    ensures a > 0 && b > 0 ==> r > 0
  {
    a * b
  }

  /** The step of the loop: the next coefficient of a row from the one before. */
  lemma {:induction false} Absorption(n: nat, k: nat)
    requires k <= n
    ensures (k + 1) * Choose(n, k + 1) == (n - k) * Choose(n, k)
  {
    if n == 0 {
    } else if k == n {
      ChooseNone(n, k + 1);
    } else if k == 0 {
      Absorption(n - 1, 0);
    } else {
      Absorption(n - 1, k);
      Absorption(n - 1, k - 1);
      AbsorptionStep(n, k, Choose(n - 1, k), Choose(n - 1, k + 1), Choose(n - 1, k - 1));
    }
  }

  lemma AbsorptionStep(n: int, k: int, a: int, b: int, c: int)
    requires (k + 1) * b == (n - 1 - k) * a && k * a == (n - k) * c
    ensures (k + 1) * (a + b) == (n - k) * (c + a)
  {}

  lemma {:induction false} ChooseNone(n: nat, k: nat)
    requires k > n
    ensures Choose(n, k) == 0
  {
    if n == 0 {
    } else {
      ChooseNone(n - 1, k - 1);
      ChooseNone(n - 1, k);
    }
  }

  /** The factorial form, without division. */
  lemma {:induction false} FactorialForm(n: nat, k: nat)
    requires k <= n
    ensures Choose(n, k) * (Factorial(k) * Factorial(n - k)) == Factorial(n)
  {
    if k == 0 {
    } else {
      FactorialForm(n, k - 1);
      Absorption(n, k - 1);
      var c, d, e := Choose(n, k), Choose(n, k - 1), n - k + 1;
      var p, q := Factorial(k - 1), Factorial(n - k);
      assert Factorial(k) == k * p && Factorial(e) == e * q;
      Regroup(c, k, p, q, d, e);
    }
  }

  lemma Regroup(c: int, k: int, p: int, q: int, d: int, e: int)
    requires k * c == e * d
    ensures c * ((k * p) * q) == d * (p * (e * q))
  {}

  lemma Symmetry(n: nat, k: nat)
    requires k <= n
    ensures Choose(n, k) == Choose(n, n - k)
  {
    FactorialForm(n, k);
    FactorialForm(n, n - k);
    var w := Factorial(k) * Factorial(n - k);
    assert Factorial(n - k) * Factorial(k) == w && w > 0;
    CancelFactor(Choose(n, k), Choose(n, n - k), w);
  }

  /** Every division in the loop is exact. */
  lemma LoopDivision(n: nat, i: nat)
    requires i < n
    ensures (Choose(n, i) * (n - i)) % (i + 1) == 0
    ensures Choose(n, i) * (n - i) / (i + 1) == Choose(n, i + 1)
  {
    Absorption(n, i);
    ExactQuotient(Choose(n, i) * (n - i), i + 1, Choose(n, i + 1));
  }

  lemma ExactQuotient(n: nat, w: nat, c: nat)
    requires w > 0 && n == w * c
    ensures n % w == 0 && n / w == c
  {
    MultipleRemainder(w, c);
    CancelFactor(n / w, c, w) by { assert n == w * (n / w); }
  }

  /** abs_nCr: the loop holds Choose(n, i), and each division in it is exact. */
  method NCr(n: int, r: int) returns (res: int)
    ensures res == if 0 <= r <= n then Choose(n, r) else 0
  {
    if r < 0 || r > n {
      return 0;
    }
    Symmetry(n, r);
    if r == 0 || r == n {
      assert Choose(n, 0) == 1;
      return 1;
    }
    var k := if r > n / 2 then n - r else r;
    res := 1;
    for i := 0 to k
      invariant res == Choose(n, i)
    {
      LoopDivision(n, i);
      assert (res * (n - i)) % (i + 1) == 0;
      res := res * (n - i) / (i + 1);
    }
  }

  /** nCr: the quotient of factorials. */
  function NCrByFactorials(n: int, r: int): Outcome<int> {
    if n < 0 || r < 0 || r > n then Error("nCr: 0 <= r <= n required")
    else Done(Quotient(Factorial(n), Factorial(r), Factorial(n - r)))
  }

  function Quotient(a: nat, b: nat, c: nat): nat
    requires b > 0 && c > 0
  {
    a / Times(b, c)
  }

  lemma ExactFactors(a: nat, b: nat, c: nat, d: nat)
    requires b > 0 && c > 0 && d * (b * c) == a
    ensures Quotient(a, b, c) == d && a % Times(b, c) == 0
  {
    ExactQuotient(a, Times(b, c), d);
  }

  /** The two ways to compute a binomial coefficient agree, and the quotient is exact. */
  lemma BothAgree(n: int, r: int)
    requires 0 <= r <= n
    ensures NCrByFactorials(n, r) == Done(Choose(n, r))
    ensures Factorial(n) % Times(Factorial(r), Factorial(n - r)) == 0
  {
    FactorialForm(n, r);
    ExactFactors(Factorial(n), Factorial(r), Factorial(n - r), Choose(n, r));
  }
}
