/** The determinant of a product and of a transpose (src/abs_matrix.c), through a uniqueness theorem:
    a function of matrices that is linear in each row and negated by a swap of neighbouring rows
    is the determinant up to its value at the identity. */
module MatrixLaws {
  import opened Common
  import opened Determinant

  // ---------------------------------------------------------------- uniqueness

  ghost predicate OfSize(m: Matrix, n: nat) {
    Square(m) && |m| == n
  }

  /** The law of linearity at one place. */
  ghost predicate LinearAt(f: Matrix -> real, m: Matrix, r: nat, a: real, u: Row, b: real, w: Row)
    requires r < |m| && |u| == |w|
  {
    f(m[r := Lin(a, u, b, w)]) == Times(a, f(m[r := u])) + Times(b, f(m[r := w]))
  }

  ghost predicate RowLinear(f: Matrix -> real, n: nat) {
    forall m: Matrix, r: nat, a, u: Row, b, w: Row {:trigger LinearAt(f, m, r, a, u, b, w)} ::
      OfSize(m, n) && r < n && |u| == |w| == n ==> LinearAt(f, m, r, a, u, b, w)
  }

  ghost predicate SwapNegates(f: Matrix -> real, n: nat) {
    forall m: Matrix, r: nat {:trigger SwapRows(m, r)} :: OfSize(m, n) && r + 1 < n ==> f(SwapRows(m, r)) == -f(m)
  }

  function Unit(n: nat, j: nat): (u: Row)
    ensures |u| == n
  {
    seq(n, k => if k == j then 1.0 else 0.0)
  }

  /** The matrix whose rows are the unit vectors numbered s. */
  function UnitRows(s: seq<nat>, n: nat): (m: Matrix)
    ensures |m| == |s| && forall i :: 0 <= i < |s| ==> m[i] == Unit(n, s[i])
  {
    seq(|s|, i requires 0 <= i < |s| => Unit(n, s[i]))
  }

  predicate Numbers(s: seq<nat>, n: nat) {
    |s| == n && forall i :: 0 <= i < n ==> s[i] < n
  }

  /** The first j entries of a row, then zeros. */
  function Cut(u: Row, j: nat): (r: Row)
    ensures |r| == |u|
  {
    seq(|u|, k requires 0 <= k < |u| => if k < j then u[k] else 0.0)
  }

  lemma CutStep(u: Row, j: nat)
    requires j < |u|
    ensures Cut(u, j + 1) == Lin(1.0, Cut(u, j), u[j], Unit(|u|, j))
  {
    forall k | 0 <= k < |u| ensures Cut(u, j + 1)[k] == Lin(1.0, Cut(u, j), u[j], Unit(|u|, j))[k] {
      OneZero(Cut(u, j)[k], u[j]);
    }
  }

  lemma OneZero(x: real, y: real)
    ensures Times(1.0, x) == x && Times(y, 0.0) == 0.0 && Times(y, 1.0) == y && Times(0.0, x) == 0.0
  {}

  /** From row k on the rows are unit vectors. */
  ghost predicate UnitFrom(m: Matrix, k: nat, s: seq<nat>, n: nat) {
    |s| == |m| == n && forall i :: k <= i < n ==> m[i] == Unit(n, s[i])
  }

  /** A row-linear function that vanishes where all rows are unit vectors vanishes everywhere. */
  lemma {:induction false} VanishFrom(f: Matrix -> real, n: nat, m: Matrix, k: nat, s: seq<nat>)
    requires RowLinear(f, n) && (forall p: seq<nat> :: Numbers(p, n) ==> f(UnitRows(p, n)) == 0.0)
    requires OfSize(m, n) && k <= n && Numbers(s, n) && UnitFrom(m, k, s, n)
    ensures f(m) == 0.0
    decreases k, 0
  {
    if k == 0 {
      assert m == UnitRows(s, n);
    } else {
      VanishCut(f, n, m, k, s, n);
      assert Cut(m[k - 1], n) == m[k - 1] && m[k - 1 := m[k - 1]] == m;
    }
  }

  lemma {:induction false} VanishCut(f: Matrix -> real, n: nat, m: Matrix, k: nat, s: seq<nat>, j: nat)
    requires RowLinear(f, n) && (forall p: seq<nat> :: Numbers(p, n) ==> f(UnitRows(p, n)) == 0.0)
    requires OfSize(m, n) && 0 < k <= n && j <= n && Numbers(s, n) && UnitFrom(m, k, s, n)
    ensures f(m[k - 1 := Cut(m[k - 1], j)]) == 0.0
    decreases k - 1, j + 1
  {
    var r, u := k - 1, m[k - 1];
    if j == 0 {
      var z := Cut(u, 0);
      assert LinearAt(f, m, r, 0.0, z, 0.0, z);
      assert Lin(0.0, z, 0.0, z) == z by { OneZero(0.0, 0.0); }
      OneZero(f(m[r := z]), 0.0);
    } else {
      VanishCut(f, n, m, k, s, j - 1);
      var c, e := Cut(u, j - 1), Unit(n, j - 1);
      CutStep(u, j - 1);
      assert LinearAt(f, m, r, 1.0, c, u[j - 1], e);
      VanishFrom(f, n, m[r := e], r, s[r := j - 1]);
      OneZero(0.0, u[j - 1]);
    }
  }

  function Total(s: seq<nat>): nat {
    if s == [] then 0 else Total(s[..|s| - 1]) + s[|s| - 1]
  }

  /** The sum of the totals of all prefixes: it shrinks when a smaller number moves to the front. */
  function Spread(s: seq<nat>): nat {
    if s == [] then 0 else Spread(s[..|s| - 1]) + Total(s)
  }

  function SwapNumbers(s: seq<nat>, i: nat): (t: seq<nat>)
    requires i + 1 < |s|
    ensures |t| == |s|
  {
    s[i := s[i + 1]][i + 1 := s[i]]
  }

  lemma {:induction false} TotalSwapped(s: seq<nat>, i: nat)
    requires i + 1 < |s|
    ensures Total(SwapNumbers(s, i)) == Total(s)
  {
    var t, k := SwapNumbers(s, i), |s| - 1;
    if i + 1 == k {
      assert t[..k] == s[..i] + [s[k]] && s[..k] == s[..i] + [s[i]];
      assert t[..k][..i] == s[..i] && s[..k][..i] == s[..i];
    } else {
      TotalSwapped(s[..k], i);
      assert t[..k] == SwapNumbers(s[..k], i);
    }
  }

  lemma {:induction false} SpreadSwapped(s: seq<nat>, i: nat)
    requires i + 1 < |s| && s[i + 1] < s[i]
    ensures Spread(SwapNumbers(s, i)) < Spread(s)
  {
    var t, k := SwapNumbers(s, i), |s| - 1;
    TotalSwapped(s, i);
    if i + 1 == k {
      assert t[..k] == s[..i] + [s[k]] && s[..k] == s[..i] + [s[i]];
      assert t[..k][..i] == s[..i] && s[..k][..i] == s[..i];
    } else {
      SpreadSwapped(s[..k], i);
      assert t[..k] == SwapNumbers(s[..k], i);
    }
  }

  /** Numbers below n that increase are 0, 1, ..., n - 1. */
  lemma {:induction false} Increasing(s: seq<nat>, n: nat, i: nat)
    requires Numbers(s, n) && (forall k :: 0 <= k && k + 1 < n ==> s[k] < s[k + 1]) && i < n
    ensures i <= s[i]
  {
    if i == 0 {
    } else {
      Increasing(s, n, i - 1);
    }
  }

  lemma {:induction false} IncreasingAbove(s: seq<nat>, n: nat, i: nat)
    requires Numbers(s, n) && (forall k :: 0 <= k && k + 1 < n ==> s[k] < s[k + 1]) && i < n
    ensures s[i] <= i
    decreases n - i
  {
    if i == n - 1 {
    } else {
      IncreasingAbove(s, n, i + 1);
    }
  }

  lemma UnitRowsSwapped(s: seq<nat>, n: nat, i: nat)
    requires Numbers(s, n) && i + 1 < n
    ensures OfSize(UnitRows(s, n), n) && UnitRows(SwapNumbers(s, i), n) == SwapRows(UnitRows(s, n), i)
  {}

  /** A function that swaps negate and that vanishes at the identity vanishes where all rows are unit
      vectors: sort the rows by swaps of neighbours. */
  lemma {:induction false} UnitsVanish(f: Matrix -> real, n: nat, s: seq<nat>)
    requires SwapNegates(f, n) && f(Eye(n)) == 0.0 && Numbers(s, n)
    ensures f(UnitRows(s, n)) == 0.0
    decreases Spread(s)
  {
    if i: nat :| i + 1 < n && s[i + 1] < s[i] {
      SpreadSwapped(s, i);
      UnitRowsSwapped(s, n, i);
      UnitsVanish(f, n, SwapNumbers(s, i));
    } else if i: nat :| i + 1 < n && s[i + 1] == s[i] {
      UnitRowsSwapped(s, n, i);
      assert SwapNumbers(s, i) == s;
    } else {
      forall i | 0 <= i < n ensures s[i] == i {
        Increasing(s, n, i);
        IncreasingAbove(s, n, i);
      }
      forall i | 0 <= i < n ensures UnitRows(s, n)[i] == Eye(n)[i] {}
      assert UnitRows(s, n) == Eye(n);
    }
  }

  ghost function Gap(f: Matrix -> real, n: nat): Matrix -> real {
    m => if Square(m) then f(m) - Times(f(Eye(n)), Det(m)) else 0.0
  }

  lemma GapLinear(f: Matrix -> real, n: nat)
    requires RowLinear(f, n)
    ensures RowLinear(Gap(f, n), n)
  {
    var g, e := Gap(f, n), f(Eye(n));
    forall m: Matrix, r: nat, a, u: Row, b, w: Row {:trigger LinearAt(g, m, r, a, u, b, w)} |
      OfSize(m, n) && r < n && |u| == |w| == n ensures LinearAt(g, m, r, a, u, b, w)
    {
      assert LinearAt(f, m, r, a, u, b, w);
      DetLinear(m, r, a, u, b, w);
      CombineGaps(e, a, f(m[r := u]), Det(m[r := u]), b, f(m[r := w]), Det(m[r := w]));
    }
  }

  lemma CombineGaps(e: real, a: real, x: real, p: real, b: real, y: real, q: real)
    ensures Times(a, x) + Times(b, y) - Times(e, Times(a, p) + Times(b, q))
            == Times(a, x - Times(e, p)) + Times(b, y - Times(e, q))
  {}

  lemma GapSwaps(f: Matrix -> real, n: nat)
    requires SwapNegates(f, n)
    ensures SwapNegates(Gap(f, n), n)
  {
    forall m: Matrix, r: nat {:trigger SwapRows(m, r)} | OfSize(m, n) && r + 1 < n
      ensures Gap(f, n)(SwapRows(m, r)) == -Gap(f, n)(m)
    {
      DetSwap(m, r);
      TimesNegated(f(Eye(n)), Det(m));
    }
  }

  /** The laws of linearity and of swaps determine a function up to its value at the identity. */
  lemma DeterminedByLaws(f: Matrix -> real, n: nat, m: Matrix)
    requires RowLinear(f, n) && SwapNegates(f, n) && OfSize(m, n)
    ensures f(m) == Times(f(Eye(n)), Det(m))
  {
    var g := Gap(f, n);
    GapLinear(f, n);
    GapSwaps(f, n);
    DetEye(n);
    OneZero(0.0, f(Eye(n)));
    forall p: seq<nat> | Numbers(p, n) ensures g(UnitRows(p, n)) == 0.0 { UnitsVanish(g, n, p); }
    VanishFrom(g, n, m, n, seq(n, i => i));
  }

  // ---------------------------------------------------------------- products

  /** The products whose sum is entry j of the row vector x times b. */
  ghost function Products(x: Row, b: Matrix, j: int): int -> real {
    k => if 0 <= k < |x| && k < |b| && 0 <= j < |b[k]| then Times(x[k], b[k][j]) else 0.0
  }

  /** The row vector x times b, whose rows have width w. */
  ghost function RowTimes(x: Row, b: Matrix, w: nat): (r: Row)
    ensures |r| == w
  {
    seq(w, j => Sum(Products(x, b, j), |x|))
  }

  /** The matrix product; the rows of b have width w. */
  ghost function Mul(a: Matrix, b: Matrix, w: nat): (m: Matrix)
    ensures |m| == |a| && forall i :: 0 <= i < |a| ==> m[i] == RowTimes(a[i], b, w)
  {
    seq(|a|, i requires 0 <= i < |a| => RowTimes(a[i], b, w))
  }

  lemma RowTimesLinear(p: real, u: Row, q: real, v: Row, b: Matrix, w: nat)
    requires |u| == |v|
    ensures RowTimes(Lin(p, u, q, v), b, w) == Lin(p, RowTimes(u, b, w), q, RowTimes(v, b, w))
  {
    forall j | 0 <= j < w
      ensures RowTimes(Lin(p, u, q, v), b, w)[j] == Lin(p, RowTimes(u, b, w), q, RowTimes(v, b, w))[j]
    {
      SumOfProductsLinear(p, u, q, v, b, j);
    }
  }

  lemma ProductLinear(p: real, u: Row, q: real, v: Row, b: Matrix, j: nat, k: nat)
    requires |u| == |v| && k < |u|
    ensures Products(Lin(p, u, q, v), b, j)(k) == Times(p, Products(u, b, j)(k)) + Times(q, Products(v, b, j)(k))
  {
    if k < |b| && j < |b[k]| {
      Distribute(p, u[k], q, v[k], b[k][j]);
    } else {
      OneZero(0.0, p);
      OneZero(0.0, q);
    }
  }

  lemma SumOfProductsLinear(p: real, u: Row, q: real, v: Row, b: Matrix, j: nat)
    requires |u| == |v|
    ensures Sum(Products(Lin(p, u, q, v), b, j), |u|)
            == Times(p, Sum(Products(u, b, j), |u|)) + Times(q, Sum(Products(v, b, j), |u|))
  {
    var f, g, n := Products(u, b, j), Products(v, b, j), |u|;
    var pf, qg := (k: int) => Times(p, f(k)), (k: int) => Times(q, g(k));
    SumScaled(p, pf, f, n);
    SumScaled(q, qg, g, n);
    forall k | 0 <= k < n ensures Products(Lin(p, u, q, v), b, j)(k) == pf(k) + qg(k) {
      ProductLinear(p, u, q, v, b, j, k);
    }
    SumAdded(pf, qg, Products(Lin(p, u, q, v), b, j), n);
  }

  lemma Distribute(p: real, x: real, q: real, y: real, z: real)
    ensures Times(Times(p, x) + Times(q, y), z) == Times(p, Times(x, z)) + Times(q, Times(y, z))
  {}

  /** Multiplying by the identity. */
  lemma EyeTimes(b: Matrix)
    requires Square(b)
    ensures Mul(Eye(|b|), b, |b|) == b
  {
    var n := |b|;
    forall i, j | 0 <= i < n && 0 <= j < n ensures RowTimes(Eye(n)[i], b, n)[j] == b[i][j] {
      forall k | 0 <= k < n ensures Products(Eye(n)[i], b, j)(k) == if k == i then b[i][j] else 0.0 {
        OneZero(b[k][j], 0.0);
      }
      PickOne(Products(Eye(n)[i], b, j), i, b[i][j], n);
    }
    forall i | 0 <= i < n ensures Mul(Eye(n), b, n)[i] == b[i] {}
  }

  lemma {:induction false} PickOne(f: int -> real, i: nat, x: real, n: nat)
    requires forall k :: 0 <= k < n ==> f(k) == if k == i then x else 0.0
    ensures Sum(f, n) == if i < n then x else 0.0
  {
    if n == 0 {
    } else {
      PickOne(f, i, x, n - 1);
    }
  }

  ghost function DetTimes(b: Matrix): Matrix -> real {
    a => if OfSize(a, |b|) then Det(Mul(a, b, |b|)) else 0.0
  }

  lemma DetTimesLinear(b: Matrix)
    ensures RowLinear(DetTimes(b), |b|)
  {
    var f, n := DetTimes(b), |b|;
    forall m: Matrix, r: nat, p, u: Row, q, v: Row {:trigger LinearAt(f, m, r, p, u, q, v)} |
      OfSize(m, n) && r < n && |u| == |v| == n ensures LinearAt(f, m, r, p, u, q, v)
    {
      var mb := Mul(m, b, n);
      RowTimesLinear(p, u, q, v, b, n);
      MulUpdate(m, r, Lin(p, u, q, v), b, n);
      MulUpdate(m, r, u, b, n);
      MulUpdate(m, r, v, b, n);
      DetLinear(mb, r, p, RowTimes(u, b, n), q, RowTimes(v, b, n));
    }
  }

  lemma MulUpdate(m: Matrix, r: nat, u: Row, b: Matrix, w: nat)
    requires r < |m|
    ensures Mul(m[r := u], b, w) == Mul(m, b, w)[r := RowTimes(u, b, w)]
  {}

  lemma MulSwapped(m: Matrix, r: nat, b: Matrix, w: nat)
    requires r + 1 < |m|
    ensures Mul(SwapRows(m, r), b, w) == SwapRows(Mul(m, b, w), r)
  {}

  lemma DetTimesSwap(b: Matrix, m: Matrix, r: nat)
    requires OfSize(m, |b|) && r + 1 < |b|
    ensures DetTimes(b)(SwapRows(m, r)) == -DetTimes(b)(m)
  {
    MulSwapped(m, r, b, |b|);
    DetSwap(Mul(m, b, |b|), r);
    assert OfSize(SwapRows(m, r), |b|);
  }

  lemma DetTimesSwaps(b: Matrix)
    ensures SwapNegates(DetTimes(b), |b|)
  {
    forall m: Matrix, r: nat {:trigger SwapRows(m, r)} | OfSize(m, |b|) && r + 1 < |b|
      ensures DetTimes(b)(SwapRows(m, r)) == -DetTimes(b)(m)
    {
      DetTimesSwap(b, m, r);
    }
  }

  /** The determinant of a product is the product of the determinants. */
  lemma DetProduct(a: Matrix, b: Matrix)
    requires Square(a) && Square(b) && |a| == |b|
    ensures Square(Mul(a, b, |b|)) && Det(Mul(a, b, |b|)) == Times(Det(a), Det(b))
  {
    DetTimesLinear(b);
    DetTimesSwaps(b);
    DeterminedByLaws(DetTimes(b), |b|, a);
    EyeTimes(b);
    assert DetTimes(b)(Eye(|b|)) == Det(b);
    Commute(Det(b), Det(a));
  }

  lemma Commute(x: real, y: real)
    ensures Times(x, y) == Times(y, x)
  {}

  // ---------------------------------------------------------------- columns

  function SetCol(m: Matrix, c: nat, x: Row): (s: Matrix)
    requires |x| == |m| && forall i :: 0 <= i < |m| ==> c < |m[i]|
    ensures |s| == |m| && forall i :: 0 <= i < |m| ==> s[i] == m[i][c := x[i]]
  {
    seq(|m|, i requires 0 <= i < |m| => m[i][c := x[i]])
  }

  lemma DropUpdated(row: Row, c: nat, x: real, j: nat)
    requires c < |row| && j < |row|
    ensures DropCol(row[c := x], j) == if j == c then DropCol(row, j) else DropCol(row, j)[Skip(j, c) := x]
  {}

  lemma MinorOfSetCol(m: Matrix, c: nat, x: Row, j: nat)
    requires Square(m) && |x| == |m| && c < |m| && j < |m|
    ensures Square(SetCol(m, c, x))
    ensures j == c ==> Minor(SetCol(m, c, x), j) == Minor(m, j)
    ensures j != c ==> 0 <= Skip(j, c) < |m| - 1
                       && Minor(SetCol(m, c, x), j) == SetCol(Minor(m, j), Skip(j, c), x[1..])
  {
    forall i | 0 <= i < |m| - 1
      ensures Minor(SetCol(m, c, x), j)[i]
              == if j == c then Minor(m, j)[i] else Minor(m, j)[i][Skip(j, c) := x[i + 1]]
    {
      DropUpdated(m[i + 1], c, x[i + 1], j);
    }
  }

  lemma {:induction false} DetColLinear(m: Matrix, c: nat, a: real, u: Row, b: real, w: Row)
    requires Square(m) && c < |m| && |u| == |w| == |m|
    ensures Square(SetCol(m, c, Lin(a, u, b, w))) && Square(SetCol(m, c, u)) && Square(SetCol(m, c, w))
    ensures Det(SetCol(m, c, Lin(a, u, b, w))) == Times(a, Det(SetCol(m, c, u))) + Times(b, Det(SetCol(m, c, w)))
    decreases |m|, |m| + 1
  {
    ExpansionColLinear(m, c, a, u, b, w, |m|);
  }

  lemma {:induction false} ExpansionColLinear(m: Matrix, c: nat, a: real, u: Row, b: real, w: Row, k: nat)
    requires Square(m) && c < |m| && |u| == |w| == |m| && k <= |m|
    ensures Square(SetCol(m, c, Lin(a, u, b, w))) && Square(SetCol(m, c, u)) && Square(SetCol(m, c, w))
    ensures Expansion(SetCol(m, c, Lin(a, u, b, w)), k)
            == Times(a, Expansion(SetCol(m, c, u), k)) + Times(b, Expansion(SetCol(m, c, w), k))
    decreases |m|, k
  {
    var l, mu, mw := SetCol(m, c, Lin(a, u, b, w)), SetCol(m, c, u), SetCol(m, c, w);
    if k == 0 {
      OneZero(0.0, a);
      OneZero(0.0, b);
    } else {
      var j := k - 1;
      ExpansionColLinear(m, c, a, u, b, w, j);
      if j == c {
        EqualColTerm(m, c, a, u, b, w);
      } else {
        MinorOfSetCol(m, c, u, j);
        DetColLinear(Minor(m, j), Skip(j, c), a, u[1..], b, w[1..]);
        OtherColTerm(m, c, a, u, b, w, j);
      }
      SumLinear(Expansion(l, j), Term(l, j), a, Expansion(mu, j), Term(mu, j), b, Expansion(mw, j), Term(mw, j));
    }
  }

  lemma EqualColTerm(m: Matrix, c: nat, a: real, u: Row, b: real, w: Row)
    requires Square(m) && c < |m| && |u| == |w| == |m|
    ensures Square(SetCol(m, c, Lin(a, u, b, w))) && Square(SetCol(m, c, u)) && Square(SetCol(m, c, w))
    ensures Term(SetCol(m, c, Lin(a, u, b, w)), c)
            == Times(a, Term(SetCol(m, c, u), c)) + Times(b, Term(SetCol(m, c, w), c))
  {
    MinorOfSetCol(m, c, Lin(a, u, b, w), c);
    MinorOfSetCol(m, c, u, c);
    MinorOfSetCol(m, c, w, c);
    TermLinear0(Sign(c), a, u[0], b, w[0], Det(Minor(m, c)));
  }

  lemma OtherColTerm(m: Matrix, c: nat, a: real, u: Row, b: real, w: Row, j: nat)
    requires Square(m) && c < |m| && |u| == |w| == |m| && j < |m| && j != c && 0 <= Skip(j, c) < |m| - 1
    requires var mj, d, l := Minor(m, j), Skip(j, c), Lin(a, u[1..], b, w[1..]);
             Square(SetCol(mj, d, l)) && Square(SetCol(mj, d, u[1..])) && Square(SetCol(mj, d, w[1..]))
             && Det(SetCol(mj, d, l)) == Times(a, Det(SetCol(mj, d, u[1..]))) + Times(b, Det(SetCol(mj, d, w[1..])))
    ensures Square(SetCol(m, c, Lin(a, u, b, w))) && Square(SetCol(m, c, u)) && Square(SetCol(m, c, w))
    ensures Term(SetCol(m, c, Lin(a, u, b, w)), j)
            == Times(a, Term(SetCol(m, c, u), j)) + Times(b, Term(SetCol(m, c, w), j))
  {
    MinorOfSetCol(m, c, Lin(a, u, b, w), j);
    MinorOfSetCol(m, c, u, j);
    MinorOfSetCol(m, c, w, j);
    assert Lin(a, u, b, w)[1..] == Lin(a, u[1..], b, w[1..]);
    TermLinear1(Times(Sign(j), m[0][j]), a, Det(Minor(SetCol(m, c, u), j)), b, Det(Minor(SetCol(m, c, w), j)));
  }

  function SwapEntries(row: Row, c: nat): (r: Row)
    requires c + 1 < |row|
    ensures |r| == |row|
  {
    row[c := row[c + 1]][c + 1 := row[c]]
  }

  function SwapCols(m: Matrix, c: nat): (s: Matrix)
    requires forall i :: 0 <= i < |m| ==> c + 1 < |m[i]|
    ensures |s| == |m| && forall i :: 0 <= i < |m| ==> s[i] == SwapEntries(m[i], c)
  {
    seq(|m|, i requires 0 <= i < |m| => SwapEntries(m[i], c))
  }

  lemma DropSwapped(row: Row, c: nat, j: nat)
    requires c + 1 < |row| && j < |row|
    ensures DropCol(SwapEntries(row, c), j)
            == if j == c then DropCol(row, c + 1)
               else if j == c + 1 then DropCol(row, c)
               else if j < c then SwapEntries(DropCol(row, j), c - 1)
               else SwapEntries(DropCol(row, j), c)
  {}

  lemma MinorOfSwapCols(m: Matrix, c: nat, j: nat)
    requires Square(m) && c + 1 < |m| && j < |m|
    ensures Square(SwapCols(m, c))
    ensures Minor(SwapCols(m, c), j)
            == if j == c then Minor(m, c + 1)
               else if j == c + 1 then Minor(m, c)
               else if j < c then SwapCols(Minor(m, j), c - 1)
               else SwapCols(Minor(m, j), c)
  {
    forall i | 0 <= i < |m| - 1
      ensures Minor(SwapCols(m, c), j)[i]
              == if j == c then Minor(m, c + 1)[i]
                 else if j == c + 1 then Minor(m, c)[i]
                 else if j < c then SwapEntries(Minor(m, j)[i], c - 1)
                 else SwapEntries(Minor(m, j)[i], c)
    {
      DropSwapped(m[i + 1], c, j);
    }
  }

  /** Swapping two neighbouring columns negates the determinant. */
  lemma {:induction false} DetColSwap(m: Matrix, c: nat)
    requires Square(m) && c + 1 < |m|
    ensures Square(SwapCols(m, c)) && Det(SwapCols(m, c)) == -Det(m)
    decreases |m|, |m| + 1
  {
    ExpansionColSwap(m, c, |m|);
  }

  lemma {:induction false} ExpansionColSwap(m: Matrix, c: nat, k: nat)
    requires Square(m) && c + 1 < |m| && k <= |m| && k != c + 1
    ensures Square(SwapCols(m, c)) && Expansion(SwapCols(m, c), k) == -Expansion(m, k)
    decreases |m|, k
  {
    var s := SwapCols(m, c);
    if k == 0 {
    } else if k == c + 2 {
      ExpansionColSwap(m, c, c);
      TradedTerms(m, c);
      assert Expansion(s, c + 1) == Expansion(s, c) + Term(s, c);
      assert Expansion(m, c + 1) == Expansion(m, c) + Term(m, c);
    } else {
      var j := k - 1;
      ExpansionColSwap(m, c, j);
      DetColSwap(Minor(m, j), if j < c then c - 1 else c);
      KeptTerm(m, c, j);
      assert Expansion(s, k) == Expansion(s, j) + Term(s, j);
    }
  }

  lemma KeptTerm(m: Matrix, c: nat, j: nat)
    requires Square(m) && c + 1 < |m| && j < |m| && j != c && j != c + 1
    requires var d := if j < c then c - 1 else c;
             Square(SwapCols(Minor(m, j), d)) && Det(SwapCols(Minor(m, j), d)) == -Det(Minor(m, j))
    ensures Square(SwapCols(m, c)) && Term(SwapCols(m, c), j) == -Term(m, j)
  {
    MinorOfSwapCols(m, c, j);
    NegatedTerm(m, SwapCols(m, c), j);
  }

  lemma NegatedTerm(m: Matrix, s: Matrix, j: nat)
    requires Square(m) && Square(s) && |s| == |m| && j < |m|
    requires s[0][j] == m[0][j] && Det(Minor(s, j)) == -Det(Minor(m, j))
    ensures Term(s, j) == -Term(m, j)
  {
    TimesNegated(Times(Sign(j), m[0][j]), Det(Minor(m, j)));
  }

  lemma TradedTerms(m: Matrix, c: nat)
    requires Square(m) && c + 1 < |m|
    ensures Square(SwapCols(m, c))
    ensures Term(SwapCols(m, c), c) == -Term(m, c + 1) && Term(SwapCols(m, c), c + 1) == -Term(m, c)
  {
    MinorOfSwapCols(m, c, c);
    MinorOfSwapCols(m, c, c + 1);
    OppositeSigns(c, m[0][c + 1], Det(Minor(m, c + 1)));
    OppositeSigns(c, m[0][c], Det(Minor(m, c)));
  }

  lemma OppositeSigns(c: nat, x: real, d: real)
    ensures Times(Times(Sign(c), x), d) == -Times(Times(Sign(c + 1), x), d)
  {}

  // ---------------------------------------------------------------- the transpose

  /** The transpose of a matrix whose rows have width w. */
  function Transpose(m: Matrix, w: nat): (t: Matrix)
    requires forall i :: 0 <= i < |m| ==> |m[i]| == w
    ensures |t| == w && forall j :: 0 <= j < w ==> |t[j]| == |m| && forall i :: 0 <= i < |m| ==> t[j][i] == m[i][j]
  {
    seq(w, j requires 0 <= j < w => seq(|m|, i requires 0 <= i < |m| => m[i][j]))
  }

  lemma TransposeUpdate(m: Matrix, r: nat, u: Row)
    requires Square(m) && r < |m| && |u| == |m|
    ensures Transpose(m[r := u], |m|) == SetCol(Transpose(m, |m|), r, u)
  {
    forall j | 0 <= j < |m| ensures Transpose(m[r := u], |m|)[j] == SetCol(Transpose(m, |m|), r, u)[j] {}
  }

  lemma TransposeSwapped(m: Matrix, r: nat)
    requires Square(m) && r + 1 < |m|
    ensures Transpose(SwapRows(m, r), |m|) == SwapCols(Transpose(m, |m|), r)
  {
    forall j | 0 <= j < |m| ensures Transpose(SwapRows(m, r), |m|)[j] == SwapCols(Transpose(m, |m|), r)[j] {}
  }

  ghost function DetOfTranspose(n: nat): Matrix -> real {
    m => if OfSize(m, n) then Det(Transpose(m, n)) else 0.0
  }

  lemma DetOfTransposeLinear(n: nat)
    ensures RowLinear(DetOfTranspose(n), n)
  {
    var f := DetOfTranspose(n);
    forall m: Matrix, r: nat, a, u: Row, b, w: Row {:trigger LinearAt(f, m, r, a, u, b, w)} |
      OfSize(m, n) && r < n && |u| == |w| == n ensures LinearAt(f, m, r, a, u, b, w)
    {
      DetOfTransposeLinearAt(m, r, a, u, b, w);
    }
  }

  lemma DetOfTransposeLinearAt(m: Matrix, r: nat, a: real, u: Row, b: real, w: Row)
    requires Square(m) && r < |m| && |u| == |w| == |m|
    ensures LinearAt(DetOfTranspose(|m|), m, r, a, u, b, w)
  {
    TransposeUpdate(m, r, Lin(a, u, b, w));
    TransposeUpdate(m, r, u);
    TransposeUpdate(m, r, w);
    DetColLinear(Transpose(m, |m|), r, a, u, b, w);
  }

  lemma DetOfTransposeSwaps(n: nat)
    ensures SwapNegates(DetOfTranspose(n), n)
  {
    forall m: Matrix, r: nat {:trigger SwapRows(m, r)} | OfSize(m, n) && r + 1 < n
      ensures DetOfTranspose(n)(SwapRows(m, r)) == -DetOfTranspose(n)(m)
    {
      TransposeSwapped(m, r);
      DetColSwap(Transpose(m, n), r);
    }
  }

  /** A matrix and its transpose have the same determinant. */
  lemma DetTranspose(m: Matrix)
    requires Square(m)
    ensures Square(Transpose(m, |m|)) && Det(Transpose(m, |m|)) == Det(m)
  {
    var n := |m|;
    DetOfTransposeLinear(n);
    DetOfTransposeSwaps(n);
    DeterminedByLaws(DetOfTranspose(n), n, m);
    forall j | 0 <= j < n ensures Transpose(Eye(n), n)[j] == Eye(n)[j] {}
    assert Transpose(Eye(n), n) == Eye(n);
    DetEye(n);
    OneZero(Det(m), 0.0);
  }
}
