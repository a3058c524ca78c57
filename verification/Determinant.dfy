/** Laplace determinant (det_rec and abs_matrix_eye in src/abs_matrix.c), over the reals. */
module Determinant {
  import opened Common

  type Row = seq<real>
  type Matrix = seq<Row>

  ghost predicate Square(m: Matrix) {
    forall i :: 0 <= i < |m| ==> |m[i]| == |m|
  }

  function Sign(c: int): real { if c % 2 == 0 then 1.0 else -1.0 }

  function DropCol(row: Row, c: nat): (r: Row)
    requires c < |row|
    ensures |r| == |row| - 1
    ensures forall j :: 0 <= j < |r| ==> r[j] == row[if j < c then j else j + 1]
  {
    row[..c] + row[c + 1..]
  }

  /** The matrix without row 0 and column c. */
  ghost function Minor(m: Matrix, c: nat): (r: Matrix)
    requires Square(m) && c < |m|
    ensures Square(r) && |r| == |m| - 1
    ensures forall i :: 0 <= i < |r| ==> r[i] == DropCol(m[i + 1], c)
  {
    seq(|m| - 1, i requires 0 <= i < |m| - 1 => DropCol(m[i + 1], c))
  }

  /** The determinant by cofactor expansion along row 0, for every size. */
  ghost function Det(m: Matrix): real
    requires Square(m)
    decreases |m|, |m| + 1
  {
    if m == [] then 1.0 else Expansion(m, |m|)
  }

  /** The first k terms of the expansion. */
  ghost function Expansion(m: Matrix, k: nat): real
    requires Square(m) && k <= |m|
    decreases |m|, k
  {
    if k == 0 then 0.0 else Expansion(m, k - 1) + Term(m, k - 1)
  }

  ghost function Term(m: Matrix, c: nat): real
    requires Square(m) && c < |m|
    decreases |m|, c
  {
    Times(Times(Sign(c), m[0][c]), Det(Minor(m, c)))
  }

  // ---------------------------------------------------------------- linear in each row

  function Lin(a: real, u: Row, b: real, w: Row): (r: Row)
    requires |u| == |w|
    ensures |r| == |u|
    ensures forall j :: 0 <= j < |r| ==> r[j] == Times(a, u[j]) + Times(b, w[j])
  {
    seq(|u|, j requires 0 <= j < |u| => Times(a, u[j]) + Times(b, w[j]))
  }

  lemma MinorOfUpdate(m: Matrix, r: nat, row: Row, c: nat)
    requires Square(m) && 0 < r < |m| && |row| == |m| && c < |m|
    ensures Square(m[r := row])
    ensures Minor(m[r := row], c) == Minor(m, c)[r - 1 := DropCol(row, c)]
  {}

  lemma MinorIgnoresRow0(m: Matrix, row: Row, c: nat)
    requires Square(m) && |row| == |m| && c < |m|
    ensures Square(m[0 := row]) && Minor(m[0 := row], c) == Minor(m, c)
  {}

  lemma TermLinear0(s: real, a: real, x: real, b: real, y: real, d: real)
    ensures Times(Times(s, Times(a, x) + Times(b, y)), d)
            == Times(a, Times(Times(s, x), d)) + Times(b, Times(Times(s, y), d))
  {}

  lemma TermLinear1(s: real, a: real, x: real, b: real, y: real)
    ensures Times(s, Times(a, x) + Times(b, y)) == Times(a, Times(s, x)) + Times(b, Times(s, y))
  {}

  lemma TopRowTermLinear(m: Matrix, a: real, u: Row, b: real, w: Row, c: nat)
    requires Square(m) && |u| == |w| == |m| && c < |m|
    ensures Square(m[0 := Lin(a, u, b, w)]) && Square(m[0 := u]) && Square(m[0 := w])
    ensures Term(m[0 := Lin(a, u, b, w)], c) == Times(a, Term(m[0 := u], c)) + Times(b, Term(m[0 := w], c))
  {
    MinorIgnoresRow0(m, Lin(a, u, b, w), c);
    MinorIgnoresRow0(m, u, c);
    MinorIgnoresRow0(m, w, c);
    TermLinear0(Sign(c), a, u[c], b, w[c], Det(Minor(m, c)));
  }

  lemma LowerRowTermLinear(m: Matrix, r: nat, a: real, u: Row, b: real, w: Row, c: nat)
    requires Square(m) && 0 < r < |m| && |u| == |w| == |m| && c < |m|
    requires var mc, uc, wc := Minor(m, c), DropCol(u, c), DropCol(w, c);
             Square(mc[r - 1 := Lin(a, uc, b, wc)]) && Square(mc[r - 1 := uc]) && Square(mc[r - 1 := wc])
             && Det(mc[r - 1 := Lin(a, uc, b, wc)])
                == Times(a, Det(mc[r - 1 := uc])) + Times(b, Det(mc[r - 1 := wc]))
    ensures Square(m[r := Lin(a, u, b, w)]) && Square(m[r := u]) && Square(m[r := w])
    ensures Term(m[r := Lin(a, u, b, w)], c) == Times(a, Term(m[r := u], c)) + Times(b, Term(m[r := w], c))
  {
    MinorOfUpdate(m, r, Lin(a, u, b, w), c);
    MinorOfUpdate(m, r, u, c);
    MinorOfUpdate(m, r, w, c);
    assert DropCol(Lin(a, u, b, w), c) == Lin(a, DropCol(u, c), b, DropCol(w, c));
    TermLinear1(Times(Sign(c), m[0][c]), a, Det(Minor(m[r := u], c)), b, Det(Minor(m[r := w], c)));
  }

  /** The determinant is linear in row r, all other rows being fixed. */
  lemma {:induction false} DetLinear(m: Matrix, r: nat, a: real, u: Row, b: real, w: Row)
    requires Square(m) && r < |m| && |u| == |w| == |m|
    ensures Square(m[r := Lin(a, u, b, w)]) && Square(m[r := u]) && Square(m[r := w])
    ensures Det(m[r := Lin(a, u, b, w)]) == Times(a, Det(m[r := u])) + Times(b, Det(m[r := w]))
    decreases |m|, |m| + 1
  {
    ExpansionLinear(m, r, a, u, b, w, |m|);
  }

  lemma {:induction false} ExpansionLinear(m: Matrix, r: nat, a: real, u: Row, b: real, w: Row, k: nat)
    requires Square(m) && r < |m| && |u| == |w| == |m| && k <= |m|
    ensures Square(m[r := Lin(a, u, b, w)]) && Square(m[r := u]) && Square(m[r := w])
    ensures Expansion(m[r := Lin(a, u, b, w)], k)
            == Times(a, Expansion(m[r := u], k)) + Times(b, Expansion(m[r := w], k))
    decreases |m|, k
  {
    var l, mu, mw := m[r := Lin(a, u, b, w)], m[r := u], m[r := w];
    if k == 0 {
      ZeroLinear(a, b);
    } else {
      var c := k - 1;
      ExpansionLinear(m, r, a, u, b, w, c);
      if r == 0 {
        TopRowTermLinear(m, a, u, b, w, c);
      } else {
        DetLinear(Minor(m, c), r - 1, a, DropCol(u, c), b, DropCol(w, c));
        LowerRowTermLinear(m, r, a, u, b, w, c);
      }
      SumLinear(Expansion(l, c), Term(l, c), a, Expansion(mu, c), Term(mu, c), b, Expansion(mw, c), Term(mw, c));
    }
  }

  lemma ZeroLinear(a: real, b: real)
    ensures Times(a, 0.0) + Times(b, 0.0) == 0.0
  {}

  lemma SumLinear(e: real, t: real, a: real, x: real, x': real, b: real, y: real, y': real)
    requires e == Times(a, x) + Times(b, y) && t == Times(a, x') + Times(b, y')
    ensures e + t == Times(a, x + x') + Times(b, y + y')
  {}

  // ---------------------------------------------------------------- the identity matrix

  function Eye(n: nat): (m: Matrix)
    ensures |m| == n && forall i :: 0 <= i < n ==> |m[i]| == n
    ensures forall i, j :: 0 <= i < n && 0 <= j < n ==> m[i][j] == if i == j then 1.0 else 0.0
  {
    seq(n, i => seq(n, j => if i == j then 1.0 else 0.0))
  }

  lemma {:induction false} DetEye(n: nat)
    ensures Det(Eye(n)) == 1.0
  {
    if n == 0 {
    } else {
      DetEye(n - 1);
      forall i | 0 <= i < n - 1 ensures Minor(Eye(n), 0)[i] == Eye(n - 1)[i] {}
      EyeExpansion(n, n);
    }
  }

  lemma {:induction false} EyeExpansion(n: nat, k: nat)
    requires 1 <= k <= n && Minor(Eye(n), 0) == Eye(n - 1) && Det(Eye(n - 1)) == 1.0
    ensures Expansion(Eye(n), k) == 1.0
  {
    var m := Eye(n);
    if k == 1 {
      assert Expansion(m, 0) == 0.0;
      assert Term(m, 0) == Times(Times(1.0, 1.0), 1.0);
    } else {
      EyeExpansion(n, k - 1);
      ZeroTerm(Sign(k - 1), Det(Minor(m, k - 1)));
    }
  }

  lemma ZeroTerm(s: real, d: real)
    ensures Times(Times(s, 0.0), d) == 0.0
  {}

  // ---------------------------------------------------------------- swapping adjacent rows

  function SwapRows(m: Matrix, r: nat): (s: Matrix)
    requires r + 1 < |m|
    ensures |s| == |m|
  {
    m[r := m[r + 1]][r + 1 := m[r]]
  }

  /** Sum of f(0) .. f(n - 1). */
  ghost function Sum(f: int -> real, n: nat): real {
    if n == 0 then 0.0 else Sum(f, n - 1) + f(n - 1)
  }

  lemma {:induction false} SumEqual(f: int -> real, g: int -> real, n: nat)
    requires forall i :: 0 <= i < n ==> f(i) == g(i)
    ensures Sum(f, n) == Sum(g, n)
  {
    if n == 0 {
    } else {
      SumEqual(f, g, n - 1);
    }
  }

  lemma {:induction false} SumNegated(f: int -> real, g: int -> real, n: nat)
    requires forall i :: 0 <= i < n ==> f(i) == -g(i)
    ensures Sum(f, n) == -Sum(g, n)
  {
    if n == 0 {
    } else {
      SumNegated(f, g, n - 1);
    }
  }

  lemma {:induction false} SumScaled(c: real, f: int -> real, g: int -> real, n: nat)
    requires forall i :: 0 <= i < n ==> f(i) == Times(c, g(i))
    ensures Sum(f, n) == Times(c, Sum(g, n))
  {
    if n == 0 {
    } else {
      SumScaled(c, f, g, n - 1);
      assert Times(c, Sum(g, n - 1) + g(n - 1)) == Times(c, Sum(g, n - 1)) + Times(c, g(n - 1));
    }
  }

  lemma {:induction false} SumAdded(f: int -> real, g: int -> real, s: int -> real, n: nat)
    requires forall i :: 0 <= i < n ==> s(i) == f(i) + g(i)
    ensures Sum(s, n) == Sum(f, n) + Sum(g, n)
  {
    if n == 0 {
    } else {
      SumAdded(f, g, s, n - 1);
    }
  }

  ghost function RowSum(t: (int, int) -> real, n: nat): int -> real {
    i => Sum(j => t(i, j), n)
  }

  ghost function Flip(t: (int, int) -> real): (int, int) -> real {
    (i, j) => t(j, i)
  }

  /** A double sum does not depend on the order of summation. */
  lemma {:induction false} SumExchange(t: (int, int) -> real, n: nat, k: nat)
    ensures Sum(RowSum(t, k), n) == Sum(RowSum(Flip(t), n), k)
  {
    if k == 0 {
      SumZero(RowSum(t, 0), n);
    } else {
      SumExchange(t, n, k - 1);
      var col := (i: int) => t(i, k - 1);
      SumAdded(RowSum(t, k - 1), col, RowSum(t, k), n);
      SumEqual(col, j => Flip(t)(k - 1, j), n);
      assert RowSum(Flip(t), n)(k - 1) == Sum(j => Flip(t)(k - 1, j), n);
    }
  }

  lemma {:induction false} SumZero(f: int -> real, n: nat)
    requires forall i :: 0 <= i < n ==> f(i) == 0.0
    ensures Sum(f, n) == 0.0
  {
    if n == 0 {
    } else {
      SumZero(f, n - 1);
    }
  }

  /** Column d of the full matrix, as a column of the matrix without column c. */
  function Skip(c: int, d: int): int { if d < c then d else d - 1 }

  /** Summing over all columns but c, in the numbering with and without column c. */
  lemma {:induction false} SumSkip(f: int -> real, g: int -> real, c: nat, n: nat)
    requires c < n && f(c) == 0.0
    requires forall d :: 0 <= d < n && d != c ==> f(d) == g(Skip(c, d))
    ensures Sum(f, n) == Sum(g, n - 1)
  {
    if c == n - 1 {
      SumEqual(f, g, n - 1);
    } else {
      SumSkip(f, g, c, n - 1);
      assert f(n - 1) == g(Skip(c, n - 1)) == g(n - 2);
    }
  }

  ghost function TermFn(m: Matrix): int -> real
    requires Square(m)
  {
    c => if 0 <= c < |m| then Term(m, c) else 0.0
  }

  lemma {:induction false} ExpansionIsSum(m: Matrix, k: nat)
    requires Square(m) && k <= |m|
    ensures Expansion(m, k) == Sum(TermFn(m), k)
  {
    if k == 0 {
    } else {
      ExpansionIsSum(m, k - 1);
    }
  }

  /** The term of the expansion along rows 0 and 1 that takes columns c and d. */
  ghost function Two(m: Matrix, c: int, d: int): real
    requires Square(m) && |m| >= 2
  {
    if 0 <= c < |m| && 0 <= d < |m| && c != d then
      Times(Times(Sign(c), m[0][c]),
            Times(Times(Sign(Skip(c, d)), m[1][d]), Det(Minor(Minor(m, c), Skip(c, d)))))
    else 0.0
  }

  ghost function TwoFn(m: Matrix): (int, int) -> real
    requires Square(m) && |m| >= 2
  {
    (c, d) => Two(m, c, d)
  }

  lemma TwoAsMinorTerm(m: Matrix, c: nat, d: nat)
    requires Square(m) && |m| >= 2 && c < |m| && d < |m|
    ensures c != d ==> Two(m, c, d) == Times(Times(Sign(c), m[0][c]), TermFn(Minor(m, c))(Skip(c, d)))
  {}

  lemma ZeroTimes(a: real)
    ensures Times(a, 0.0) == 0.0
  {}

  lemma TermIsRowSum(m: Matrix, c: nat)
    requires Square(m) && |m| >= 2 && c < |m|
    ensures Term(m, c) == RowSum(TwoFn(m), |m|)(c)
  {
    var n, g := |m|, TermFn(Minor(m, c));
    var f := (d: int) => if d == c then 0.0 else g(Skip(c, d));
    ExpansionIsSum(Minor(m, c), n - 1);
    SumSkip(f, g, c, n);
    var t := (d: int) => TwoFn(m)(c, d);
    forall d | 0 <= d < n ensures t(d) == Times(Times(Sign(c), m[0][c]), f(d)) {
      assert t(d) == TwoFn(m)(c, d);
      assert TwoFn(m)(c, d) == Two(m, c, d);
      assert t(d) == Two(m, c, d);
      TwoAsMinorTerm(m, c, d);
      ZeroTimes(Times(Sign(c), m[0][c]));
    }
    SumScaled(Times(Sign(c), m[0][c]), t, f, n);
    SumEqual(t, j => TwoFn(m)(c, j), n);
  }

  lemma DetIsDoubleSum(m: Matrix)
    requires Square(m) && |m| >= 2
    ensures Det(m) == Sum(RowSum(TwoFn(m), |m|), |m|)
  {
    ExpansionIsSum(m, |m|);
    forall c | 0 <= c < |m| ensures TermFn(m)(c) == RowSum(TwoFn(m), |m|)(c) {
      TermIsRowSum(m, c);
    }
    SumEqual(TermFn(m), RowSum(TwoFn(m), |m|), |m|);
  }

  lemma DropTwo(row: Row, c: nat, d: nat)
    requires c < |row| && d < |row| && c != d
    ensures DropCol(DropCol(row, c), Skip(c, d)) == DropCol(DropCol(row, d), Skip(d, c))
  {}

  lemma SwapSigns(c: int, d: int, x: real, y: real, e: real)
    requires c != d
    ensures Times(Times(Sign(c), x), Times(Times(Sign(Skip(c, d)), y), e))
            == -Times(Times(Sign(d), y), Times(Times(Sign(Skip(d, c)), x), e))
  {}

  /** Swapping rows 0 and 1 trades the roles of the two columns and the sign. */
  lemma TwoSwapped(m: Matrix, c: nat, d: nat)
    requires Square(m) && |m| >= 2 && c < |m| && d < |m|
    ensures Square(SwapRows(m, 0)) && Two(SwapRows(m, 0), c, d) == -Two(m, d, c)
  {
    var s := SwapRows(m, 0);
    if c != d {
      var a, b := Minor(Minor(s, c), Skip(c, d)), Minor(Minor(m, d), Skip(d, c));
      forall i | 0 <= i < |a| ensures a[i] == b[i] {
        DropTwo(m[i + 2], c, d);
        assert s[i + 2] == m[i + 2];
      }
      assert a == b;
      SwapSigns(c, d, m[1][c], m[0][d], Det(a));
    }
  }

  lemma DetSwapTop(m: Matrix)
    requires Square(m) && |m| >= 2
    ensures Square(SwapRows(m, 0)) && Det(SwapRows(m, 0)) == -Det(m)
  {
    var n, s := |m|, SwapRows(m, 0);
    DetIsDoubleSum(m);
    DetIsDoubleSum(s);
    SumExchange(TwoFn(m), n, n);
    forall c | 0 <= c < n ensures RowSum(TwoFn(s), n)(c) == -RowSum(Flip(TwoFn(m)), n)(c) {
      var f, g := (d: int) => TwoFn(s)(c, d), (d: int) => Flip(TwoFn(m))(c, d);
      forall d | 0 <= d < n ensures f(d) == -g(d) { TwoSwapped(m, c, d); }
      SumNegated(f, g, n);
      SumEqual(f, j => TwoFn(s)(c, j), n);
      SumEqual(g, j => Flip(TwoFn(m))(c, j), n);
    }
    SumNegated(RowSum(TwoFn(s), n), RowSum(Flip(TwoFn(m)), n), n);
  }

  /** Swapping two adjacent rows changes the sign of the determinant. */
  lemma {:induction false} DetSwap(m: Matrix, r: nat)
    requires Square(m) && r + 1 < |m|
    ensures Square(SwapRows(m, r)) && Det(SwapRows(m, r)) == -Det(m)
    decreases |m|, |m| + 1
  {
    if r == 0 {
      DetSwapTop(m);
    } else {
      ExpansionSwap(m, r, |m|);
    }
  }

  lemma {:induction false} ExpansionSwap(m: Matrix, r: nat, k: nat)
    requires Square(m) && 0 < r && r + 1 < |m| && k <= |m|
    ensures Square(SwapRows(m, r)) && Expansion(SwapRows(m, r), k) == -Expansion(m, k)
    decreases |m|, k
  {
    if k == 0 {
    } else {
      ExpansionSwap(m, r, k - 1);
      DetSwap(Minor(m, k - 1), r - 1);
      assert Minor(SwapRows(m, r), k - 1) == SwapRows(Minor(m, k - 1), r - 1);
      TimesNegated(Times(Sign(k - 1), m[0][k - 1]), Det(Minor(m, k - 1)));
    }
  }

  lemma TimesNegated(a: real, b: real)
    ensures Times(a, -b) == -Times(a, b)
  {}

  /** A matrix with two equal adjacent rows has determinant zero. */
  lemma DetEqualRows(m: Matrix, r: nat)
    requires Square(m) && r + 1 < |m| && m[r] == m[r + 1]
    ensures Det(m) == 0.0
  {
    DetSwap(m, r);
    assert SwapRows(m, r) == m;
  }

  // ---------------------------------------------------------------- the library's computation

  /** The row-major buffer of a matrix whose rows have width w. */
  ghost function Flatten(m: Matrix): Row {
    if m == [] then [] else Flatten(m[..|m| - 1]) + m[|m| - 1]
  }

  /** Position of row i, column j in a buffer of rows of width n. */
  function Cell(i: int, n: int, j: int): int { i * n + j }

  lemma CellInRange(i: nat, n: nat, j: nat)
    requires i < n && j <= n
    ensures 0 <= Cell(i, n, j) <= n * n && (j < n ==> Cell(i, n, j) < n * n)
  {
    assert (i + 1) * n <= n * n;
  }

  /** The n rows of a flat n-by-n buffer. */
  ghost function Rows(flat: Row, n: nat): (m: Matrix)
    requires |flat| == n * n
    ensures Square(m) && |m| == n
  {
    seq(n, i requires 0 <= i < n => RowAt(flat, n, i))
  }

  function RowAt(flat: Row, n: nat, i: nat): (r: Row)
    requires |flat| == n * n && i < n
    ensures |r| == n
  {
    CellInRange(i, n, n);
    CellInRange(i, n, 0);
    flat[Cell(i, n, 0)..Cell(i, n, n)]
  }

  lemma RowEntry(flat: Row, n: nat, i: nat, j: nat)
    requires |flat| == n * n && i < n && j < n
    ensures 0 <= Cell(i, n, j) < n * n && Rows(flat, n)[i][j] == flat[Cell(i, n, j)]
  {
    CellEntry(flat, n, i, j);
  }

  lemma {:induction false} FlattenRows(m: Matrix, w: nat, i: nat)
    requires forall k :: 0 <= k < |m| ==> |m[k]| == w
    ensures |Flatten(m)| == |m| * w
    ensures i < |m| ==> 0 <= Cell(i, w, 0) <= Cell(i, w, w) <= |m| * w
                        && Flatten(m)[Cell(i, w, 0)..Cell(i, w, w)] == m[i]
  {
    if m == [] {
    } else {
      var k := |m| - 1;
      FlattenRows(m[..k], w, i);
      assert |m| * w == k * w + w;
      assert i < k ==> m[..k][i] == m[i];
    }
  }

  /** A buffer filled row by row with m's rows reads back as m. */
  lemma RowsOfFlatten(m: Matrix)
    requires Square(m)
    ensures |Flatten(m)| == |m| * |m| && Rows(Flatten(m), |m|) == m
  {
    FlattenRows(m, |m|, 0);
    var r := Rows(Flatten(m), |m|);
    forall i | 0 <= i < |m| ensures r[i] == m[i] {
      FlattenRows(m, |m|, i);
    }
  }

  /** Row without column c, as far as the first j columns of the row go. */
  ghost function Copied(row: Row, c: nat, j: nat): Row
    requires c < |row| && j <= |row|
  {
    if j <= c then row[..j] else row[..c] + row[c + 1..j]
  }

  /** The inner loop: appends row i of a, without column col, to the first idx cells of sub. */
  method CopyRow(a: array<real>, n: nat, i: nat, col: nat, sub: array<real>, idx: nat) returns (next: nat)
    requires i < n && col < n && a != sub && a.Length == n * n && idx + n - 1 <= sub.Length
    modifies sub
    ensures next == idx + n - 1
    ensures sub[..next] == old(sub[..idx]) + DropCol(RowAt(a[..], n, i), col)
  {
    ghost var row, start := RowAt(a[..], n, i), sub[..idx];
    next := idx;
    for j := 0 to n
      invariant next == idx + |Copied(row, col, j)|
      invariant sub[..next] == start + Copied(row, col, j)
    {
      CopiedStep(row, col, j);
      if j == col { continue; }
      CellEntry(a[..], n, i, j);
      ghost var before := sub[..next];
      sub[next] := a[Cell(i, n, j)];
      assert sub[..next + 1] == before + [row[j]];
      next := next + 1;
    }
    assert Copied(row, col, n) == DropCol(row, col);
  }

  lemma CopiedStep(row: Row, c: nat, j: nat)
    requires c < |row| && j < |row|
    ensures Copied(row, c, j + 1) == if j == c then Copied(row, c, j) else Copied(row, c, j) + [row[j]]
  {}

  lemma CellEntry(flat: Row, n: nat, i: nat, j: nat)
    requires |flat| == n * n && i < n && j < n
    ensures 0 <= Cell(i, n, j) < n * n && RowAt(flat, n, i)[j] == flat[Cell(i, n, j)]
  {
    CellInRange(i, n, j);
    CellInRange(i, n, 0);
    CellInRange(i, n, n);
    assert RowAt(flat, n, i)[j] == flat[Cell(i, n, 0) + j];
  }

  /** Fills sub with the minor of a for column col, in row-major order. */
  method FillMinor(a: array<real>, n: nat, col: nat, sub: array<real>)
    requires n >= 2 && col < n && a != sub && a.Length == n * n && sub.Length == (n - 1) * (n - 1)
    modifies sub
    ensures Rows(sub[..], n - 1) == Minor(Rows(a[..], n), col)
  {
    ghost var want := Minor(Rows(a[..], n), col);
    var idx := 0;
    for i := 1 to n
      invariant idx == (i - 1) * (n - 1)
      invariant idx <= sub.Length && sub[..idx] == Flatten(want[..i - 1])
    {
      CellInRange(i - 1, n - 1, n - 1);
      assert Cell(i - 1, n - 1, n - 1) == i * (n - 1);
      idx := CopyRow(a, n, i, col, sub, idx);
      assert want[..i][..i - 1] == want[..i - 1] && want[..i][i - 1] == DropCol(RowAt(a[..], n, i), col);
    }
    assert want[..n - 1] == want;
    RowsOfFlatten(want);
    assert sub[..] == sub[..idx];
  }

  /** What the recursion returns when allocations can fail: fails says it of the call that is reached
      by expanding along the given columns. The code then returns 0 for that minor without
      reporting it. */
  ghost function Computed(m: Matrix, fails: seq<nat> -> bool, path: seq<nat>): real
    requires Square(m)
    decreases |m|, |m| + 1
  {
    if |m| <= 2 then Det(m)
    else if fails(path) then 0.0
    else ComputedSum(m, fails, path, |m|)
  }

  ghost function ComputedSum(m: Matrix, fails: seq<nat> -> bool, path: seq<nat>, k: nat): real
    requires Square(m) && k <= |m|
    decreases |m|, k
  {
    if k == 0 then 0.0
    else
      ComputedSum(m, fails, path, k - 1)
      + Times(Times(Sign(k - 1), m[0][k - 1]), Computed(Minor(m, k - 1), fails, path + [k - 1]))
  }

  /** Without failures that is the determinant. */
  lemma {:induction false} ComputedIsDet(m: Matrix, fails: seq<nat> -> bool, path: seq<nat>)
    requires Square(m) && forall p: seq<nat> :: !fails(p)
    ensures Computed(m, fails, path) == Det(m)
    decreases |m|, |m| + 1
  {
    if |m| <= 2 {
    } else {
      ComputedSumIsExpansion(m, fails, path, |m|);
    }
  }

  lemma {:induction false} ComputedSumIsExpansion(m: Matrix, fails: seq<nat> -> bool, path: seq<nat>, k: nat)
    requires Square(m) && k <= |m| && forall p: seq<nat> :: !fails(p)
    ensures ComputedSum(m, fails, path, k) == Expansion(m, k)
    decreases |m|, k
  {
    if k == 0 {
    } else {
      ComputedSumIsExpansion(m, fails, path, k - 1);
      ComputedIsDet(Minor(m, k - 1), fails, path + [k - 1]);
    }
  }

  /** The recursion on flat buffers, with its own formulas for sizes 1 and 2. */
  method DetRec(a: array<real>, n: nat, fails: seq<nat> -> bool, path: seq<nat>) returns (det: real)
    requires n >= 1 && a.Length == n * n
    ensures det == Computed(Rows(a[..], n), fails, path)
    decreases n
  {
    if n == 1 {
      DetOne(a[..]);
      return a[0];
    }
    if n == 2 {
      DetTwo(a[..]);
      return a[0] * a[3] - a[1] * a[2];
    }
    det := 0.0;
    if fails(path) { return 0.0; }
    var sub := new real[(n - 1) * (n - 1)];
    for col := 0 to n
      invariant det == ComputedSum(Rows(a[..], n), fails, path, col)
    {
      FillMinor(a, n, col, sub);
      var sign := if col % 2 == 0 then 1.0 else -1.0;
      var d := DetRec(sub, n - 1, fails, path + [col]);
      TopEntry(a[..], n, col);
      det := det + Times(Times(sign, Entry(a, n, col)), d);
    }
  }

  /** a[col], for the first row of an n-by-n buffer. */
  function Entry(a: array<real>, n: nat, col: nat): real
    requires col < n && a.Length == n * n
    reads a
  {
    CellInRange(0, n, col);
    a[col]
  }

  lemma TopEntry(flat: Row, n: nat, col: nat)
    requires col < n && |flat| == n * n
    ensures col < |flat| && Rows(flat, n)[0][col] == flat[col]
  {
    RowEntry(flat, n, 0, col);
  }

  lemma DetOne(flat: Row)
    requires |flat| == 1
    ensures Det(Rows(flat, 1)) == flat[0]
  {
    DetSizeOne(Rows(flat, 1));
  }

  lemma DetSizeOne(m: Matrix)
    requires Square(m) && |m| == 1
    ensures Det(m) == m[0][0]
  {
    assert Det(Minor(m, 0)) == 1.0;
    assert Expansion(m, 0) == 0.0;
    assert Term(m, 0) == Times(Times(1.0, m[0][0]), 1.0);
  }

  lemma EntryOfTwo(flat: Row, i: nat, j: nat, p: nat)
    requires |flat| == 4 && i < 2 && j < 2 && p == 2 * i + j
    ensures p < |flat| && Rows(flat, 2)[i][j] == flat[p]
  {}

  lemma DetTwo(flat: Row)
    requires |flat| == 4
    ensures Det(Rows(flat, 2)) == Times(flat[0], flat[3]) - Times(flat[1], flat[2])
  {
    EntryOfTwo(flat, 0, 0, 0);
    EntryOfTwo(flat, 0, 1, 1);
    EntryOfTwo(flat, 1, 0, 2);
    EntryOfTwo(flat, 1, 1, 3);
    TwoByTwo(Rows(flat, 2), flat[0], flat[1], flat[2], flat[3]);
  }

  lemma TwoByTwo(m: Matrix, x: real, y: real, z: real, w: real)
    requires Square(m) && |m| == 2 && m[0][0] == x && m[0][1] == y && m[1][0] == z && m[1][1] == w
    ensures Det(m) == Times(x, w) - Times(y, z)
  {
    DetSizeTwo(m);
  }

  lemma DetSizeTwo(m: Matrix)
    requires Square(m) && |m| == 2
    ensures Det(m) == m[0][0] * m[1][1] - m[0][1] * m[1][0]
  {
    DetSizeOne(Minor(m, 0));
    DetSizeOne(Minor(m, 1));
    assert Expansion(m, 0) == 0.0;
    assert Expansion(m, 1) == Term(m, 0);
    assert Term(m, 0) == m[0][0] * m[1][1] && Term(m, 1) == -(m[0][1] * m[1][0]);
  }

  /** The public entry point: a matrix that is not square is an error. */
  method MatrixDet(data: array<real>, rows: nat, cols: nat, fails: seq<nat> -> bool) returns (r: Outcome<real>)
    requires rows >= 1 && cols >= 1 && data.Length == rows * cols
    ensures rows != cols ==> r == Error("Matrix must be square")
    ensures rows == cols ==> r == Done(Computed(Rows(data[..], rows), fails, []))
    ensures rows == cols && (forall p: seq<nat> :: !fails(p)) ==> r == Done(Det(Rows(data[..], rows)))
  {
    if rows != cols { return Error("Matrix must be square"); }
    var d := DetRec(data, rows, fails, []);
    if forall p: seq<nat> :: !fails(p) { ComputedIsDet(Rows(data[..], rows), fails, []); }
    return Done(d);
  }

  /** The identity: a zeroed buffer with ones on the diagonal. */
  method MatrixEye(n: int, oom: bool) returns (data: array?<real>)
    ensures data == null <==> n <= 0 || oom
    ensures data != null ==> fresh(data) && data.Length == n * n && Rows(data[..], n) == Eye(n)
  {
    if n <= 0 || oom { return null; }
    var a := new real[n * n](_ => 0.0);
    for k := 0 to n
      invariant forall i, j :: 0 <= i < n && 0 <= j < n && 0 <= Cell(i, n, j) < n * n ==>
        a[Cell(i, n, j)] == if i == j && i < k then 1.0 else 0.0
    {
      CellInRange(k, n, k);
      a[Cell(k, n, k)] := 1.0;
      forall i, j | 0 <= i < n && 0 <= j < n && 0 <= Cell(i, n, j) < n * n
        ensures Cell(i, n, j) == Cell(k, n, k) <==> i == k && j == k
      {
        CellInjective(i, j, k, k, n);
      }
    }
    EyeRows(a[..], n);
    data := a;
  }

  lemma CellInjective(i: nat, j: nat, k: nat, l: nat, n: nat)
    requires i < n && j < n && k < n && l < n
    ensures Cell(i, n, j) == Cell(k, n, l) <==> i == k && j == l
  {
    if i < k {
      RowBehind(i, k, n);
    } else if k < i {
      RowBehind(k, i, n);
    }
  }

  lemma RowBehind(i: nat, k: nat, n: nat)
    requires i < k
    ensures i * n + n <= k * n
  {
    assert k * n == (i + 1) * n + (k - i - 1) * n;
  }

  lemma EyeRows(flat: Row, n: nat)
    requires |flat| == n * n
    requires forall i, j :: 0 <= i < n && 0 <= j < n && 0 <= Cell(i, n, j) < n * n ==>
      flat[Cell(i, n, j)] == if i == j then 1.0 else 0.0
    ensures Rows(flat, n) == Eye(n)
  {
    var m, e := Rows(flat, n), Eye(n);
    forall i, j | 0 <= i < n && 0 <= j < n ensures m[i][j] == e[i][j] {
      RowEntry(flat, n, i, j);
    }
    forall i | 0 <= i < n ensures m[i] == e[i] {}
  }
}
