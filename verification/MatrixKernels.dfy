/** Matrix product and transpose on row-major buffers (src/abs_matrix.c), over the reals: the scalar
    loop and the one with four lanes compute the same product. */
module MatrixKernels {
  import opened Common
  import opened Determinant
  import opened MatrixLaws

  /** The rows of a row-major buffer. */
  ghost function Grid(flat: Row, rows: nat, cols: nat): (m: Matrix)
    requires |flat| == rows * cols
    ensures |m| == rows && forall i :: 0 <= i < rows ==> |m[i]| == cols
  {
    seq(rows, i requires 0 <= i < rows => GridRow(flat, rows, cols, i))
  }

  ghost function GridRow(flat: Row, rows: nat, cols: nat, i: nat): (r: Row)
    requires |flat| == rows * cols && i < rows
    ensures |r| == cols
  {
    InGrid(rows, cols, i, 0);
    InGrid(rows, cols, i, cols);
    flat[Cell(i, cols, 0)..Cell(i, cols, cols)]
  }

  lemma InGrid(rows: nat, cols: nat, i: nat, j: nat)
    requires i < rows && j <= cols
    ensures 0 <= Cell(i, cols, j) <= rows * cols && (j < cols ==> Cell(i, cols, j) < rows * cols)
    ensures Cell(i, cols, cols) == Cell(i + 1, cols, 0) && Cell(i, cols, 0) + j == Cell(i, cols, j)
  {
    RowsBefore(i + 1, rows, cols);
    assert (i + 1) * cols == i * cols + cols;
  }

  lemma RowsBefore(i: nat, rows: nat, cols: nat)
    requires i <= rows
    ensures 0 <= i * cols <= rows * cols
  {}

  lemma GridEntry(flat: Row, rows: nat, cols: nat, i: nat, j: nat)
    requires |flat| == rows * cols && i < rows && j < cols
    ensures 0 <= Cell(i, cols, j) < rows * cols && Grid(flat, rows, cols)[i][j] == flat[Cell(i, cols, j)]
  {
    InGrid(rows, cols, i, 0);
    InGrid(rows, cols, i, cols);
    InGrid(rows, cols, i, j);
    assert GridRow(flat, rows, cols, i)[j] == flat[Cell(i, cols, 0) + j];
  }

  /** Buffers of square matrices. */
  lemma SquareGrid(flat: Row, n: nat)
    requires |flat| == n * n
    ensures Grid(flat, n, n) == Rows(flat, n)
  {
    forall i | 0 <= i < n ensures Grid(flat, n, n)[i] == Rows(flat, n)[i] {}
  }

  /** A buffer filled row by row. */
  lemma GridOfFlatten(m: Matrix, w: nat)
    requires forall k :: 0 <= k < |m| ==> |m[k]| == w
    ensures |Flatten(m)| == |m| * w && Grid(Flatten(m), |m|, w) == m
  {
    FlattenRows(m, w, 0);
    forall i | 0 <= i < |m| ensures Grid(Flatten(m), |m|, w)[i] == m[i] { FlattenRows(m, w, i); }
  }

  // ---------------------------------------------------------------- the product

  /** The innermost loop of abs_mm_naive: row i of A times column j of B. */
  method Dot(A: array<real>, B: array<real>, rows: nat, cols: nat, common: nat, i: nat, j: nat) returns (sum: real)
    requires A.Length == rows * common && B.Length == common * cols && i < rows && j < cols
    ensures sum == RowTimes(Grid(A[..], rows, common)[i], Grid(B[..], common, cols), cols)[j]
  {
    ghost var f := Products(Grid(A[..], rows, common)[i], Grid(B[..], common, cols), j);
    sum := 0.0;
    for k := 0 to common
      invariant sum == Sum(f, k)
    {
      DotTerm(A[..], B[..], rows, cols, common, i, j, k);
      sum := sum + Times(A[Cell(i, common, k)], B[Cell(k, cols, j)]);
    }
  }

  lemma DotTerm(a: Row, b: Row, rows: nat, cols: nat, common: nat, i: nat, j: nat, k: nat)
    requires |a| == rows * common && |b| == common * cols && i < rows && j < cols && k < common
    ensures 0 <= Cell(i, common, k) < |a| && 0 <= Cell(k, cols, j) < |b|
    ensures Products(Grid(a, rows, common)[i], Grid(b, common, cols), j)(k)
            == Times(a[Cell(i, common, k)], b[Cell(k, cols, j)])
  {
    GridEntry(a, rows, common, i, k);
    GridEntry(b, common, cols, k, j);
  }

  /** The innermost loops of abs_mm_avx: four sums side by side, added up at the end, and the rest
      one by one. Over the reals the order makes no difference. */
  method DotLanes(A: array<real>, B: array<real>, rows: nat, cols: nat, common: nat, i: nat, j: nat)
    returns (acc: real)
    requires A.Length == rows * common && B.Length == common * cols && i < rows && j < cols
    ensures acc == RowTimes(Grid(A[..], rows, common)[i], Grid(B[..], common, cols), cols)[j]
  {
    ghost var f := Products(Grid(A[..], rows, common)[i], Grid(B[..], common, cols), j);
    var s0, s1, s2, s3 := 0.0, 0.0, 0.0, 0.0;
    var k := 0;
    while k + 3 < common
      invariant k <= common && s0 + s1 + s2 + s3 == Sum(f, k)
    {
      var t0 := Product(A, B, rows, cols, common, i, j, k);
      var t1 := Product(A, B, rows, cols, common, i, j, k + 1);
      var t2 := Product(A, B, rows, cols, common, i, j, k + 2);
      var t3 := Product(A, B, rows, cols, common, i, j, k + 3);
      SumFour(f, k);
      s0, s1, s2, s3 := s0 + t0, s1 + t1, s2 + t2, s3 + t3;
      k := k + 4;
    }
    acc := (s0 + s2) + (s1 + s3);
    while k < common
      invariant k <= common && acc == Sum(f, k)
    {
      var t := Product(A, B, rows, cols, common, i, j, k);
      acc := acc + t;
      k := k + 1;
    }
  }

  method Product(A: array<real>, B: array<real>, rows: nat, cols: nat, common: nat, i: nat, j: nat, k: nat)
    returns (p: real)
    requires A.Length == rows * common && B.Length == common * cols && i < rows && j < cols && k < common
    ensures p == Products(Grid(A[..], rows, common)[i], Grid(B[..], common, cols), j)(k)
  {
    DotTerm(A[..], B[..], rows, cols, common, i, j, k);
    p := Times(A[Cell(i, common, k)], B[Cell(k, cols, j)]);
  }

  lemma SumFour(f: int -> real, k: nat)
    ensures Sum(f, k + 4) == Sum(f, k) + f(k) + f(k + 1) + f(k + 2) + f(k + 3)
  {
    assert Sum(f, k + 1) == Sum(f, k) + f(k);
    assert Sum(f, k + 2) == Sum(f, k + 1) + f(k + 1);
    assert Sum(f, k + 3) == Sum(f, k + 2) + f(k + 2);
  }

  /** abs_mm_naive and abs_mm_avx: fills C with the product. */
  method MulKernel(A: array<real>, B: array<real>, C: array<real>, rows: nat, cols: nat, common: nat, avx: bool)
    requires A.Length == rows * common && B.Length == common * cols && C.Length == rows * cols && C != A && C != B
    modifies C
    ensures Grid(C[..], rows, cols) == Mul(Grid(A[..], rows, common), Grid(B[..], common, cols), cols)
  {
    ghost var want := Mul(Grid(A[..], rows, common), Grid(B[..], common, cols), cols);
    for i := 0 to rows
      invariant Filled(C[..], want, i, cols)
    {
      InGrid(rows, cols, i, 0);
      InGrid(rows, cols, i, cols);
      ghost var before := C[..];
      MulRow(A, B, C, rows, cols, common, i, avx);
      FilledStep(before, C[..], want, i, cols);
    }
    FilledAll(C[..], want, cols);
  }

  /** The first i rows are in place. */
  ghost predicate Filled(c: Row, want: Matrix, i: nat, w: nat) {
    i <= |want| && 0 <= Cell(i, w, 0) <= |c| && c[..Cell(i, w, 0)] == Flatten(want[..i])
  }

  lemma FilledStep(before: Row, c: Row, want: Matrix, i: nat, w: nat)
    requires i < |want| && |before| == |c| && Filled(before, want, i, w) && |want[i]| == w
    requires 0 <= Cell(i, w, w) <= |c| && c[..Cell(i, w, w)] == before[..Cell(i, w, 0)] + want[i]
    ensures Filled(c, want, i + 1, w)
  {
    assert want[..i + 1][..i] == want[..i];
    assert Cell(i + 1, w, 0) == Cell(i, w, w);
  }

  lemma FilledAll(c: Row, want: Matrix, w: nat)
    requires Filled(c, want, |want|, w) && |c| == |want| * w && forall k :: 0 <= k < |want| ==> |want[k]| == w
    ensures Grid(c, |want|, w) == want
  {
    assert want[..|want|] == want && c[..|c|] == c;
    GridOfFlatten(want, w);
  }

  /** The middle loop: row i of the product. */
  method MulRow(A: array<real>, B: array<real>, C: array<real>, rows: nat, cols: nat, common: nat, i: nat, avx: bool)
    requires A.Length == rows * common && B.Length == common * cols && C.Length == rows * cols && C != A && C != B
    requires i < rows && 0 <= Cell(i, cols, 0) <= Cell(i, cols, cols) <= C.Length
    modifies C
    ensures C[..Cell(i, cols, cols)]
            == old(C[..Cell(i, cols, 0)]) + RowTimes(Grid(A[..], rows, common)[i], Grid(B[..], common, cols), cols)
  {
    ghost var want := RowTimes(Grid(A[..], rows, common)[i], Grid(B[..], common, cols), cols);
    ghost var done := C[..Cell(i, cols, 0)];
    for j := 0 to cols
      invariant 0 <= Cell(i, cols, 0) <= Cell(i, cols, j) <= C.Length && C[..Cell(i, cols, j)] == done + want[..j]
    {
      var sum;
      if avx {
        sum := DotLanes(A, B, rows, cols, common, i, j);
      } else {
        sum := Dot(A, B, rows, cols, common, i, j);
      }
      InGrid(rows, cols, i, j);
      assert sum == want[j];
      ghost var before, p := C[..Cell(i, cols, j)], Cell(i, cols, j);
      C[Cell(i, cols, j)] := sum;
      assert C[..p + 1] == before + [want[j]] && Cell(i, cols, j + 1) == p + 1;
      assert want[..j + 1] == want[..j] + [want[j]];
    }
    assert want[..cols] == want;
  }

  /** abs_matrix_new, as far as its failures go: dimensions come before memory. */
  method NewData(rows: int, cols: int, oom: bool) returns (r: Outcome<array<real>>)
    ensures r.Done? <==> rows > 0 && cols > 0 && !oom
    ensures r.Done? ==> fresh(r.value) && r.value.Length == rows * cols
    ensures r.Error? ==> r.message == if rows <= 0 || cols <= 0 then "Invalid matrix dimensions" else "Out of memory"
  {
    if rows <= 0 || cols <= 0 {
      return Error("Invalid matrix dimensions");
    }
    if oom {
      return Error("Out of memory");
    }
    var data := new real[rows * cols](_ => 0.0);
    r := Done(data);
  }

  /** abs_matrix_mul on two matrices. */
  method MatrixMul(A: array<real>, ra: nat, ca: nat, B: array<real>, rb: nat, cb: nat, avx: bool, oom: bool)
    returns (r: Outcome<array<real>>)
    requires ra > 0 && ca > 0 && rb > 0 && cb > 0 && A.Length == ra * ca && B.Length == rb * cb
    ensures r.Error? ==> r.message == if ca != rb then "Dimension mismatch" else "Out of memory"
    ensures r.Done? <==> ca == rb && !oom
    ensures r.Done? ==> fresh(r.value) && r.value.Length == ra * cb
                        && Grid(r.value[..], ra, cb) == Mul(Grid(A[..], ra, ca), Grid(B[..], rb, cb), cb)
  {
    if ca != rb {
      return Error("Dimension mismatch");
    }
    r := NewData(ra, cb, oom);
    if r.Error? {
      return;
    }
    MulKernel(A, B, r.value, ra, cb, ca, avx);
  }

  // ---------------------------------------------------------------- the transpose

  lemma CellsDiffer(i: nat, j: nat, k: nat, l: nat, w: nat)
    requires j < w && l < w
    ensures Cell(i, w, j) == Cell(k, w, l) <==> i == k && j == l
  {
    if i < k {
      RowBehind(i, k, w);
    } else if k < i {
      RowBehind(k, i, w);
    }
  }

  /** The first i rows, and the first j entries of row i, have been copied to their columns. */
  ghost predicate Turned(t: Row, m: Row, rows: nat, cols: nat, i: nat, j: nat)
    requires |t| == |m| == rows * cols
  {
    forall k: nat, l: nat {:trigger Cell(l, rows, k)} :: k < rows && l < cols && (k < i || (k == i && l < j)) ==>
      && 0 <= Cell(l, rows, k) < |t| && 0 <= Cell(k, cols, l) < |m| && t[Cell(l, rows, k)] == m[Cell(k, cols, l)]
  }

  lemma TurnOne(t: Row, m: Row, rows: nat, cols: nat, i: nat, j: nat)
    requires |t| == |m| == rows * cols && i < rows && j < cols && Turned(t, m, rows, cols, i, j)
    ensures 0 <= Cell(j, rows, i) < |t| && 0 <= Cell(i, cols, j) < |m|
    ensures Turned(t[Cell(j, rows, i) := m[Cell(i, cols, j)]], m, rows, cols, i, j + 1)
  {
    InGrid(rows, cols, i, j);
    InGrid(cols, rows, j, i);
    var u := t[Cell(j, rows, i) := m[Cell(i, cols, j)]];
    forall k: nat, l: nat {:trigger Cell(l, rows, k)} | k < rows && l < cols && (k < i || (k == i && l < j + 1))
      ensures 0 <= Cell(l, rows, k) < |t| && 0 <= Cell(k, cols, l) < |m| && u[Cell(l, rows, k)] == m[Cell(k, cols, l)]
    {
      CellsDiffer(l, k, j, i, rows);
    }
  }

  lemma TurnedAll(t: Row, m: Row, rows: nat, cols: nat)
    requires |t| == |m| == rows * cols && Turned(t, m, rows, cols, rows, 0)
    ensures Grid(t, cols, rows) == Transpose(Grid(m, rows, cols), cols)
  {
    var g, w := Grid(t, cols, rows), Transpose(Grid(m, rows, cols), cols);
    forall l, k | 0 <= l < cols && 0 <= k < rows ensures g[l][k] == w[l][k] {
      GridEntry(t, cols, rows, l, k);
      GridEntry(m, rows, cols, k, l);
    }
    forall l | 0 <= l < cols ensures g[l] == w[l] {}
  }

  /** abs_matrix_transpose on a matrix. */
  method MatrixTranspose(m: array<real>, rows: nat, cols: nat, oom: bool) returns (r: Outcome<array<real>>)
    requires rows > 0 && cols > 0 && m.Length == rows * cols
    ensures r == Error("Out of memory") || r.Done?
    ensures r.Done? <==> !oom
    ensures r.Done? ==> fresh(r.value) && r.value.Length == cols * rows
                        && Grid(r.value[..], cols, rows) == Transpose(Grid(m[..], rows, cols), cols)
  {
    r := NewData(cols, rows, oom);
    if r.Error? {
      return;
    }
    var t := r.value;
    for i := 0 to rows
      invariant fresh(t) && Turned(t[..], m[..], rows, cols, i, 0)
    {
      for j := 0 to cols
        invariant fresh(t) && Turned(t[..], m[..], rows, cols, i, j)
      {
        TurnOne(t[..], m[..], rows, cols, i, j);
        t[Cell(j, rows, i)] := m[Cell(i, cols, j)];
      }
    }
    TurnedAll(t[..], m[..], rows, cols);
  }

  // ---------------------------------------------------------------- entry by entry

  ghost function At(s: Row, k: int): real {
    if 0 <= k < |s| then s[k] else 0.0
  }

  /** The sum over the first n columns of a and rows of b, places in the buffers written out. */
  ghost function EntrySum(a: Row, b: Row, cols: nat, common: nat, i: nat, j: nat, n: nat): real {
    if n == 0 then 0.0
    else EntrySum(a, b, cols, common, i, j, n - 1) + Times(At(a, i * common + n - 1), At(b, (n - 1) * cols + j))
  }

  lemma {:induction false} EntrySums(a: Row, b: Row, rows: nat, cols: nat, common: nat, i: nat, j: nat, n: nat)
    requires |a| == rows * common && |b| == common * cols && i < rows && j < cols && n <= common
    ensures Sum(Products(Grid(a, rows, common)[i], Grid(b, common, cols), j), n)
            == EntrySum(a, b, cols, common, i, j, n)
  {
    if n == 0 {
    } else {
      EntrySums(a, b, rows, cols, common, i, j, n - 1);
      DotTerm(a, b, rows, cols, common, i, j, n - 1);
    }
  }

  /** Every entry of a product buffer. */
  lemma ProductEntry(a: Row, b: Row, c: Row, rows: nat, cols: nat, common: nat, i: nat, j: nat)
    requires |a| == rows * common && |b| == common * cols && |c| == rows * cols && i < rows && j < cols
    requires Grid(c, rows, cols) == Mul(Grid(a, rows, common), Grid(b, common, cols), cols)
    ensures At(c, i * cols + j) == EntrySum(a, b, cols, common, i, j, common)
  {
    GridEntry(c, rows, cols, i, j);
    EntrySums(a, b, rows, cols, common, i, j, common);
  }

  /** Every entry of a transposed buffer. */
  lemma TransposeEntry(m: Row, t: Row, rows: nat, cols: nat, i: nat, j: nat)
    requires |m| == |t| == rows * cols && i < rows && j < cols
    requires Grid(t, cols, rows) == Transpose(Grid(m, rows, cols), cols)
    ensures At(t, j * rows + i) == At(m, i * cols + j)
  {
    GridEntry(t, cols, rows, j, i);
    GridEntry(m, rows, cols, i, j);
  }

  // ---------------------------------------------------------------- what the determinant makes of both

  /** The determinant abs_matrix_det computes for a product buffer. */
  lemma DetOfProduct(a: Row, b: Row, c: Row, n: nat)
    requires |a| == |b| == |c| == n * n && Grid(c, n, n) == Mul(Grid(a, n, n), Grid(b, n, n), n)
    ensures Det(Rows(c, n)) == Times(Det(Rows(a, n)), Det(Rows(b, n)))
  {
    SquareGrid(a, n);
    SquareGrid(b, n);
    SquareGrid(c, n);
    DetProduct(Rows(a, n), Rows(b, n));
  }

  /** The determinant it computes for a transposed buffer. */
  lemma DetOfTransposed(m: Row, t: Row, n: nat)
    requires |m| == |t| == n * n && Grid(t, n, n) == Transpose(Grid(m, n, n), n)
    ensures Det(Rows(t, n)) == Det(Rows(m, n))
  {
    SquareGrid(m, n);
    SquareGrid(t, n);
    DetTranspose(Rows(m, n));
  }
}
