/** Merge sort (src/abs_sort.c) with the merges it skips for lack of memory. What it leaves is a function
    of the list and of the merges that fail; it is sorted exactly when every skipped merge finds its
    two halves in order already. */
module MergeSorts {
  import opened SortSpec

  /** The merge of two runs, taking from the left one when the heads are equal. */
  ghost function MergeOf<T>(l: seq<T>, r: seq<T>, cmp: Cmp<T>): (m: seq<T>)
    ensures |m| == |l| + |r|
    decreases |l| + |r|
  {
    if l == [] then r
    else if r == [] then l
    else if cmp(l[0], r[0]) <= 0 then [l[0]] + MergeOf(l[1..], r, cmp)
    else [r[0]] + MergeOf(l, r[1..], cmp)
  }

  ghost predicate AboveAll<T>(x: T, s: seq<T>, cmp: Cmp<T>) {
    forall i :: 0 <= i < |s| ==> cmp(x, s[i]) <= 0
  }

  lemma {:induction false} MergeAbove<T>(x: T, l: seq<T>, r: seq<T>, cmp: Cmp<T>)
    requires AboveAll(x, l, cmp) && AboveAll(x, r, cmp)
    ensures AboveAll(x, MergeOf(l, r, cmp), cmp)
    decreases |l| + |r|
  {
    if l == [] || r == [] {
    } else {
      if cmp(l[0], r[0]) <= 0 { MergeAbove(x, l[1..], r, cmp); } else { MergeAbove(x, l, r[1..], cmp); }
    }
  }

  lemma SortedHead<T(!new)>(s: seq<T>, x: T, cmp: Cmp<T>)
    requires TotalPreorder(cmp) && Sorted(s, cmp) && (s == [] || cmp(x, s[0]) <= 0)
    ensures AboveAll(x, s, cmp)
  {
    forall i | 0 <= i < |s| ensures cmp(x, s[i]) <= 0 {
      if i > 0 { Trans(x, s[0], s[i], cmp); }
    }
  }

  lemma SortedCons<T>(x: T, s: seq<T>, cmp: Cmp<T>)
    requires Sorted(s, cmp) && AboveAll(x, s, cmp)
    ensures Sorted([x] + s, cmp)
  {}

  lemma {:induction false} MergeSortedRuns<T(!new)>(l: seq<T>, r: seq<T>, cmp: Cmp<T>)
    requires TotalPreorder(cmp) && Sorted(l, cmp) && Sorted(r, cmp)
    ensures Sorted(MergeOf(l, r, cmp), cmp)
    decreases |l| + |r|
  {
    if l == [] || r == [] {
    } else {
      if cmp(l[0], r[0]) <= 0 {
        MergeSortedRuns(l[1..], r, cmp);
        SortedHead(l[1..], l[0], cmp);
        SortedHead(r, l[0], cmp);
        MergeAbove(l[0], l[1..], r, cmp);
        SortedCons(l[0], MergeOf(l[1..], r, cmp), cmp);
      } else {
        MergeSortedRuns(l, r[1..], cmp);
        SortedHead(l, r[0], cmp);
        SortedHead(r[1..], r[0], cmp);
        MergeAbove(r[0], l, r[1..], cmp);
        SortedCons(r[0], MergeOf(l, r[1..], cmp), cmp);
      }
    }
  }

  lemma ClassCons<T>(y: T, s: seq<T>, x: T, cmp: Cmp<T>)
    ensures Class([y] + s, x, cmp) == (if cmp(y, x) == 0 then [y] else []) + Class(s, x, cmp)
  {
    assert ([y] + s)[1..] == s;
  }

  lemma ClassHead<T>(s: seq<T>, x: T, cmp: Cmp<T>)
    requires s != []
    ensures Class(s, x, cmp) == (if cmp(s[0], x) == 0 then [s[0]] else []) + Class(s[1..], x, cmp)
  {}

  /** Merging keeps equal elements in order, those of the left run first. */
  lemma {:induction false} MergeClass<T(!new)>(l: seq<T>, r: seq<T>, x: T, cmp: Cmp<T>)
    requires TotalPreorder(cmp) && Sorted(l, cmp)
    ensures Class(MergeOf(l, r, cmp), x, cmp) == Class(l, x, cmp) + Class(r, x, cmp)
    decreases |l| + |r|
  {
    if l == [] || r == [] {
    } else if cmp(l[0], r[0]) <= 0 {
      MergeClass(l[1..], r, x, cmp);
      MergeClassLeft(l, r, x, cmp);
    } else {
      MergeClass(l, r[1..], x, cmp);
      MergeClassRight(l, r, x, cmp);
    }
  }

  lemma MergeClassLeft<T(!new)>(l: seq<T>, r: seq<T>, x: T, cmp: Cmp<T>)
    requires l != [] && r != [] && cmp(l[0], r[0]) <= 0
    requires Class(MergeOf(l[1..], r, cmp), x, cmp) == Class(l[1..], x, cmp) + Class(r, x, cmp)
    ensures Class(MergeOf(l, r, cmp), x, cmp) == Class(l, x, cmp) + Class(r, x, cmp)
  {
    var e, m := if cmp(l[0], x) == 0 then [l[0]] else [], MergeOf(l[1..], r, cmp);
    ClassCons(l[0], m, x, cmp);
    ClassHead(l, x, cmp);
    assert MergeOf(l, r, cmp) == [l[0]] + m;
    Regroup(e, Class(l[1..], x, cmp), Class(r, x, cmp));
  }

  lemma MergeClassRight<T(!new)>(l: seq<T>, r: seq<T>, x: T, cmp: Cmp<T>)
    requires TotalPreorder(cmp) && Sorted(l, cmp) && l != [] && r != [] && cmp(l[0], r[0]) > 0
    requires Class(MergeOf(l, r[1..], cmp), x, cmp) == Class(l, x, cmp) + Class(r[1..], x, cmp)
    ensures Class(MergeOf(l, r, cmp), x, cmp) == Class(l, x, cmp) + Class(r, x, cmp)
  {
    var e, m := if cmp(r[0], x) == 0 then [r[0]] else [], MergeOf(l, r[1..], cmp);
    ClassCons(r[0], m, x, cmp);
    ClassHead(r, x, cmp);
    if cmp(r[0], x) == 0 { NoneEqual(l, r[0], x, cmp); }
    assert MergeOf(l, r, cmp) == [r[0]] + m;
    OneEmpty(e, Class(l, x, cmp), Class(r[1..], x, cmp));
  }

  lemma OneEmpty<T>(e: seq<T>, a: seq<T>, b: seq<T>)
    requires e == [] || a == []
    ensures e + (a + b) == a + (e + b)
  {}

  lemma NoneEqual<T(!new)>(l: seq<T>, y: T, x: T, cmp: Cmp<T>)
    requires TotalPreorder(cmp) && Sorted(l, cmp) && l != [] && cmp(l[0], y) > 0 && cmp(y, x) == 0
    ensures Class(l, x, cmp) == []
  {
    ClassMembers(l, x, cmp);
    forall i | 0 <= i < |l| ensures cmp(l[i], x) != 0 {
      if cmp(l[i], x) == 0 {
        if i > 0 { Trans(l[0], l[i], x, cmp); }
        Trans(l[0], x, y, cmp);
        assert false;
      }
    }
    if Class(l, x, cmp) != [] {
      assert Class(l, x, cmp)[0] in Class(l, x, cmp);
      assert false;
    }
  }

  lemma MergeStable<T(!new)>(l: seq<T>, r: seq<T>, l0: seq<T>, r0: seq<T>, cmp: Cmp<T>)
    requires TotalPreorder(cmp) && StablySorted(l, l0, cmp) && StablySorted(r, r0, cmp)
    ensures StablySorted(MergeOf(l, r, cmp), l0 + r0, cmp)
  {
    MergeSortedRuns(l, r, cmp);
    forall x ensures Class(MergeOf(l, r, cmp), x, cmp) == Class(l0 + r0, x, cmp) {
      MergeClass(l, r, x, cmp);
      ClassAppend(l0, r0, x, cmp);
    }
  }

  /** Taking one more element from either run. */
  lemma MergeStep<T>(done: seq<T>, l: seq<T>, r: seq<T>, i: nat, j: nat, cmp: Cmp<T>)
    requires i < |l| && j < |r|
    ensures done + MergeOf(l[i..], r[j..], cmp)
            == if cmp(l[i], r[j]) <= 0 then (done + [l[i]]) + MergeOf(l[i + 1..], r[j..], cmp)
               else (done + [r[j]]) + MergeOf(l[i..], r[j + 1..], cmp)
  {}

  /** done is what the first i elements of l and the first j of r have been merged to. */
  ghost predicate Underway<T>(done: seq<T>, l: seq<T>, i: nat, r: seq<T>, j: nat, cmp: Cmp<T>) {
    && i <= |l| && j <= |r| && |done| == i + j
    && done + MergeOf(l[i..], r[j..], cmp) == MergeOf(l, r, cmp)
  }

  lemma UnderwayStep<T>(done: seq<T>, l: seq<T>, i: nat, r: seq<T>, j: nat, cmp: Cmp<T>)
    requires i < |l| && j < |r| && Underway(done, l, i, r, j, cmp)
    ensures cmp(l[i], r[j]) <= 0 ==> Underway(done + [l[i]], l, i + 1, r, j, cmp)
    ensures cmp(l[i], r[j]) > 0 ==> Underway(done + [r[j]], l, i, r, j + 1, cmp)
  {
    MergeStep(done, l, r, i, j, cmp);
  }

  /** s with the cells from k on overwritten by p. */
  ghost function Splice<T>(s: seq<T>, k: nat, p: seq<T>): (t: seq<T>)
    requires k + |p| <= |s|
    ensures |t| == |s|
  {
    s[..k] + p + s[k + |p|..]
  }

  lemma SpliceOne<T>(s: seq<T>, k: nat, p: seq<T>, x: T)
    requires k + |p| < |s|
    ensures Splice(s, k, p)[k + |p| := x] == Splice(s, k, p + [x])
  {}

  /** The loop that runs while both runs have elements left; done is what it writes. */
  method MergeHeads<T>(a: array<T>, l: nat, L: array<T>, R: array<T>, cmp: Cmp<T>)
    returns (i: nat, j: nat, k: nat, ghost done: seq<T>)
    requires a != L && a != R && l + L.Length + R.Length <= a.Length
    modifies a
    ensures k == l + i + j && Underway(done, L[..], i, R[..], j, cmp) && (i == L.Length || j == R.Length)
    ensures a[..] == Splice(old(a[..]), l, done)
  {
    ghost var s, x, y := a[..], L[..], R[..];
    i, j, k, done := 0, 0, l, [];
    while i < L.Length && j < R.Length
      invariant L[..] == x && R[..] == y && k == l + i + j && Underway(done, x, i, y, j, cmp)
      invariant a[..] == Splice(s, l, done)
    {
      UnderwayStep(done, x, i, y, j, cmp);
      if cmp(L[i], R[j]) <= 0 {
        Append(a, k, L[i], s, l, done);
        done := done + [x[i]];
        k, i := k + 1, i + 1;
      } else {
        Append(a, k, R[j], s, l, done);
        done := done + [y[j]];
        k, j := k + 1, j + 1;
      }
    }
  }

  /** Writes the next element of the merge. */
  method Append<T>(a: array<T>, k: nat, v: T, ghost s: seq<T>, ghost l: nat, ghost done: seq<T>)
    requires k == l + |done| < a.Length == |s| && a[..] == Splice(s, l, done)
    modifies a
    ensures a[..] == Splice(s, l, done + [v])
  {
    SpliceOne(s, l, done, v);
    a[k] := v;
  }

  /** One of the two loops that copy what is left of a run. */
  method CopyTail<T>(a: array<T>, k: nat, src: array<T>, i: nat) returns (k': nat)
    requires a != src && i <= src.Length && k + src.Length - i <= a.Length
    modifies a
    ensures k' == k + src.Length - i && a[..] == Splice(old(a[..]), k, src[..][i..])
  {
    ghost var s, t := a[..], src[..];
    var j := i;
    k' := k;
    while j < src.Length
      invariant i <= j <= src.Length && k' == k + (j - i) && src[..] == t
      invariant a[..] == Splice(s, k, t[i..j])
    {
      CopyOne(s, k, t, i, j);
      a[k'] := src[j];
      k', j := k' + 1, j + 1;
    }
  }

  lemma CopyOne<T>(s: seq<T>, k: nat, t: seq<T>, i: nat, j: nat)
    requires i <= j < |t| && k + |t| - i <= |s|
    ensures Splice(s, k, t[i..j])[k + (j - i) := t[j]] == Splice(s, k, t[i..j + 1])
  {
    SpliceOne(s, k, t[i..j], t[j]);
    assert t[i..j] + [t[j]] == t[i..j + 1];
  }

  /** The second and the third loop. */
  method CopyTails<T>(a: array<T>, k: nat, L: array<T>, i: nat, R: array<T>, j: nat)
    requires a != L && a != R && i <= L.Length && j <= R.Length && k + (L.Length - i) + (R.Length - j) <= a.Length
    modifies a
    ensures a[..] == Splice(old(a[..]), k, L[..][i..] + R[..][j..])
  {
    ghost var s := a[..];
    var k' := CopyTail(a, k, L, i);
    ghost var t := a[..];
    k' := CopyTail(a, k', R, j);
    SpliceTwice(s, k, L[..][i..], R[..][j..], t);
  }

  lemma SpliceTwice<T>(s: seq<T>, k: nat, p: seq<T>, q: seq<T>, t: seq<T>)
    requires k + |p| + |q| <= |s| && t == Splice(s, k, p)
    ensures Splice(t, k + |p|, q) == Splice(s, k, p + q)
  {}

  /** The three loops: merges two copied runs into the cells from l on. */
  method MergeRuns<T>(a: array<T>, l: nat, L: array<T>, R: array<T>, cmp: Cmp<T>)
    requires a != L && a != R && l + L.Length + R.Length <= a.Length
    modifies a
    ensures a[..] == Splice(old(a[..]), l, MergeOf(L[..], R[..], cmp))
  {
    ghost var s := a[..];
    var i, j, k;
    ghost var done;
    i, j, k, done := MergeHeads(a, l, L, R, cmp);
    ghost var t := a[..];
    CopyTails(a, k, L, i, R, j);
    MergeRest(done, L[..][i..], R[..][j..], MergeOf(L[..], R[..], cmp), cmp);
    SpliceTwice(s, l, done, L[..][i..] + R[..][j..], t);
  }

  lemma MergeRest<T>(done: seq<T>, p: seq<T>, q: seq<T>, m: seq<T>, cmp: Cmp<T>)
    requires (p == [] || q == []) && done + MergeOf(p, q, cmp) == m
    ensures m == done + (p + q)
  {}

  /** Merges the runs l..m and m + 1..r of the list, using copies of both; without memory for the
      copies it does nothing. */
  method Merge<T>(a: array<T>, l: nat, m: nat, r: nat, cmp: Cmp<T>, oom: bool)
    requires l <= m < r < a.Length
    modifies a
    ensures a[..] == if oom then old(a[..])
                     else Splice(old(a[..]), l, MergeOf(old(a[l..m + 1]), old(a[m + 1..r + 1]), cmp))
  {
    if oom { return; }
    var L := new T[m - l + 1](i requires 0 <= i < m - l + 1 reads a => a[l + i]);
    var R := new T[r - m](j requires 0 <= j < r - m reads a => a[m + 1 + j]);
    assert L[..] == a[l..m + 1] && R[..] == a[m + 1..r + 1];
    MergeRuns(a, l, L, R, cmp);
  }

  lemma {:induction false} MergePermutes<T>(l: seq<T>, r: seq<T>, cmp: Cmp<T>)
    ensures multiset(MergeOf(l, r, cmp)) == multiset(l) + multiset(r)
    decreases |l| + |r|
  {
    if l == [] || r == [] {
    } else {
      assert l == [l[0]] + l[1..] && r == [r[0]] + r[1..];
      if cmp(l[0], r[0]) <= 0 { MergePermutes(l[1..], r, cmp); } else { MergePermutes(l, r[1..], cmp); }
    }
  }

  lemma {:induction false} MergeAgrees<T(!new)>(l: seq<T>, r: seq<T>, o: Order<T>, cmp: Cmp<T>)
    requires Governs(o, cmp) && Covers(o, l) && Covers(o, r)
    ensures MergeOf(l, r, cmp) == MergeOf(l, r, o.c) && Covers(o, MergeOf(l, r, cmp))
    decreases |l| + |r|
  {
    if l == [] || r == [] {
    } else {
      assert l[0] in o.dom && r[0] in o.dom;
      if cmp(l[0], r[0]) <= 0 { MergeAgrees(l[1..], r, o, cmp); } else { MergeAgrees(l, r[1..], o, cmp); }
    }
  }

  // ---------------------------------------------------------------- merge sort and what it skips

  /** Which merges fail: that of the n places from l on. */
  type Failures = (nat, nat) -> bool

  /** The merges to be done on a list: its elements in the leaves, and whether a merge is skipped. */
  datatype Merges<T> = Run(s: seq<T>) | Halves(left: Merges<T>, right: Merges<T>, skipped: bool) {
    function Elements(): seq<T> {
      match this
      case Run(s) => s
      case Halves(left, right, _) => left.Elements() + right.Elements()
    }
  }

  /** How many of n elements go to the left half: half of them, the larger half if n is odd. */
  function Left(n: nat): (k: nat)
    requires n > 1
    ensures 0 < k < n && n <= 2 * k <= n + 1
  {
    (n - 1) / 2 + 1
  }

  /** The merges that merge sort does on the elements s at the places from l on. */
  ghost function Plan<T>(s: seq<T>, l: nat, fails: Failures): Merges<T>
    decreases |s|
  {
    if |s| <= 1 then Run(s)
    else Halves(Plan(s[..Left(|s|)], l, fails), Plan(s[Left(|s|)..], l + Left(|s|), fails), fails(l, |s|))
  }

  /** What they make of the list. */
  ghost function Result<T>(p: Merges<T>, cmp: Cmp<T>): (t: seq<T>)
    ensures |t| == |p.Elements()|
  {
    match p
    case Run(s) => s
    case Halves(left, right, skipped) => Joined(Result(left, cmp), Result(right, cmp), skipped, cmp)
  }

  /** The merge of two runs, or the runs as they are if it is skipped. */
  ghost function Joined<T>(x: seq<T>, y: seq<T>, skip: bool, cmp: Cmp<T>): (t: seq<T>)
    ensures |t| == |x| + |y|
  {
    if skip then x + y else MergeOf(x, y, cmp)
  }

  /** What merge sort leaves of a list. */
  ghost function MergeSorted<T>(s: seq<T>, fails: Failures, cmp: Cmp<T>): seq<T> {
    Result(Plan(s, 0, fails), cmp)
  }

  lemma {:induction false} PlanElements<T>(s: seq<T>, l: nat, fails: Failures)
    ensures Plan(s, l, fails).Elements() == s
    decreases |s|
  {
    if |s| <= 1 {
    } else {
      PlanElements(s[..Left(|s|)], l, fails);
      PlanElements(s[Left(|s|)..], l + Left(|s|), fails);
    }
  }

  /** The plan of n elements at the places from l on, whichever elements they are. */
  ghost predicate Shaped<T>(p: Merges<T>, l: nat, n: nat, fails: Failures)
    decreases p
  {
    match p
    case Run(s) => |s| == n <= 1
    case Halves(left, right, skipped) =>
      && n > 1 && skipped == fails(l, n)
      && Shaped(left, l, Left(n), fails) && Shaped(right, l + Left(n), n - Left(n), fails)
  }

  lemma {:induction false} PlanShaped<T>(s: seq<T>, l: nat, fails: Failures)
    ensures Shaped(Plan(s, l, fails), l, |s|, fails)
    decreases |s|
  {
    if |s| <= 1 {
    } else {
      PlanShaped(s[..Left(|s|)], l, fails);
      PlanShaped(s[Left(|s|)..], l + Left(|s|), fails);
    }
  }

  lemma {:induction false} ShapedSize<T>(p: Merges<T>, l: nat, n: nat, fails: Failures)
    requires Shaped(p, l, n, fails)
    ensures |p.Elements()| == n
  {
    match p
    case Run(_) =>
    case Halves(left, right, _) =>
      ShapedSize(left, l, Left(n), fails);
      ShapedSize(right, l + Left(n), n - Left(n), fails);
  }

  /** p is the plan for the places l .. h - 1 of s. */
  ghost predicate Planned<T>(p: Merges<T>, s: seq<T>, l: nat, h: nat, fails: Failures) {
    l < h <= |s| && Shaped(p, l, h - l, fails) && p.Elements() == s[l..h]
  }

  /** t is s with x at the places l .. h - 1. */
  ghost predicate Replaced<T>(s: seq<T>, t: seq<T>, l: nat, h: nat, x: seq<T>) {
    l <= h <= |s| && |x| == h - l && t == Splice(s, l, x)
  }

  method MergeSortRec<T>(a: array<T>, l: nat, r: nat, cmp: Cmp<T>, fails: Failures, ghost p: Merges<T>)
    returns (ghost x: seq<T>)
    requires r < a.Length && Planned(p, a[..], l, r + 1, fails)
    modifies a
    ensures x == Result(p, cmp) && Replaced(old(a[..]), a[..], l, r + 1, x)
    decreases r - l, 1
  {
    if l < r {
      var m := l + (r - l) / 2;
      PlannedHalves(a[..], l, m, r, p, fails);
      x := SortHalves(a, l, m, r, cmp, fails, p);
    } else {
      x := Result(p, cmp);
      PlannedOne(a[..], l, p, fails, cmp);
    }
  }

  /** The two recursive calls and the merge. */
  method SortHalves<T>(a: array<T>, l: nat, m: nat, r: nat, cmp: Cmp<T>, fails: Failures, ghost p: Merges<T>)
    returns (ghost x: seq<T>)
    requires l <= m < r < a.Length && p.Halves? && p.skipped == fails(l, r - l + 1)
    requires Planned(p.left, a[..], l, m + 1, fails) && Planned(p.right, a[..], m + 1, r + 1, fails)
    modifies a
    ensures x == Result(p, cmp) && Replaced(old(a[..]), a[..], l, r + 1, x)
    decreases r - l, 0
  {
    ghost var s := a[..];
    ghost var y := MergeSortRec(a, l, m, cmp, fails, p.left);
    ghost var t := a[..];
    PlannedElsewhere(s, t, l, m + 1, r + 1, y, p.right, fails);
    ghost var z := MergeSortRec(a, m + 1, r, cmp, fails, p.right);
    x := Finish(a, l, m, r, cmp, fails, s, t, y, z);
  }

  /** The merge of the two halves. */
  method Finish<T>(a: array<T>, l: nat, m: nat, r: nat, cmp: Cmp<T>, fails: Failures, ghost s: seq<T>,
                   ghost t: seq<T>, ghost y: seq<T>, ghost z: seq<T>) returns (ghost x: seq<T>)
    requires l <= m < r < a.Length
    requires Replaced(s, t, l, m + 1, y) && Replaced(t, a[..], m + 1, r + 1, z)
    modifies a
    ensures x == Joined(y, z, fails(l, r - l + 1), cmp) && Replaced(s, a[..], l, r + 1, x)
  {
    ghost var u := a[..];
    Merge(a, l, m, r, cmp, fails(l, r - l + 1));
    assert u[l..m + 1] == old(a[l..m + 1]) && u[m + 1..r + 1] == old(a[m + 1..r + 1]);
    x := Joined(y, z, fails(l, r - l + 1), cmp);
    PartsJoined(s, t, u, a[..], l, m + 1, r + 1, y, z, fails(l, r - l + 1), cmp);
  }

  lemma PlannedHalves<T>(s: seq<T>, l: nat, m: nat, r: nat, p: Merges<T>, fails: Failures)
    requires l <= m < r < |s| && m == l + (r - l) / 2 && Planned(p, s, l, r + 1, fails)
    ensures p.Halves? && p.skipped == fails(l, r - l + 1)
    ensures Planned(p.left, s, l, m + 1, fails) && Planned(p.right, s, m + 1, r + 1, fails)
  {
    var x, y := p.left.Elements(), p.right.Elements();
    assert Left(r + 1 - l) == m + 1 - l;
    ShapedSize(p.left, l, m + 1 - l, fails);
    ShapedSize(p.right, m + 1, r - m, fails);
    SliceParts(s, l, m + 1, r + 1, x, y);
  }

  lemma SliceParts<T>(s: seq<T>, l: nat, m: nat, h: nat, x: seq<T>, y: seq<T>)
    requires l <= m <= h <= |s| && |x| == m - l && s[l..h] == x + y
    ensures x == s[l..m] && y == s[m..h]
  {
    assert s[l..h][..m - l] == s[l..m] && s[l..h][m - l..] == s[m..h];
  }

  lemma PlannedElsewhere<T>(s: seq<T>, t: seq<T>, l: nat, m: nat, h: nat, y: seq<T>, q: Merges<T>, fails: Failures)
    requires Replaced(s, t, l, m, y) && Planned(q, s, m, h, fails)
    ensures Planned(q, t, m, h, fails)
  {
    assert t[m..h] == s[m..h];
  }

  lemma PlannedOne<T>(s: seq<T>, l: nat, p: Merges<T>, fails: Failures, cmp: Cmp<T>)
    requires Planned(p, s, l, l + 1, fails)
    ensures Replaced(s, s, l, l + 1, Result(p, cmp))
  {
    assert p.Run?;
  }

  /** The two halves and the merge add up. */
  lemma PartsJoined<T>(s: seq<T>, t: seq<T>, u: seq<T>, v: seq<T>, l: nat, m: nat, h: nat, x: seq<T>, y: seq<T>,
                       skip: bool, cmp: Cmp<T>)
    requires Replaced(s, t, l, m, x) && Replaced(t, u, m, h, y) && |s| == |u|
    requires v == if skip then u else Splice(u, l, MergeOf(u[l..m], u[m..h], cmp))
    ensures Replaced(s, v, l, h, Joined(x, y, skip, cmp))
  {
    TwoSplices(s, t, u, l, m, h, x, y);
    SpliceAgain(s, u, l, h, x + y, MergeOf(x, y, cmp));
  }

  lemma TwoSplices<T>(s: seq<T>, t: seq<T>, u: seq<T>, l: nat, m: nat, h: nat, x: seq<T>, y: seq<T>)
    requires l <= m <= h <= |s| && |x| == m - l && |y| == h - m
    requires t == Splice(s, l, x) && u == Splice(t, m, y)
    ensures u == Splice(s, l, x + y) && u[l..m] == x && u[m..h] == y
  {}

  lemma SpliceAgain<T>(s: seq<T>, u: seq<T>, l: nat, h: nat, p: seq<T>, q: seq<T>)
    requires l <= h <= |s| && |p| == |q| == h - l && u == Splice(s, l, p)
    ensures Splice(u, l, q) == Splice(s, l, q)
  {}

  /** sort_merge; fails says which merges find no memory for their copies. */
  method SortMerge<T(!new)>(a: array<T>, cmp: Cmp<T>, fails: Failures)
    modifies a
    ensures a[..] == MergeSorted(old(a[..]), fails, cmp) && multiset(a[..]) == multiset(old(a[..]))
    ensures PreorderOn(old(a[..]), cmp) ==> (Sorted(a[..], cmp) <==> SkipsHarmless(Plan(old(a[..]), 0, fails), cmp))
    ensures PreorderOn(old(a[..]), cmp) && NoneSkipped(0, a.Length, fails) ==> StableSortOf(a[..], old(a[..]), cmp)
  {
    MergeSortLaws(a[..], fails, cmp);
    SortAll(a, cmp, fails);
  }

  method SortAll<T>(a: array<T>, cmp: Cmp<T>, fails: Failures)
    modifies a
    ensures a[..] == MergeSorted(old(a[..]), fails, cmp)
  {
    ghost var s := a[..];
    if a.Length < 2 { return; }
    assert s[0..|s|] == s;
    PlanElements(s, 0, fails);
    PlanShaped(s, 0, fails);
    ghost var x := MergeSortRec(a, 0, a.Length - 1, cmp, fails, Plan(s, 0, fails));
    assert Splice(s, 0, x) == x;
  }

  /** No merge of the n places from l on, or within them, is skipped. */
  predicate NoneSkipped(l: nat, n: nat, fails: Failures)
    decreases n
  {
    n > 1 ==>
      !fails(l, n) && NoneSkipped(l, Left(n), fails) && NoneSkipped(l + Left(n), n - Left(n), fails)
  }

  ghost predicate Complete<T>(p: Merges<T>) {
    p.Halves? ==> !p.skipped && Complete(p.left) && Complete(p.right)
  }

  lemma {:induction false} PlanComplete<T>(s: seq<T>, l: nat, fails: Failures)
    ensures Complete(Plan(s, l, fails)) <==> NoneSkipped(l, |s|, fails)
    decreases |s|
  {
    if |s| <= 1 {
    } else {
      PlanComplete(s[..Left(|s|)], l, fails);
      PlanComplete(s[Left(|s|)..], l + Left(|s|), fails);
    }
  }

  /** Every merge that is skipped has nothing to do: no element of its left half is above one of its
      right half. */
  ghost predicate SkipsHarmless<T>(p: Merges<T>, cmp: Cmp<T>) {
    p.Halves? ==>
      && (p.skipped ==> AllBelow(p.left.Elements(), p.right.Elements(), cmp))
      && SkipsHarmless(p.left, cmp) && SkipsHarmless(p.right, cmp)
  }

  lemma {:induction false} ResultPermutes<T>(p: Merges<T>, cmp: Cmp<T>)
    ensures multiset(Result(p, cmp)) == multiset(p.Elements())
  {
    match p
    case Run(_) =>
    case Halves(left, right, skipped) =>
      ResultPermutes(left, cmp);
      ResultPermutes(right, cmp);
      JoinPermutes(Result(left, cmp), Result(right, cmp), skipped, left.Elements(), right.Elements(), cmp);
  }

  lemma JoinPermutes<T>(x: seq<T>, y: seq<T>, skip: bool, p: seq<T>, q: seq<T>, cmp: Cmp<T>)
    requires multiset(x) == multiset(p) && multiset(y) == multiset(q)
    ensures multiset(Joined(x, y, skip, cmp)) == multiset(p + q)
  {
    MergePermutes(x, y, cmp);
  }

  lemma JoinAgrees<T(!new)>(x: seq<T>, y: seq<T>, skip: bool, o: Order<T>, cmp: Cmp<T>)
    requires Governs(o, cmp) && Covers(o, x) && Covers(o, y)
    ensures Joined(x, y, skip, cmp) == Joined(x, y, skip, o.c) && Covers(o, Joined(x, y, skip, cmp))
  {
    MergeAgrees(x, y, o, cmp);
  }

  lemma CoversParts<T>(p: seq<T>, q: seq<T>, o: Order<T>)
    requires Covers(o, p + q)
    ensures Covers(o, p) && Covers(o, q)
  {
    forall k | 0 <= k < |p| ensures p[k] in o.dom { assert (p + q)[k] in o.dom; }
    forall k | 0 <= k < |q| ensures q[k] in o.dom { assert (p + q)[|p| + k] in o.dom; }
  }

  /** The merges only compare members of the list. */
  lemma {:induction false} ResultAgrees<T(!new)>(p: Merges<T>, o: Order<T>, cmp: Cmp<T>)
    requires Governs(o, cmp) && Covers(o, p.Elements())
    ensures Result(p, cmp) == Result(p, o.c) && Covers(o, Result(p, cmp))
    ensures SkipsHarmless(p, cmp) <==> SkipsHarmless(p, o.c)
  {
    match p
    case Run(_) =>
    case Halves(left, right, skipped) =>
      CoversParts(left.Elements(), right.Elements(), o);
      ResultAgrees(left, o, cmp);
      ResultAgrees(right, o, cmp);
      JoinAgrees(Result(left, cmp), Result(right, cmp), skipped, o, cmp);
      BelowAgrees(left.Elements(), right.Elements(), o, cmp);
  }

  lemma BelowAgrees<T(!new)>(x: seq<T>, y: seq<T>, o: Order<T>, cmp: Cmp<T>)
    requires Governs(o, cmp) && Covers(o, x) && Covers(o, y)
    ensures AllBelow(x, y, cmp) <==> AllBelow(x, y, o.c)
  {
    forall i, j | 0 <= i < |x| && 0 <= j < |y| ensures cmp(x[i], y[j]) == o.c(x[i], y[j]) {
      assert x[i] in o.dom && y[j] in o.dom;
    }
  }

  lemma {:induction false} ResultStable<T(!new)>(p: Merges<T>, cmp: Cmp<T>)
    requires TotalPreorder(cmp) && Complete(p) && Short(p)
    ensures StablySorted(Result(p, cmp), p.Elements(), cmp)
  {
    match p
    case Run(_) =>
    case Halves(left, right, _) =>
      ResultStable(left, cmp);
      ResultStable(right, cmp);
      MergeStable(Result(left, cmp), Result(right, cmp), left.Elements(), right.Elements(), cmp);
  }

  /** The leaves have at most one element. */
  ghost predicate Short<T>(p: Merges<T>) {
    match p
    case Run(s) => |s| <= 1
    case Halves(left, right, _) => Short(left) && Short(right)
  }

  lemma {:induction false} PlanShort<T>(s: seq<T>, l: nat, fails: Failures)
    ensures Short(Plan(s, l, fails))
    decreases |s|
  {
    if |s| <= 1 {
    } else {
      PlanShort(s[..Left(|s|)], l, fails);
      PlanShort(s[Left(|s|)..], l + Left(|s|), fails);
    }
  }

  /** A merge keeps the inner order of each run. */
  lemma {:induction false} MergeKeepsOrder<T>(l: seq<T>, r: seq<T>, cmp: Cmp<T>)
    requires Sorted(MergeOf(l, r, cmp), cmp)
    ensures Sorted(l, cmp) && Sorted(r, cmp)
    decreases |l| + |r|
  {
    if l == [] || r == [] {
    } else if cmp(l[0], r[0]) <= 0 {
      SortedParts(l[0], MergeOf(l[1..], r, cmp), cmp);
      MergeKeepsOrder(l[1..], r, cmp);
      InMerge(l[1..], r, cmp);
      SortedBehind(l, MergeOf(l[1..], r, cmp), cmp);
    } else {
      SortedParts(r[0], MergeOf(l, r[1..], cmp), cmp);
      MergeKeepsOrder(l, r[1..], cmp);
      InMerge(l, r[1..], cmp);
      SortedBehind(r, MergeOf(l, r[1..], cmp), cmp);
    }
  }

  lemma SortedParts<T>(x: T, m: seq<T>, cmp: Cmp<T>)
    requires Sorted([x] + m, cmp)
    ensures Sorted(m, cmp) && AboveAll(x, m, cmp)
  {
    var t := [x] + m;
    forall i, j | 0 <= i < j < |m| ensures cmp(m[i], m[j]) <= 0 { assert cmp(t[i + 1], t[j + 1]) <= 0; }
    forall i | 0 <= i < |m| ensures cmp(x, m[i]) <= 0 { assert cmp(t[0], t[i + 1]) <= 0; }
  }

  lemma InMerge<T>(l: seq<T>, r: seq<T>, cmp: Cmp<T>)
    ensures forall y :: y in l || y in r ==> y in MergeOf(l, r, cmp)
  {
    MergePermutes(l, r, cmp);
    forall y | y in l || y in r ensures y in MergeOf(l, r, cmp) {
      assert y in multiset(l) + multiset(r);
      assert y in multiset(MergeOf(l, r, cmp));
    }
  }

  lemma SortedBehind<T>(s: seq<T>, m: seq<T>, cmp: Cmp<T>)
    requires s != [] && Sorted(s[1..], cmp) && AboveAll(s[0], m, cmp) && forall y :: y in s[1..] ==> y in m
    ensures Sorted(s, cmp)
  {
    forall i, j | 0 <= i < j < |s| ensures cmp(s[i], s[j]) <= 0 {
      if i == 0 {
        assert s[1..][j - 1] in m;
      } else {
        assert cmp(s[1..][i - 1], s[1..][j - 1]) <= 0;
      }
    }
  }

  lemma SortedConcat<T>(x: seq<T>, y: seq<T>, cmp: Cmp<T>)
    ensures Sorted(x + y, cmp) <==> Sorted(x, cmp) && Sorted(y, cmp) && AllBelow(x, y, cmp)
  {
    var t := x + y;
    if Sorted(t, cmp) {
      forall i, j | 0 <= i < j < |x| ensures cmp(x[i], x[j]) <= 0 { assert cmp(t[i], t[j]) <= 0; }
      forall i, j | 0 <= i < j < |y| ensures cmp(y[i], y[j]) <= 0 { assert cmp(t[|x| + i], t[|x| + j]) <= 0; }
      forall i, j | 0 <= i < |x| && 0 <= j < |y| ensures cmp(x[i], y[j]) <= 0 { assert cmp(t[i], t[|x| + j]) <= 0; }
    }
  }

  lemma BelowPermuted<T>(x: seq<T>, y: seq<T>, p: seq<T>, q: seq<T>, cmp: Cmp<T>)
    requires multiset(x) == multiset(p) && multiset(y) == multiset(q) && AllBelow(x, y, cmp)
    ensures AllBelow(p, q, cmp)
  {
    SameMembers(x, p);
    SameMembers(y, q);
    forall i, j | 0 <= i < |p| && 0 <= j < |q| ensures cmp(p[i], q[j]) <= 0 {
      assert p[i] in x && q[j] in y;
    }
  }

  /** The result is sorted exactly when the skipped merges were harmless. */
  lemma {:induction false} SortedExactly<T(!new)>(p: Merges<T>, cmp: Cmp<T>)
    requires TotalPreorder(cmp) && Short(p)
    ensures Sorted(Result(p, cmp), cmp) <==> SkipsHarmless(p, cmp)
  {
    match p
    case Run(_) =>
    case Halves(left, right, skipped) =>
      SortedExactly(left, cmp);
      SortedExactly(right, cmp);
      ResultPermutes(left, cmp);
      ResultPermutes(right, cmp);
      JoinSorted(Result(left, cmp), Result(right, cmp), skipped, left.Elements(), right.Elements(), cmp);
  }

  lemma JoinSorted<T(!new)>(x: seq<T>, y: seq<T>, skip: bool, p: seq<T>, q: seq<T>, cmp: Cmp<T>)
    requires TotalPreorder(cmp) && multiset(x) == multiset(p) && multiset(y) == multiset(q)
    ensures Sorted(Joined(x, y, skip, cmp), cmp)
            <==> Sorted(x, cmp) && Sorted(y, cmp) && (skip ==> AllBelow(p, q, cmp))
  {
    if skip {
      SortedConcat(x, y, cmp);
      if AllBelow(p, q, cmp) { BelowPermuted(p, q, x, y, cmp); }
      if AllBelow(x, y, cmp) { BelowPermuted(x, y, p, q, cmp); }
    } else {
      if Sorted(MergeOf(x, y, cmp), cmp) { MergeKeepsOrder(x, y, cmp); }
      if Sorted(x, cmp) && Sorted(y, cmp) { MergeSortedRuns(x, y, cmp); }
    }
  }

  lemma MergeSortLaws<T(!new)>(s: seq<T>, fails: Failures, cmp: Cmp<T>)
    ensures multiset(MergeSorted(s, fails, cmp)) == multiset(s)
    ensures PreorderOn(s, cmp) ==>
              (Sorted(MergeSorted(s, fails, cmp), cmp) <==> SkipsHarmless(Plan(s, 0, fails), cmp))
    ensures PreorderOn(s, cmp) && NoneSkipped(0, |s|, fails) ==> StableSortOf(MergeSorted(s, fails, cmp), s, cmp)
  {
    var p := Plan(s, 0, fails);
    PlanElements(s, 0, fails);
    PlanShort(s, 0, fails);
    PlanComplete(s, 0, fails);
    ResultPermutes(p, cmp);
    if PreorderOn(s, cmp) { PreorderLaws(s, p, Result(p, cmp), cmp); }
  }

  lemma PreorderLaws<T(!new)>(s: seq<T>, p: Merges<T>, t: seq<T>, cmp: Cmp<T>)
    requires PreorderOn(s, cmp) && p.Elements() == s && Short(p) && t == Result(p, cmp)
    ensures Sorted(t, cmp) <==> SkipsHarmless(p, cmp)
    ensures Complete(p) ==> StableSortOf(t, s, cmp)
  {
    var o := OrderOn(s, cmp);
    OrderGoverns(s, cmp);
    ResultAgrees(p, o, cmp);
    SortedExactly(p, o.c);
    SortedAgree(t, o, cmp);
    if Complete(p) {
      ResultStable(p, o.c);
      StableAgree(t, s, o, cmp);
    }
  }

  // ---------------------------------------------------------------- every list

  ghost predicate OfTwo<T>(s: seq<T>, x: T, y: T) {
    forall i :: 0 <= i < |s| ==> s[i] == x || s[i] == y
  }

  function Copies<T>(x: T, n: nat): (s: seq<T>)
    ensures |s| == n && forall i :: 0 <= i < n ==> s[i] == x
  {
    seq(n, _ => x)
  }

  /** If a merge is skipped some list suffers from it. */
  lemma {:induction false} HarmedList<T>(l: nat, n: nat, fails: Failures, x: T, y: T, cmp: Cmp<T>) returns (s: seq<T>)
    requires !NoneSkipped(l, n, fails) && cmp(y, x) > 0
    ensures |s| == n && OfTwo(s, x, y) && !SkipsHarmless(Plan(s, l, fails), cmp)
    decreases n
  {
    var k := Left(n);
    var p, q := Copies(x, k), Copies(x, n - k);
    if fails(l, n) {
      p := Copies(y, k);
      NotBelow(p, q, cmp);
    } else if !NoneSkipped(l, k, fails) {
      p := HarmedList(l, k, fails, x, y, cmp);
    } else {
      q := HarmedList(l + k, n - k, fails, x, y, cmp);
    }
    s := p + q;
    HarmedHalves(s, p, q, l, fails, cmp);
    TwoConcat(p, q, x, y);
  }

  lemma NotBelow<T>(p: seq<T>, q: seq<T>, cmp: Cmp<T>)
    requires p != [] && q != [] && cmp(p[0], q[0]) > 0
    ensures !AllBelow(p, q, cmp)
  {}

  lemma TwoConcat<T>(p: seq<T>, q: seq<T>, x: T, y: T)
    requires OfTwo(p, x, y) && OfTwo(q, x, y)
    ensures OfTwo(p + q, x, y)
  {}

  lemma HarmedHalves<T>(s: seq<T>, p: seq<T>, q: seq<T>, l: nat, fails: Failures, cmp: Cmp<T>)
    requires |s| > 1 && |p| == Left(|s|) && s == p + q
    requires (fails(l, |s|) && !AllBelow(p, q, cmp)) || !SkipsHarmless(Plan(p, l, fails), cmp)
             || !SkipsHarmless(Plan(q, l + |p|, fails), cmp)
    ensures !SkipsHarmless(Plan(s, l, fails), cmp)
  {
    PlanHalves(s, p, q, l, fails);
    PlanElements(p, l, fails);
    PlanElements(q, l + |p|, fails);
  }

  lemma PlanHalves<T>(s: seq<T>, p: seq<T>, q: seq<T>, l: nat, fails: Failures)
    requires |s| > 1 && |p| == Left(|s|) && s == p + q
    ensures Plan(s, l, fails) == Halves(Plan(p, l, fails), Plan(q, l + |p|, fails), fails(l, |s|))
  {
    assert s[..|p|] == p && s[|p|..] == q;
  }

  /** With two elements that differ, every list of a size is sorted exactly when no merge is skipped. */
  lemma AllSortedExactly<T(!new)>(n: nat, fails: Failures, x: T, y: T, cmp: Cmp<T>)
    requires PreorderOn([x, y], cmp) && cmp(y, x) > 0
    ensures (forall s :: |s| == n && OfTwo(s, x, y) ==> Sorted(MergeSorted(s, fails, cmp), cmp))
            <==> NoneSkipped(0, n, fails)
  {
    if NoneSkipped(0, n, fails) {
      forall s | |s| == n && OfTwo(s, x, y) ensures Sorted(MergeSorted(s, fails, cmp), cmp) {
        TwoPreorder(s, x, y, cmp);
        MergeSortLaws(s, fails, cmp);
      }
    } else {
      var s := HarmedList(0, n, fails, x, y, cmp);
      TwoPreorder(s, x, y, cmp);
      MergeSortLaws(s, fails, cmp);
    }
  }

  lemma TwoPreorder<T(!new)>(s: seq<T>, x: T, y: T, cmp: Cmp<T>)
    requires PreorderOn([x, y], cmp) && OfTwo(s, x, y)
    ensures PreorderOn(s, cmp)
  {
    assert x == [x, y][0] && y == [x, y][1];
    assert forall z :: z in s ==> z in [x, y];
  }
}
