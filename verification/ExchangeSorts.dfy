/** The sorts of src/abs_sort.c that exchange elements over a distance: selection, shell, heap and
    quick sort. They need not keep equal elements in order; each leaves a sorted permutation.
    Also is_sorted and binary_search. */
module ExchangeSorts {
  import opened SortSpec
  import opened Neighbours

  /** t is s with the elements lo .. hi - 1 permuted among themselves. */
  ghost predicate Rearranged<T>(s: seq<T>, t: seq<T>, lo: nat, hi: nat) {
    && lo <= hi <= |s| == |t|
    && (forall k {:trigger s[k]} {:trigger t[k]} :: (0 <= k < lo || hi <= k < |s|) ==> s[k] == t[k])
    && multiset(s) == multiset(t)
  }

  lemma MiddleEqual<T>(p: multiset<T>, a: multiset<T>, b: multiset<T>, q: multiset<T>)
    requires p + a + q == p + b + q
    ensures a == b
  {
    assert a == (p + a + q) - p - q && b == (p + b + q) - p - q;
  }

  /** The elements in the range are the same ones. */
  lemma RearrangedRange<T>(s: seq<T>, t: seq<T>, lo: nat, hi: nat)
    requires Rearranged(s, t, lo, hi)
    ensures multiset(s[lo..hi]) == multiset(t[lo..hi])
  {
    assert s[..lo] == t[..lo] && s[hi..] == t[hi..];
    assert s == s[..lo] + s[lo..hi] + s[hi..];
    assert t == s[..lo] + t[lo..hi] + s[hi..];
    assert multiset(s) == multiset(s[..lo]) + multiset(s[lo..hi]) + multiset(s[hi..]);
    assert multiset(t) == multiset(s[..lo]) + multiset(t[lo..hi]) + multiset(s[hi..]);
    MiddleEqual(multiset(s[..lo]), multiset(s[lo..hi]), multiset(t[lo..hi]), multiset(s[hi..]));
  }

  /** s with the elements at i and j exchanged. */
  function Swapped<T>(s: seq<T>, i: nat, j: nat): (r: seq<T>)
    requires i < |s| && j < |s|
    ensures |r| == |s|
  {
    s[i := s[j]][j := s[i]]
  }

  lemma SwapRearranges<T>(s: seq<T>, i: nat, j: nat, lo: nat, hi: nat)
    requires lo <= i < hi <= |s| && lo <= j < hi
    ensures Rearranged(s, Swapped(s, i, j), lo, hi)
  {}

  method Swap<T>(a: array<T>, i: nat, j: nat)
    requires i < a.Length && j < a.Length
    modifies a
    ensures a[..] == Swapped(old(a[..]), i, j)
  {
    var temp := a[i];
    a[i] := a[j];
    a[j] := temp;
  }

  // ---------------------------------------------------------------- selection sort

  /** The first m elements are sorted and none is above a later one. */
  ghost predicate Selected<T>(s: seq<T>, m: nat, cmp: Cmp<T>) {
    forall i, j :: 0 <= i < j < |s| && i < m ==> cmp(s[i], s[j]) <= 0
  }

  lemma SelectOne<T(!new)>(s: seq<T>, i: nat, k: nat, cmp: Cmp<T>)
    requires TotalPreorder(cmp) && i <= k < |s| && Selected(s, i, cmp)
    requires forall j :: i <= j < |s| ==> cmp(s[k], s[j]) <= 0
    ensures Selected(Swapped(s, i, k), i + 1, cmp)
  {}

  lemma SelectPermutes<T>(s: seq<T>, i: nat, k: nat)
    requires i < |s| && k < |s|
    ensures multiset(Swapped(s, i, k)) == multiset(s)
  {}

  method SortSelection<T(!new)>(a: array<T>, cmp: Cmp<T>)
    requires PreorderOn(a[..], cmp)
    modifies a
    ensures Sorted(a[..], cmp) && multiset(a[..]) == multiset(old(a[..]))
  {
    ghost var o := OrderOn(a[..], cmp);
    OrderGoverns(a[..], cmp);
    CoversArray(a, o);
    Select(a, cmp, o);
    SortedWithin(a, o, cmp);
  }

  /** Sorted under the order is sorted under the comparator. */
  lemma SortedWithin<T(!new)>(a: array<T>, o: Order<T>, cmp: Cmp<T>)
    requires Governs(o, cmp) && Within(a, o) && Sorted(a[..], o.c)
    ensures Sorted(a[..], cmp)
  {
    SortedAgree(a[..], o, cmp);
  }

  /** The outer loop of selection sort. */
  method Select<T(!new)>(a: array<T>, cmp: Cmp<T>, ghost o: Order<T>)
    requires Governs(o, cmp) && Within(a, o)
    modifies a
    ensures Within(a, o) && Sorted(a[..], o.c) && multiset(a[..]) == multiset(old(a[..]))
  {
    var n := a.Length;
    var i := 0;
    while i + 1 < n
      invariant i <= n && Selected(a[..], i, o.c)
      invariant Within(a, o) && multiset(a[..]) == multiset(old(a[..]))
    {
      SelectStep(a, i, cmp, o);
      i := i + 1;
    }
  }

  /** One round: the smallest of the rest goes to place i. */
  method SelectStep<T(!new)>(a: array<T>, i: nat, cmp: Cmp<T>, ghost o: Order<T>)
    requires Governs(o, cmp) && Within(a, o) && i < a.Length && Selected(a[..], i, o.c)
    modifies a
    ensures Selected(a[..], i + 1, o.c) && Within(a, o) && multiset(a[..]) == multiset(old(a[..]))
  {
    ghost var s := a[..];
    var minIdx := SmallestFrom(a, i, cmp, o);
    SelectOne(s, i, minIdx, o.c);
    SelectPermutes(s, i, minIdx);
    WithinCovers(a, o);
    if minIdx != i {
      Swap(a, i, minIdx);
    } else {
      assert s == Swapped(s, i, i);
    }
    WithinPermuted(a, s, o);
  }

  /** The first smallest element from i on. */
  method SmallestFrom<T(!new)>(a: array<T>, i: nat, cmp: Cmp<T>, ghost o: Order<T>) returns (k: nat)
    requires Governs(o, cmp) && Within(a, o) && i < a.Length
    ensures i <= k < a.Length && forall j :: i <= j < a.Length ==> o.c(a[k], a[j]) <= 0
    ensures forall j :: i <= j < k ==> o.c(a[k], a[j]) < 0
  {
    k := i;
    assert o.c(a[i], a[i]) <= 0;
    for j := i + 1 to a.Length
      invariant i <= k < j && forall l :: i <= l < j ==> o.c(a[k], a[l]) <= 0
      invariant forall l :: i <= l < k ==> o.c(a[k], a[l]) < 0
    {
      if cmp(a[j], a[k]) < 0 {
        forall l | i <= l < j ensures o.c(a[j], a[l]) < 0 {
          Below(a[j], a[k], a[l], o.c);
        }
        assert o.c(a[j], a[j]) <= 0;
        k := j;
      }
    }
  }

  lemma Below<T(!new)>(x: T, y: T, z: T, cmp: Cmp<T>)
    requires TotalPreorder(cmp) && cmp(x, y) < 0 && cmp(y, z) <= 0
    ensures cmp(x, z) < 0
  {
    if cmp(x, z) >= 0 {
      Trans(z, x, x, cmp) by { assert cmp(x, x) <= 0; }
      Trans(y, z, x, cmp);
    }
  }

  // ---------------------------------------------------------------- shell sort

  ghost predicate InOrder<T>(s: seq<T>, gap: nat, j: nat, cmp: Cmp<T>)
    requires gap <= j < |s|
  {
    cmp(s[j - gap], s[j]) <= 0
  }

  /** Elements gap apart are in order, up to place m. */
  ghost predicate GapSorted<T>(s: seq<T>, gap: nat, m: nat, cmp: Cmp<T>) {
    forall j: nat {:trigger InOrder(s, gap, j, cmp)} :: gap <= j < m && j < |s| ==> InOrder(s, gap, j, cmp)
  }

  /** Neighbours in order means sorted. */
  lemma {:induction false} GapOneSorted<T(!new)>(s: seq<T>, cmp: Cmp<T>)
    requires TotalPreorder(cmp) && GapSorted(s, 1, |s|, cmp)
    ensures Sorted(s, cmp)
    decreases |s|
  {
    forall i, j | 0 <= i < j < |s| ensures cmp(s[i], s[j]) <= 0 {
      GapOneReach(s, i, j, cmp);
    }
  }

  lemma {:induction false} GapOneReach<T(!new)>(s: seq<T>, i: nat, j: nat, cmp: Cmp<T>)
    requires TotalPreorder(cmp) && GapSorted(s, 1, |s|, cmp) && i < j < |s|
    ensures cmp(s[i], s[j]) <= 0
  {
    assert InOrder(s, 1, j, cmp);
    if i == j - 1 {
    } else {
      GapOneReach(s, i, j - 1, cmp);
      Trans(s[i], s[j - 1], s[j], cmp);
    }
  }

  method SortShell<T(!new)>(a: array<T>, cmp: Cmp<T>)
    requires PreorderOn(a[..], cmp)
    modifies a
    ensures Sorted(a[..], cmp) && multiset(a[..]) == multiset(old(a[..]))
  {
    ghost var o := OrderOn(a[..], cmp);
    OrderGoverns(a[..], cmp);
    CoversArray(a, o);
    Shell(a, cmp, o);
    SortedWithin(a, o, cmp);
  }

  /** The loop over the gaps. */
  method Shell<T(!new)>(a: array<T>, cmp: Cmp<T>, ghost o: Order<T>)
    requires Governs(o, cmp) && Within(a, o)
    modifies a
    ensures Within(a, o) && Sorted(a[..], o.c) && multiset(a[..]) == multiset(old(a[..]))
  {
    var n := a.Length;
    var gap := n / 2;
    while gap > 0
      invariant 0 <= gap && Within(a, o) && multiset(a[..]) == multiset(old(a[..]))
      invariant gap == 0 ==> Sorted(a[..], o.c)
    {
      GapPass(a, gap, cmp, o);
      if gap == 1 { GapOneSorted(a[..], o.c); }
      gap := gap / 2;
    }
  }

  /** One pass of shell sort: insertion sort on every gap-th element. */
  method GapPass<T(!new)>(a: array<T>, gap: nat, cmp: Cmp<T>, ghost o: Order<T>)
    requires Governs(o, cmp) && Within(a, o) && 0 < gap <= a.Length
    modifies a
    ensures GapSorted(a[..], gap, a.Length, o.c) && Within(a, o) && multiset(a[..]) == multiset(old(a[..]))
  {
    for i := gap to a.Length
      invariant GapSorted(a[..], gap, i, o.c) && Within(a, o) && multiset(a[..]) == multiset(old(a[..]))
    {
      GapInsert(a, gap, i, cmp, o);
    }
  }

  /** s with a hole at h that is to take key: in order up to i apart from the hole, and what is gap
      behind the hole is at least key and in order with what is gap before it. */
  ghost predicate GapHole<T>(s: seq<T>, gap: nat, i: nat, h: nat, key: T, cmp: Cmp<T>) {
    && 0 < gap && h <= i < |s| && (h == i || h + gap <= i)
    && (forall j: nat {:trigger InOrder(s, gap, j, cmp)} ::
          gap <= j <= i && j != h && j - gap != h ==> InOrder(s, gap, j, cmp))
    && (h < i ==> cmp(key, s[h + gap]) <= 0)
    && (h < i && gap <= h ==> cmp(s[h - gap], s[h + gap]) <= 0)
  }

  lemma GapHoleStep<T(!new)>(s: seq<T>, gap: nat, i: nat, h: nat, key: T, cmp: Cmp<T>)
    requires TotalPreorder(cmp) && GapHole(s, gap, i, h, key, cmp) && gap <= h && cmp(s[h - gap], key) > 0
    ensures GapHole(s[h := s[h - gap]], gap, i, h - gap, key, cmp)
  {
    var t := s[h := s[h - gap]];
    forall j: nat {:trigger InOrder(t, gap, j, cmp)} | gap <= j <= i && j != h - gap && j - gap != h - gap
      ensures InOrder(t, gap, j, cmp)
    {
      if j - gap != h { assert InOrder(s, gap, j, cmp); }
    }
    if gap <= h - gap { assert InOrder(s, gap, h - gap, cmp); }
  }

  /** Shifting an element into the hole moves the hole and loses nothing. */
  lemma ShiftPermutes<T>(s: seq<T>, h: nat, h1: nat, key: T)
    requires h < |s| && h1 < |s| && h != h1
    ensures multiset(s[h := s[h1]][h1 := key]) == multiset(s[h := key])
  {}

  lemma GapHoleStart<T>(s: seq<T>, gap: nat, i: nat, cmp: Cmp<T>)
    requires 0 < gap <= i < |s| && GapSorted(s, gap, i, cmp)
    ensures GapHole(s, gap, i, i, s[i], cmp) && s[i := s[i]] == s
  {}

  lemma GapHoleFill<T(!new)>(s: seq<T>, gap: nat, i: nat, h: nat, key: T, cmp: Cmp<T>)
    requires TotalPreorder(cmp) && GapHole(s, gap, i, h, key, cmp)
    requires h < gap || cmp(s[h - gap], key) <= 0
    ensures GapSorted(s[h := key], gap, i + 1, cmp)
  {
    var t := s[h := key];
    forall j: nat {:trigger InOrder(t, gap, j, cmp)} | gap <= j < i + 1 && j < |t| ensures InOrder(t, gap, j, cmp) {
      if j != h && j - gap != h { assert InOrder(s, gap, j, cmp); }
    }
  }

  method GapInsert<T(!new)>(a: array<T>, gap: nat, i: nat, cmp: Cmp<T>, ghost o: Order<T>)
    requires Governs(o, cmp) && Within(a, o) && 0 < gap <= i < a.Length && GapSorted(a[..], gap, i, o.c)
    modifies a
    ensures GapSorted(a[..], gap, i + 1, o.c) && Within(a, o) && multiset(a[..]) == multiset(old(a[..]))
  {
    var temp := a[i];
    var j := i;
    GapHoleStart(a[..], gap, i, o.c);
    while j >= gap && cmp(a[j - gap], temp) > 0
      invariant 0 <= j <= i && Within(a, o) && GapHole(a[..], gap, i, j, temp, o.c)
      invariant multiset(a[..][j := temp]) == multiset(old(a[..]))
    {
      GapShift(a, gap, i, j, temp, o);
      j := j - gap;
    }
    GapDrop(a, gap, i, j, temp, o);
  }

  /** Moves the element gap before the hole into it. */
  method GapShift<T(!new)>(a: array<T>, gap: nat, ghost i: nat, j: nat, ghost key: T, ghost o: Order<T>)
    requires TotalPreorder(o.c) && Within(a, o) && GapHole(a[..], gap, i, j, key, o.c)
    requires gap <= j && o.c(a[j - gap], key) > 0
    modifies a
    ensures Within(a, o) && GapHole(a[..], gap, i, j - gap, key, o.c)
    ensures multiset(a[..][j - gap := key]) == multiset(old(a[..])[j := key])
  {
    ghost var s := a[..];
    GapHoleStep(s, gap, i, j, key, o.c);
    ShiftPermutes(s, j, j - gap, key);
    a[j] := a[j - gap];
    assert a[..] == s[j := s[j - gap]];
  }

  /** Puts the key into the hole. */
  method GapDrop<T(!new)>(a: array<T>, ghost gap: nat, ghost i: nat, h: nat, key: T, ghost o: Order<T>)
    requires TotalPreorder(o.c) && Within(a, o) && key in o.dom && GapHole(a[..], gap, i, h, key, o.c)
    requires h < gap || o.c(a[h - gap], key) <= 0
    modifies a
    ensures Within(a, o) && GapSorted(a[..], gap, i + 1, o.c) && a[..] == old(a[..])[h := key]
  {
    ghost var s := a[..];
    GapHoleFill(s, gap, i, h, key, o.c);
    a[h] := key;
    assert a[..] == s[h := key];
  }

  // ---------------------------------------------------------------- heap sort

  /** Node c is no larger than its parent. */
  ghost predicate ChildBelow<T>(s: seq<T>, c: nat, cmp: Cmp<T>)
    requires 1 <= c < |s|
  {
    cmp(s[c], s[(c - 1) / 2]) <= 0
  }

  /** Every node from lo on, except x, is at least as large as its children within the first n. */
  ghost predicate HeapExcept<T>(s: seq<T>, n: nat, lo: nat, x: int, cmp: Cmp<T>)
    requires n <= |s|
  {
    forall c: nat {:trigger ChildBelow(s, c, cmp)} ::
      1 <= c < n && lo <= (c - 1) / 2 && (c - 1) / 2 != x ==> ChildBelow(s, c, cmp)
  }

  /** Above x: its children are no larger than its parent. */
  ghost predicate Bridged<T>(s: seq<T>, n: nat, lo: nat, x: nat, cmp: Cmp<T>)
    requires n <= |s|
  {
    forall c :: 1 <= c < n && (c - 1) / 2 == x && x > 0 && lo <= (x - 1) / 2 ==> cmp(s[c], s[(x - 1) / 2]) <= 0
  }

  ghost predicate Heap<T>(s: seq<T>, n: nat, lo: nat, cmp: Cmp<T>)
    requires n <= |s|
  {
    HeapExcept(s, n, lo, -1, cmp)
  }

  /** Moving the larger child up moves the exception down. */
  lemma SiftStep<T(!new)>(s: seq<T>, n: nat, lo: nat, i: nat, m: nat, cmp: Cmp<T>)
    requires TotalPreorder(cmp) && n <= |s| && lo <= i < m < n && (m - 1) / 2 == i
    requires HeapExcept(s, n, lo, i, cmp) && Bridged(s, n, lo, i, cmp)
    requires cmp(s[i], s[m]) <= 0 && forall c :: 1 <= c < n && (c - 1) / 2 == i ==> cmp(s[c], s[m]) <= 0
    ensures HeapExcept(Swapped(s, i, m), n, lo, m, cmp) && Bridged(Swapped(s, i, m), n, lo, m, cmp)
  {
    var t := Swapped(s, i, m);
    forall c: nat {:trigger ChildBelow(t, c, cmp)} | 1 <= c < n && lo <= (c - 1) / 2 && (c - 1) / 2 != m
      ensures ChildBelow(t, c, cmp)
    {
      if (c - 1) / 2 == i {
        assert t[i] == s[m];
      } else if c == i {
        assert t[c] == s[m];
      } else {
        assert ChildBelow(s, c, cmp) && t[c] == s[c];
      }
    }
    forall c | 1 <= c < n && (c - 1) / 2 == m ensures cmp(t[c], t[i]) <= 0 {
      assert ChildBelow(s, c, cmp) && t[c] == s[c];
    }
  }

  /** A node that is no smaller than its children is no exception. */
  lemma SiftDone<T>(s: seq<T>, n: nat, lo: nat, i: nat, cmp: Cmp<T>)
    requires n <= |s| && HeapExcept(s, n, lo, i, cmp)
    requires forall c :: 1 <= c < n && (c - 1) / 2 == i ==> cmp(s[c], s[i]) <= 0
    ensures Heap(s, n, lo, cmp)
  {}

  /** The largest of a node and its children. */
  method LargestOf<T(!new)>(a: array<T>, n: nat, i: nat, cmp: Cmp<T>, ghost o: Order<T>) returns (m: nat)
    requires Governs(o, cmp) && Within(a, o) && i < n <= a.Length
    ensures m == i || (i < m < n && (m - 1) / 2 == i)
    ensures o.c(a[i], a[m]) <= 0
    ensures forall c :: 1 <= c < n && (c - 1) / 2 == i ==> o.c(a[c], a[m]) <= 0
  {
    m := i;
    var left := 2 * i + 1;
    var right := 2 * i + 2;
    assert o.c(a[i], a[i]) <= 0;
    if left < n && cmp(a[left], a[m]) > 0 {
      m := left;
      assert o.c(a[left], a[left]) <= 0;
    }
    if right < n && cmp(a[right], a[m]) > 0 {
      assert left < n && o.c(a[m], a[right]) <= 0 && o.c(a[right], a[right]) <= 0;
      Trans(a[i], a[m], a[right], o.c);
      Trans(a[left], a[m], a[right], o.c);
      m := right;
    }
    forall c | 1 <= c < n && (c - 1) / 2 == i ensures o.c(a[c], a[m]) <= 0 {
      assert c == left || c == right;
    }
  }

  /** Sifts element i of the heap a[..n] down to its place. The nodes from lo on are in order
      except i; afterwards they all are. */
  method Heapify<T(!new)>(a: array<T>, n: nat, i: nat, ghost lo: nat, cmp: Cmp<T>, ghost o: Order<T>)
    requires Governs(o, cmp) && Within(a, o) && lo <= i < n <= a.Length
    requires HeapExcept(a[..], n, lo, i, o.c) && Bridged(a[..], n, lo, i, o.c)
    modifies a
    ensures Heap(a[..], n, lo, o.c) && Rearranged(old(a[..]), a[..], 0, n) && Within(a, o)
    decreases n - i
  {
    ghost var s := a[..];
    var largest := LargestOf(a, n, i, cmp, o);
    if largest != i {
      SiftStep(s, n, lo, i, largest, o.c);
      SwapRearranges(s, i, largest, 0, n);
      Swap(a, i, largest);
      Heapify(a, n, largest, lo, cmp, o);
    } else {
      SiftDone(s, n, lo, i, o.c);
    }
  }

  lemma {:induction false} RootLargest<T(!new)>(s: seq<T>, n: nat, k: nat, cmp: Cmp<T>)
    requires TotalPreorder(cmp) && k < n <= |s| && Heap(s, n, 0, cmp)
    ensures cmp(s[k], s[0]) <= 0
    decreases k
  {
    if k == 0 {
      assert cmp(s[0], s[0]) <= 0;
    } else {
      RootLargest(s, n, (k - 1) / 2, cmp);
      assert ChildBelow(s, k, cmp);
      Trans(s[k], s[(k - 1) / 2], s[0], cmp);
    }
  }

  /** What the second loop keeps: a heap of the first m elements, and behind it a sorted suffix
      with nothing below an element of the heap. */
  ghost predicate HeapThenSorted<T>(s: seq<T>, m: nat, cmp: Cmp<T>) {
    m <= |s| && Heap(s, m, 0, cmp) && AllBelow(s[..m], s[m..], cmp) && Sorted(s[m..], cmp)
  }

  /** Exchanging the root with the last element of the heap: the suffix grows by the largest. */
  lemma TakeRoot<T(!new)>(s: seq<T>, m: nat, cmp: Cmp<T>)
    requires TotalPreorder(cmp) && 0 < m < |s| && HeapThenSorted(s, m + 1, cmp)
    ensures HeapExcept(Swapped(s, 0, m), m, 0, 0, cmp)
    ensures AllBelow(Swapped(s, 0, m)[..m], Swapped(s, 0, m)[m..], cmp) && Sorted(Swapped(s, 0, m)[m..], cmp)
  {
    var t := Swapped(s, 0, m);
    assert t[m..] == [s[0]] + s[m + 1..];
    forall c: nat {:trigger ChildBelow(t, c, cmp)} | 1 <= c < m && (c - 1) / 2 != 0 ensures ChildBelow(t, c, cmp) {
      assert ChildBelow(s, c, cmp);
    }
    forall i | 0 <= i < m ensures t[i] in s[..m + 1] && cmp(t[i], s[0]) <= 0 {
      var k := if i == 0 then m else i;
      assert t[i] == s[k] == s[..m + 1][k];
      RootLargest(s, m + 1, k, cmp);
    }
    assert s[0] == s[..m + 1][0];
  }

  /** Restoring the heap permutes only its own elements. */
  lemma SuffixKept<T>(t: seq<T>, u: seq<T>, m: nat, cmp: Cmp<T>)
    requires m <= |t| && Rearranged(t, u, 0, m) && AllBelow(t[..m], t[m..], cmp) && Sorted(t[m..], cmp)
    ensures AllBelow(u[..m], u[m..], cmp) && Sorted(u[m..], cmp)
  {
    RearrangedRange(t, u, 0, m);
    assert t[0..m] == t[..m] && u[0..m] == u[..m];
    assert t[m..] == u[m..];
    forall i | 0 <= i < m ensures u[..m][i] in t[..m] {
      assert u[..m][i] in multiset(u[..m]);
      assert u[..m][i] in multiset(t[..m]);
    }
  }

  method SortHeap<T(!new)>(a: array<T>, cmp: Cmp<T>)
    requires PreorderOn(a[..], cmp)
    modifies a
    ensures Sorted(a[..], cmp) && multiset(a[..]) == multiset(old(a[..]))
  {
    ghost var o := OrderOn(a[..], cmp);
    OrderGoverns(a[..], cmp);
    CoversArray(a, o);
    BuildHeap(a, cmp, o);
    TakeRoots(a, cmp, o);
    SortedWithin(a, o, cmp);
  }

  /** The second loop: takes the root off the heap until one element is left. */
  method TakeRoots<T(!new)>(a: array<T>, cmp: Cmp<T>, ghost o: Order<T>)
    requires Governs(o, cmp) && Within(a, o) && HeapThenSorted(a[..], a.Length, o.c)
    modifies a
    ensures Within(a, o) && Sorted(a[..], o.c) && multiset(a[..]) == multiset(old(a[..]))
  {
    var n := a.Length;
    var i := n - 1;
    while i > 0
      invariant n == 0 || 0 <= i < n
      invariant n > 0 ==> HeapThenSorted(a[..], i + 1, o.c)
      invariant Within(a, o) && multiset(a[..]) == multiset(old(a[..]))
    {
      HeapStep(a, i, cmp, o);
      i := i - 1;
    }
    if n > 0 { HeapOfOne(a[..], o.c); }
  }

  lemma HeapOfOne<T>(s: seq<T>, cmp: Cmp<T>)
    requires |s| > 0 && HeapThenSorted(s, 1, cmp)
    ensures Sorted(s, cmp)
  {}

  /** The first loop: makes the whole array a heap. */
  method BuildHeap<T(!new)>(a: array<T>, cmp: Cmp<T>, ghost o: Order<T>)
    requires Governs(o, cmp) && Within(a, o)
    modifies a
    ensures HeapThenSorted(a[..], a.Length, o.c) && Within(a, o) && multiset(a[..]) == multiset(old(a[..]))
  {
    var n := a.Length;
    var i := n / 2 - 1;
    while i >= 0
      invariant -1 <= i <= n / 2 - 1
      invariant Heap(a[..], n, i + 1, o.c) && Within(a, o) && multiset(a[..]) == multiset(old(a[..]))
    {
      ghost var s := a[..];
      Heapify(a, n, i, i, cmp, o);
      i := i - 1;
    }
  }

  /** One round of the second loop. */
  method HeapStep<T(!new)>(a: array<T>, m: nat, cmp: Cmp<T>, ghost o: Order<T>)
    requires Governs(o, cmp) && Within(a, o) && 0 < m < a.Length && HeapThenSorted(a[..], m + 1, o.c)
    modifies a
    ensures HeapThenSorted(a[..], m, o.c) && Within(a, o) && multiset(a[..]) == multiset(old(a[..]))
  {
    ghost var s := a[..];
    TakeRoot(s, m, o.c);
    SwapRearranges(s, 0, m, 0, m + 1);
    Swap(a, 0, m);
    ghost var t := a[..];
    Heapify(a, m, 0, 0, cmp, o);
    SuffixKept(t, a[..], m, o.c);
  }

  // ---------------------------------------------------------------- quick sort

  /** Inside lo .. hi: everything before p is below s[p], everything after is not. */
  ghost predicate Split<T>(s: seq<T>, lo: nat, p: nat, hi: nat, cmp: Cmp<T>) {
    && lo <= p < hi <= |s|
    && (forall k :: lo <= k < p ==> cmp(s[k], s[p]) < 0)
    && (forall k :: p < k < hi ==> cmp(s[k], s[p]) >= 0)
  }

  /** The loop of partition: below the pivot up to i, not below it from there to j. */
  ghost predicate Parting<T>(s: seq<T>, lo: nat, i: nat, j: nat, hi: nat, pivot: T, cmp: Cmp<T>) {
    && lo <= i <= j < hi <= |s| && s[hi - 1] == pivot
    && (forall k :: lo <= k < i ==> cmp(s[k], pivot) < 0)
    && (forall k :: i <= k < j ==> cmp(s[k], pivot) >= 0)
  }

  lemma PartingStep<T>(s: seq<T>, lo: nat, i: nat, j: nat, hi: nat, pivot: T, cmp: Cmp<T>)
    requires Parting(s, lo, i, j, hi, pivot, cmp) && j < hi - 1
    ensures cmp(s[j], pivot) >= 0 ==> Parting(s, lo, i, j + 1, hi, pivot, cmp)
    ensures cmp(s[j], pivot) < 0 ==> Parting(Swapped(s, i, j), lo, i + 1, j + 1, hi, pivot, cmp)
  {}

  lemma PartingDone<T(!new)>(s: seq<T>, lo: nat, i: nat, hi: nat, pivot: T, cmp: Cmp<T>)
    requires hi > 0 && TotalPreorder(cmp) && Parting(s, lo, i, hi - 1, hi, pivot, cmp)
    ensures Split(Swapped(s, i, hi - 1), lo, i, hi, cmp)
  {}

  lemma RearrangedSwap<T>(s: seq<T>, t: seq<T>, i: nat, j: nat, lo: nat, hi: nat)
    requires Rearranged(s, t, lo, hi) && lo <= i < hi && lo <= j < hi
    ensures Rearranged(s, Swapped(t, i, j), lo, hi)
  {}

  lemma SwapCovered<T>(o: Order<T>, t: seq<T>, i: nat, j: nat)
    requires Covers(o, t) && i < |t| && j < |t|
    ensures Covers(o, Swapped(t, i, j))
  {}

  /** What the loop of partition keeps: t is the parted rearrangement of s. */
  ghost predicate Parted<T>(s: seq<T>, t: seq<T>, lo: nat, i: nat, j: nat, hi: nat, pivot: T, o: Order<T>) {
    Parting(t, lo, i, j, hi, pivot, o.c) && Rearranged(s, t, lo, hi) && Covers(o, t)
  }

  lemma PartedStep<T(!new)>(s: seq<T>, t: seq<T>, lo: nat, i: nat, j: nat, hi: nat, pivot: T, o: Order<T>, cmp: Cmp<T>)
    requires Governs(o, cmp) && Parted(s, t, lo, i, j, hi, pivot, o) && j < hi - 1
    ensures cmp(t[j], pivot) >= 0 ==> Parted(s, t, lo, i, j + 1, hi, pivot, o)
    ensures cmp(t[j], pivot) < 0 ==> Parted(s, Swapped(t, i, j), lo, i + 1, j + 1, hi, pivot, o)
  {
    assert t[j] in o.dom && t[hi - 1] in o.dom;
    PartingStep(t, lo, i, j, hi, pivot, o.c);
    RearrangedSwap(s, t, i, j, lo, hi);
    SwapCovered(o, t, i, j);
  }

  /** What partition leaves. */
  ghost predicate Halved<T>(s: seq<T>, t: seq<T>, lo: nat, p: nat, hi: nat, o: Order<T>) {
    Split(t, lo, p, hi, o.c) && Rearranged(s, t, lo, hi) && Covers(o, t)
  }

  lemma PartedDone<T(!new)>(s: seq<T>, t: seq<T>, lo: nat, i: nat, hi: nat, pivot: T, o: Order<T>)
    requires hi > 0 && TotalPreorder(o.c) && Parted(s, t, lo, i, hi - 1, hi, pivot, o)
    ensures Halved(s, Swapped(t, i, hi - 1), lo, i, hi, o)
  {
    var u := Swapped(t, i, hi - 1);
    assert Rearranged(s, u, lo, hi) by { RearrangedSwap(s, t, i, hi - 1, lo, hi); }
    assert Covers(o, u) by { SwapCovered(o, t, i, hi - 1); }
    PartingDone(t, lo, i, hi, pivot, o.c);
  }

  /** Partition around the last element of a[low..high + 1]; the result is the pivot's place. */
  method Partition<T(!new)>(a: array<T>, low: nat, high: nat, cmp: Cmp<T>, ghost o: Order<T>) returns (p: nat)
    requires Governs(o, cmp) && Covers(o, a[..]) && low < high < a.Length
    modifies a
    ensures Halved(old(a[..]), a[..], low, p, high + 1, o)
  {
    ghost var s := a[..];
    ghost var t := s;
    var pivot := a[high];
    var i: int := low - 1;
    for j := low to high
      invariant -1 <= i && a[..] == t && Parted(s, t, low, i + 1, j, high + 1, pivot, o)
    {
      i, t := PartitionStep(a, low, i, j, high, pivot, s, t, cmp, o);
    }
    PartedDone(s, t, low, i + 1, high + 1, pivot, o);
    Swap(a, i + 1, high);
    p := i + 1;
  }

  /** The loop body: an element below the pivot goes to the front part. */
  method PartitionStep<T(!new)>(a: array<T>, ghost low: nat, i: int, j: nat, ghost high: nat, pivot: T, ghost s: seq<T>,
                                ghost t: seq<T>, cmp: Cmp<T>, ghost o: Order<T>) returns (i': int, ghost t': seq<T>)
    requires Governs(o, cmp) && -1 <= i && j < high && a[..] == t && Parted(s, t, low, i + 1, j, high + 1, pivot, o)
    modifies a
    ensures -1 <= i' && a[..] == t' && Parted(s, t', low, i' + 1, j + 1, high + 1, pivot, o)
  {
    i', t' := i, t;
    PartedStep(s, t, low, i + 1, j, high + 1, pivot, o, cmp);
    assert a[j] == t[j];
    if cmp(a[j], pivot) < 0 {
      i', t' := i + 1, Swapped(t, i + 1, j);
      Swap(a, i', j);
    }
  }

  ghost predicate SortedRange<T>(s: seq<T>, lo: nat, hi: nat, cmp: Cmp<T>) {
    hi <= |s| && forall i, j :: lo <= i < j < hi ==> cmp(s[i], s[j]) <= 0
  }

  /** t is s with the places lo .. hi - 1 sorted. */
  ghost predicate QuickDone<T>(s: seq<T>, t: seq<T>, lo: nat, hi: nat, o: Order<T>) {
    Rearranged(s, t, lo, hi) && SortedRange(t, lo, hi, o.c) && Covers(o, t)
  }

  method QuickSortRec<T(!new)>(a: array<T>, low: nat, high: int, cmp: Cmp<T>, ghost o: Order<T>)
    requires Governs(o, cmp) && Covers(o, a[..]) && low <= high + 1 <= a.Length
    modifies a
    ensures QuickDone(old(a[..]), a[..], low, high + 1, o)
    decreases high + 1 - low
  {
    ghost var s := a[..];
    if low < high {
      var pi: int := Partition(a, low, high, cmp, o);
      ghost var t := a[..];
      QuickSortRec(a, low, pi - 1, cmp, o);
      ghost var u := a[..];
      QuickSortRec(a, pi + 1, high, cmp, o);
      QuickJoin(s, t, u, a[..], low, pi, high + 1, o);
    } else {
      QuickNothing(s, low, high + 1, o);
    }
  }

  lemma QuickNothing<T>(s: seq<T>, lo: nat, hi: nat, o: Order<T>)
    requires lo <= hi <= lo + 1 && hi <= |s| && Covers(o, s)
    ensures QuickDone(s, s, lo, hi, o)
  {}

  /** Sorting both sides of the pivot sorts the range. */
  lemma QuickJoin<T(!new)>(s: seq<T>, t: seq<T>, u: seq<T>, v: seq<T>, lo: nat, p: nat, hi: nat, o: Order<T>)
    requires TotalPreorder(o.c) && Halved(s, t, lo, p, hi, o)
    requires QuickDone(t, u, lo, p, o) && QuickDone(u, v, p + 1, hi, o)
    ensures QuickDone(s, v, lo, hi, o)
  {
    SplitKept(t, u, lo, p, hi, lo, p, o.c);
    SplitKept(u, v, lo, p, hi, p + 1, hi, o.c);
    assert u[..p + 1] == v[..p + 1];
    SidesSorted(u, v, lo, p, hi, o.c);
  }

  lemma SidesSorted<T(!new)>(u: seq<T>, v: seq<T>, lo: nat, p: nat, hi: nat, cmp: Cmp<T>)
    requires TotalPreorder(cmp) && Split(v, lo, p, hi, cmp) && |u| == |v| && u[..p + 1] == v[..p + 1]
    requires SortedRange(u, lo, p, cmp) && SortedRange(v, p + 1, hi, cmp)
    ensures SortedRange(v, lo, hi, cmp)
  {
    forall i, j | lo <= i < j < hi ensures cmp(v[i], v[j]) <= 0 {
      if j < p {
        assert u[..p + 1][i] == v[..p + 1][i] && u[..p + 1][j] == v[..p + 1][j];
        assert u[i] == v[i] && u[j] == v[j];
      } else if i < p < j {
        Trans(v[i], v[p], v[j], cmp);
      }
    }
  }

  /** Permuting one side of the pivot keeps the split. */
  lemma SplitKept<T>(s: seq<T>, t: seq<T>, lo: nat, p: nat, hi: nat, from: nat, to: nat, cmp: Cmp<T>)
    requires Split(s, lo, p, hi, cmp) && Rearranged(s, t, from, to)
    requires (from == lo && to == p) || (from == p + 1 && to == hi)
    ensures Split(t, lo, p, hi, cmp)
  {
    RearrangedRange(s, t, from, to);
    forall k | from <= k < to ensures exists l :: from <= l < to && s[l] == t[k] {
      assert t[from..to][k - from] in multiset(s[from..to]);
      var l :| 0 <= l < to - from && s[from..to][l] == t[k];
      assert s[from + l] == t[k];
    }
  }

  method SortQuick<T(!new)>(a: array<T>, cmp: Cmp<T>)
    requires PreorderOn(a[..], cmp)
    modifies a
    ensures Sorted(a[..], cmp) && multiset(a[..]) == multiset(old(a[..]))
  {
    if a.Length < 2 {
      return;
    }
    ghost var s, o := a[..], OrderOn(a[..], cmp);
    OrderGoverns(s, cmp);
    QuickSortRec(a, 0, a.Length - 1, cmp, o);
    SortedAgree(a[..], o, cmp);
  }

  // ---------------------------------------------------------------- is_sorted and binary search

  /** Compares neighbours. That decides sortedness when the comparator orders the members. */
  method IsSorted<T(!new)>(a: array<T>, cmp: Cmp<T>) returns (r: bool)
    ensures r <==> NeighboursInOrder(a[..], cmp)
    ensures PreorderOn(a[..], cmp) ==> (r <==> Sorted(a[..], cmp))
  {
    ghost var s := a[..];
    if PreorderOn(s, cmp) { NeighboursSorted(s, cmp); }
    var i := 1;
    while i < a.Length
      invariant 1 <= i && forall j :: 1 <= j < i && j < |s| ==> cmp(s[j - 1], s[j]) <= 0
    {
      assert s[i - 1] == a[i - 1] && s[i] == a[i];
      if cmp(a[i - 1], a[i]) > 0 {
        return false;
      }
      i := i + 1;
    }
    return true;
  }

  /** Finds an element that compares equal to target in a sorted rearrangement of orig: the search
      succeeds exactly when orig has one. */
  method BinarySearch<T(!new)>(a: array<T>, target: T, ghost orig: seq<T>, cmp: Cmp<T>) returns (r: int)
    requires PreorderOn(a[..] + [target], cmp) && Sorted(a[..], cmp) && multiset(a[..]) == multiset(orig)
    ensures r == -1 || (0 <= r < a.Length && cmp(a[r], target) == 0)
    ensures r >= 0 <==> exists x :: x in orig && cmp(x, target) == 0
  {
    ghost var s := a[..];
    SameMembers(s, orig);
    if a.Length == 0 {
      return -1;
    }
    var l, h := 0, a.Length - 1;
    while l <= h
      invariant 0 <= l <= h + 1 <= a.Length
      invariant forall k :: 0 <= k < |s| && !(l <= k <= h) ==> cmp(s[k], target) != 0
    {
      var m := l + (h - l) / 2;
      assert a[m] == s[m];
      var c := cmp(a[m], target);
      if c == 0 {
        assert s[m] in orig;
        return m;
      }
      Halve(s, m, target, cmp);
      if c < 0 {
        l := m + 1;
      } else {
        h := m - 1;
      }
    }
    return -1;
  }

  lemma AtMostOn<T(!new)>(u: seq<T>, x: T, y: T, z: T, cmp: Cmp<T>)
    requires PreorderOn(u, cmp) && x in u && y in u && z in u
    ensures cmp(x, y) <= 0 && cmp(y, z) <= 0 ==> cmp(x, z) <= 0
  {}

  /** The half of a sorted list that one comparison rules out. */
  lemma Halve<T(!new)>(s: seq<T>, m: nat, target: T, cmp: Cmp<T>)
    requires PreorderOn(s + [target], cmp) && Sorted(s, cmp) && m < |s|
    ensures cmp(s[m], target) < 0 ==> forall k :: 0 <= k <= m ==> cmp(s[k], target) != 0
    ensures cmp(s[m], target) > 0 ==> forall k :: m <= k < |s| ==> cmp(s[k], target) != 0
  {
    var u := s + [target];
    assert target == u[|s|] && forall k :: 0 <= k < |s| ==> s[k] == u[k];
    forall k | 0 <= k <= m && cmp(s[m], target) < 0 ensures cmp(s[k], target) != 0 {
      assert s[k] in u && s[m] in u && target in u;
      if k < m { AtMostOn(u, target, s[k], s[m], cmp); }
    }
    forall k | m <= k < |s| && cmp(s[m], target) > 0 ensures cmp(s[k], target) != 0 {
      assert s[k] in u && s[m] in u && target in u;
      if m < k { AtMostOn(u, s[m], s[k], target, cmp); }
    }
  }

  // ---------------------------------------------------------------- all sorts agree on keys

  /** How many elements of s are below x. */
  ghost function CountBelow<T>(s: seq<T>, x: T, cmp: Cmp<T>): (r: nat)
    ensures r <= |s|
  {
    if s == [] then 0 else (if cmp(s[0], x) < 0 then 1 else 0) + CountBelow(s[1..], x, cmp)
  }

  lemma {:induction false} CountBelowAppend<T>(s: seq<T>, t: seq<T>, x: T, cmp: Cmp<T>)
    ensures CountBelow(s + t, x, cmp) == CountBelow(s, x, cmp) + CountBelow(t, x, cmp)
  {
    if s == [] {
      assert s + t == t;
    } else {
      assert (s + t)[1..] == s[1..] + t;
      CountBelowAppend(s[1..], t, x, cmp);
    }
  }

  lemma SameRest<T>(s: seq<T>, t: seq<T>, k: nat)
    requires multiset(s) == multiset(t) && s != [] && k < |t| && t[k] == s[0]
    ensures multiset(s[1..]) == multiset(t[..k] + t[k + 1..])
  {
    assert s == [s[0]] + s[1..] && t == t[..k] + [t[k]] + t[k + 1..];
    assert multiset(s[1..]) == multiset(s) - multiset{s[0]};
    assert multiset(t[..k] + t[k + 1..]) == multiset(t) - multiset{t[k]};
  }

  lemma {:induction false} CountBelowPermutes<T>(s: seq<T>, t: seq<T>, x: T, cmp: Cmp<T>)
    requires multiset(s) == multiset(t)
    ensures CountBelow(s, x, cmp) == CountBelow(t, x, cmp)
    decreases |s|
  {
    assert |s| == |multiset(s)| && |t| == |multiset(t)|;
    if s == [] {
    } else {
      assert s[0] in s;
      SameMembers(s, t);
      var k :| 0 <= k < |t| && t[k] == s[0];
      assert s == [s[0]] + s[1..] && t == t[..k] + ([t[k]] + t[k + 1..]);
      SameRest(s, t, k);
      CountBelowPermutes(s[1..], t[..k] + t[k + 1..], x, cmp);
      CountBelowAppend(t[..k], t[k + 1..], x, cmp);
      CountBelowAppend(t[..k], [t[k]] + t[k + 1..], x, cmp);
    }
  }

  lemma {:induction false} CountBelowAll<T>(s: seq<T>, x: T, cmp: Cmp<T>)
    requires forall i :: 0 <= i < |s| ==> cmp(s[i], x) < 0
    ensures CountBelow(s, x, cmp) == |s|
  {
    if s == [] {
    } else {
      CountBelowAll(s[1..], x, cmp);
    }
  }

  lemma {:induction false} CountBelowNone<T>(s: seq<T>, x: T, cmp: Cmp<T>)
    requires forall i :: 0 <= i < |s| ==> cmp(s[i], x) >= 0
    ensures CountBelow(s, x, cmp) == 0
  {
    if s == [] {
    } else {
      CountBelowNone(s[1..], x, cmp);
    }
  }

  /** Any two sorted permutations of one list agree place by place up to equality of keys; only
      the order of equal objects can differ. */
  lemma SortedPermutationsAgree<T(!new)>(s: seq<T>, t: seq<T>, i: nat, cmp: Cmp<T>)
    requires PreorderOn(s, cmp) && Sorted(s, cmp) && Sorted(t, cmp) && multiset(s) == multiset(t) && i < |s|
    ensures |s| == |t| && cmp(s[i], t[i]) == 0
  {
    assert |s| == |multiset(s)| && |t| == |multiset(t)|;
    var o := OrderOn(s, cmp);
    OrderGoverns(s, cmp);
    SameMembers(s, t);
    SortedAgree(s, o, cmp);
    SortedAgree(t, o, cmp);
    NotAbove(s, t, i, o.c);
    NotAbove(t, s, i, o.c);
    assert s[i] in o.dom && t[i] in o.dom;
  }

  lemma NotAbove<T(!new)>(s: seq<T>, t: seq<T>, i: nat, cmp: Cmp<T>)
    requires TotalPreorder(cmp) && Sorted(s, cmp) && Sorted(t, cmp) && multiset(s) == multiset(t) && i < |s| == |t|
    ensures cmp(s[i], t[i]) <= 0
  {
    if cmp(s[i], t[i]) > 0 {
      var x := s[i];
      forall k | 0 <= k <= i ensures cmp(t[k], x) < 0 {
        if cmp(t[k], x) >= 0 { Below(t[i], x, t[k], cmp); }
      }
      forall k | i <= k < |s| ensures cmp(s[k], x) >= 0 {
        assert cmp(x, x) == 0;
      }
      assert s == s[..i] + s[i..] && t == t[..i + 1] + t[i + 1..];
      CountBelowAppend(s[..i], s[i..], x, cmp);
      CountBelowNone(s[i..], x, cmp);
      CountBelowAppend(t[..i + 1], t[i + 1..], x, cmp);
      CountBelowAll(t[..i + 1], x, cmp);
      CountBelowPermutes(s, t, x, cmp);
    }
  }
}
