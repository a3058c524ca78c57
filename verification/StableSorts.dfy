/** Bubble and insertion sort (src/abs_sort.c) and `sorted` (src/abs.c). What each leaves is a function
    of the list, for every comparator; where the comparator is a preorder on the members it is the
    stable sort, and where it is not, some arrangement of the list stays unsorted. */
module StableSorts {
  import opened SortSpec
  import opened Neighbours

  // ---------------------------------------------------------------- bubble sort

  /** s with the neighbours j and j + 1 exchanged when they are out of order. */
  ghost function Exchanged<T>(s: seq<T>, j: nat, cmp: Cmp<T>): (t: seq<T>)
    requires j + 1 < |s|
    ensures |t| == |s|
  {
    if cmp(s[j], s[j + 1]) > 0 then s[j := s[j + 1]][j + 1 := s[j]] else s
  }

  /** s after the first j steps of a pass. */
  ghost function Passed<T>(s: seq<T>, j: nat, cmp: Cmp<T>): (t: seq<T>)
    requires j == 0 || j < |s|
    ensures |t| == |s|
  {
    if j == 0 then s else Exchanged(Passed(s, j - 1, cmp), j - 1, cmp)
  }

  /** s after i passes, each one step shorter than the one before. */
  ghost function Bubbled<T>(s: seq<T>, i: nat, cmp: Cmp<T>): (t: seq<T>)
    requires i == 0 || i < |s|
    ensures |t| == |s|
  {
    if i == 0 then s else Passed(Bubbled(s, i - 1, cmp), |s| - i, cmp)
  }

  ghost function BubbleSorted<T>(s: seq<T>, cmp: Cmp<T>): (t: seq<T>)
    ensures |t| == |s|
  {
    Bubbled(s, if s == [] then 0 else |s| - 1, cmp)
  }

  method Exchange<T>(a: array<T>, j: nat, cmp: Cmp<T>)
    requires j + 1 < a.Length
    modifies a
    ensures a[..] == Exchanged(old(a[..]), j, cmp)
  {
    if cmp(a[j], a[j + 1]) > 0 {
      a[j], a[j + 1] := a[j + 1], a[j];
    }
  }

  /** One inner loop, of j steps. */
  method Pass<T>(a: array<T>, m: nat, cmp: Cmp<T>)
    requires m < a.Length
    modifies a
    ensures a[..] == Passed(old(a[..]), m, cmp)
  {
    ghost var s := a[..];
    for j := 0 to m
      invariant a[..] == Passed(s, j, cmp)
    {
      Exchange(a, j, cmp);
    }
  }

  method SortBubble<T(!new)>(a: array<T>, cmp: Cmp<T>)
    modifies a
    ensures a[..] == BubbleSorted(old(a[..]), cmp) && multiset(a[..]) == multiset(old(a[..]))
    ensures PreorderOn(old(a[..]), cmp) ==> StableSortOf(a[..], old(a[..]), cmp)
    ensures NeighboursInOrder(old(a[..]), cmp) ==> a[..] == old(a[..])
  {
    BubbleLaws(a[..], cmp);
    Bubble(a, cmp);
  }

  /** The two loops. */
  method Bubble<T>(a: array<T>, cmp: Cmp<T>)
    modifies a
    ensures a[..] == BubbleSorted(old(a[..]), cmp)
  {
    ghost var s := a[..];
    var n := a.Length;
    var i := 0;
    while i + 1 < n
      invariant (i == 0 || i < n) && a[..] == Bubbled(s, i, cmp)
    {
      Pass(a, n - 1 - i, cmp);
      i := i + 1;
    }
  }

  /** What bubble sort leaves: always a permutation; a list whose neighbours are in order as it was;
      the stable sort under a preorder. */
  lemma BubbleLaws<T(!new)>(s: seq<T>, cmp: Cmp<T>)
    ensures multiset(BubbleSorted(s, cmp)) == multiset(s)
    ensures NeighboursInOrder(s, cmp) ==> BubbleSorted(s, cmp) == s
    ensures PreorderOn(s, cmp) ==> StableSortOf(BubbleSorted(s, cmp), s, cmp)
  {
    var k := if s == [] then 0 else |s| - 1;
    BubblePermutes(s, k, cmp);
    if NeighboursInOrder(s, cmp) { BubbleKeeps(s, k, cmp); }
    if PreorderOn(s, cmp) { BubbleStable(s, k, BubbleSorted(s, cmp), cmp); }
  }

  lemma BubbleStable<T(!new)>(s: seq<T>, k: nat, t: seq<T>, cmp: Cmp<T>)
    requires PreorderOn(s, cmp) && (k == 0 || k < |s|) && |s| <= k + 1 && t == Bubbled(s, k, cmp)
    ensures StableSortOf(t, s, cmp)
  {
    var o := OrderOn(s, cmp);
    OrderGoverns(s, cmp);
    BubbleAgrees(s, k, o, cmp);
    BubbleSettles(s, k, o.c);
    SettledAll(t, |s| - k, o.c);
    StableAgree(t, s, o, cmp);
  }

  lemma ExchangePermutes<T>(t: seq<T>, j: nat, cmp: Cmp<T>, u: seq<T>, s: seq<T>)
    requires j + 1 < |t| && u == Exchanged(t, j, cmp) && multiset(t) == multiset(s)
    ensures multiset(u) == multiset(s)
  {}

  lemma {:induction false} PassPermutes<T>(s: seq<T>, j: nat, cmp: Cmp<T>)
    requires j == 0 || j < |s|
    ensures multiset(Passed(s, j, cmp)) == multiset(s)
  {
    if j == 0 {
    } else {
      var t, u := Passed(s, j - 1, cmp), Passed(s, j, cmp);
      PassPermutes(s, j - 1, cmp);
      ExchangePermutes(t, j - 1, cmp, u, s);
    }
  }

  lemma PassOnPermutes<T>(t: seq<T>, j: nat, cmp: Cmp<T>, u: seq<T>, s: seq<T>)
    requires (j == 0 || j < |t|) && u == Passed(t, j, cmp) && multiset(t) == multiset(s)
    ensures multiset(u) == multiset(s)
  {
    PassPermutes(t, j, cmp);
    Chain(u, t, s);
  }

  lemma Chain<T>(u: seq<T>, t: seq<T>, s: seq<T>)
    requires multiset(u) == multiset(t) && multiset(t) == multiset(s)
    ensures multiset(u) == multiset(s)
  {}

  lemma {:induction false} BubblePermutes<T>(s: seq<T>, i: nat, cmp: Cmp<T>)
    requires i == 0 || i < |s|
    ensures multiset(Bubbled(s, i, cmp)) == multiset(s)
  {
    if i == 0 {
    } else {
      var t, u := Bubbled(s, i - 1, cmp), Bubbled(s, i, cmp);
      BubblePermutes(s, i - 1, cmp);
      PassOnPermutes(t, |s| - i, cmp, u, s);
    }
  }

  lemma {:induction false} PassKeeps<T>(s: seq<T>, j: nat, cmp: Cmp<T>)
    requires NeighboursInOrder(s, cmp) && (j == 0 || j < |s|)
    ensures Passed(s, j, cmp) == s
  {
    if j == 0 {
    } else {
      PassKeeps(s, j - 1, cmp);
      assert cmp(s[j - 1], s[j]) <= 0;
    }
  }

  lemma {:induction false} BubbleKeeps<T>(s: seq<T>, i: nat, cmp: Cmp<T>)
    requires NeighboursInOrder(s, cmp) && (i == 0 || i < |s|)
    ensures Bubbled(s, i, cmp) == s
  {
    if i == 0 {
    } else {
      BubbleKeeps(s, i - 1, cmp);
      PassKeeps(s, |s| - i, cmp);
    }
  }

  /** The loops only compare members of the list. */
  lemma {:induction false} PassAgrees<T(!new)>(s: seq<T>, j: nat, o: Order<T>, cmp: Cmp<T>)
    requires Governs(o, cmp) && Covers(o, s) && (j == 0 || j < |s|)
    ensures Passed(s, j, cmp) == Passed(s, j, o.c) && Covers(o, Passed(s, j, cmp))
  {
    if j == 0 {
    } else {
      PassAgrees(s, j - 1, o, cmp);
      var t := Passed(s, j - 1, cmp);
      assert t[j - 1] in o.dom && t[j] in o.dom;
    }
  }

  lemma {:induction false} BubbleAgrees<T(!new)>(s: seq<T>, i: nat, o: Order<T>, cmp: Cmp<T>)
    requires Governs(o, cmp) && Covers(o, s) && (i == 0 || i < |s|)
    ensures Bubbled(s, i, cmp) == Bubbled(s, i, o.c) && Covers(o, Bubbled(s, i, cmp))
  {
    if i == 0 {
    } else {
      BubbleAgrees(s, i - 1, o, cmp);
      PassAgrees(Bubbled(s, i - 1, cmp), |s| - i, o, cmp);
    }
  }

  /** The elements from m on are sorted and none is below an earlier one. */
  ghost predicate Settled<T>(s: seq<T>, m: nat, cmp: Cmp<T>)
    requires m <= |s|
  {
    forall i, j :: 0 <= i < j < |s| && m <= j ==> cmp(s[i], s[j]) <= 0
  }

  ghost predicate MaxAt<T>(s: seq<T>, j: nat, cmp: Cmp<T>)
    requires j < |s|
  {
    forall k :: 0 <= k <= j ==> cmp(s[k], s[j]) <= 0
  }

  lemma SettleOne<T(!new)>(s: seq<T>, m: nat, cmp: Cmp<T>)
    requires 0 < m <= |s| && Settled(s, m, cmp) && MaxAt(s, m - 1, cmp)
    ensures Settled(s, m - 1, cmp)
  {}

  lemma SettledAll<T>(s: seq<T>, m: nat, cmp: Cmp<T>)
    requires m <= |s| && m <= 1 && Settled(s, m, cmp)
    ensures Sorted(s, cmp)
  {}

  /** One step takes the largest element so far along. */
  lemma ExchangeStep<T(!new)>(s: seq<T>, m: nat, j: nat, t: seq<T>, cmp: Cmp<T>)
    requires TotalPreorder(cmp) && j + 1 < m <= |s| && Settled(s, m, cmp) && MaxAt(s, j, cmp)
    requires t == Exchanged(s, j, cmp)
    ensures Settled(t, m, cmp) && MaxAt(t, j + 1, cmp)
  {
    assert cmp(t[j], t[j + 1]) <= 0;
    forall k | 0 <= k <= j + 1 ensures cmp(t[k], t[j + 1]) <= 0 {
      assert cmp(t[j + 1], t[j + 1]) <= 0;
      if k < j {
        if t[j] == s[j] { Trans(t[k], t[j], t[j + 1], cmp); }
      }
    }
  }

  lemma ExchangeClasses<T(!new)>(s: seq<T>, j: nat, t: seq<T>, cmp: Cmp<T>)
    requires TotalPreorder(cmp) && j + 1 < |s| && t == Exchanged(s, j, cmp)
    ensures SameClasses(t, s, cmp)
  {
    if cmp(s[j], s[j + 1]) > 0 {
      assert s == s[..j] + [s[j], s[j + 1]] + s[j + 2..];
      assert t == s[..j] + [s[j + 1], s[j]] + s[j + 2..];
      SwapNeighbours(s[..j], s[j], s[j + 1], s[j + 2..], cmp);
    }
  }

  lemma ExchangeSettles<T(!new)>(t: seq<T>, m: nat, j: nat, u: seq<T>, s: seq<T>, cmp: Cmp<T>)
    requires TotalPreorder(cmp) && j + 1 < m <= |t| && Settled(t, m, cmp) && MaxAt(t, j, cmp)
    requires SameClasses(t, s, cmp) && u == Exchanged(t, j, cmp)
    ensures Settled(u, m, cmp) && MaxAt(u, j + 1, cmp) && SameClasses(u, s, cmp)
  {
    ExchangeStep(t, m, j, u, cmp);
    ExchangeClasses(t, j, u, cmp);
    SameClassesTransitive(u, t, s, cmp);
  }

  /** A pass over the first m elements moves the largest of them to place m - 1. */
  lemma {:induction false} PassSettles<T(!new)>(s: seq<T>, m: nat, j: nat, cmp: Cmp<T>)
    requires TotalPreorder(cmp) && j < m <= |s| && Settled(s, m, cmp)
    ensures Settled(Passed(s, j, cmp), m, cmp) && MaxAt(Passed(s, j, cmp), j, cmp)
    ensures SameClasses(Passed(s, j, cmp), s, cmp)
  {
    if j == 0 {
      assert cmp(s[0], s[0]) <= 0;
    } else {
      PassSettles(s, m, j - 1, cmp);
      ExchangeSettles(Passed(s, j - 1, cmp), m, j - 1, Passed(s, j, cmp), s, cmp);
    }
  }

  lemma {:induction false} BubbleSettles<T(!new)>(s: seq<T>, i: nat, cmp: Cmp<T>)
    requires TotalPreorder(cmp) && (i == 0 || i < |s|)
    ensures Settled(Bubbled(s, i, cmp), |s| - i, cmp) && SameClasses(Bubbled(s, i, cmp), s, cmp)
  {
    if i == 0 {
    } else {
      var t, m := Bubbled(s, i - 1, cmp), |s| - i + 1;
      BubbleSettles(s, i - 1, cmp);
      PassSettles(t, m, m - 1, cmp);
      SettleOne(Passed(t, m - 1, cmp), m, cmp);
      SameClassesTransitive(Passed(t, m - 1, cmp), t, s, cmp);
    }
  }

  /** Bubble sort sorts every arrangement of a list exactly when the comparator is a preorder on its
      members. */
  lemma BubbleExactly<T(!new)>(s: seq<T>, cmp: Cmp<T>)
    requires Flips(s, cmp)
    ensures (forall t :: multiset(t) == multiset(s) ==> Sorted(BubbleSorted(t, cmp), cmp)) <==> PreorderOn(s, cmp)
  {
    if PreorderOn(s, cmp) {
      forall t | multiset(t) == multiset(s) ensures Sorted(BubbleSorted(t, cmp), cmp) {
        SameMembersPreorder(s, t, cmp);
        BubbleLaws(t, cmp);
      }
    } else {
      var t := HiddenInversion(s, cmp);
      BubbleLaws(t, cmp);
    }
  }

  // ---------------------------------------------------------------- insertion sort

  /** Where key goes among the first h elements: behind the last one that is not larger. */
  ghost function GapFor<T>(s: seq<T>, h: nat, key: T, cmp: Cmp<T>): (g: nat)
    requires h <= |s|
    ensures g <= h
  {
    if h > 0 && cmp(s[h - 1], key) > 0 then GapFor(s, h - 1, key, cmp) else h
  }

  /** s with element i moved to place h, and those between shifted up. */
  ghost function Moved<T>(s: seq<T>, i: nat, h: nat): (t: seq<T>)
    requires h <= i < |s|
    ensures |t| == |s|
  {
    s[..h] + [s[i]] + s[h..i] + s[i + 1..]
  }

  ghost function Inserted<T>(s: seq<T>, i: nat, cmp: Cmp<T>): (t: seq<T>)
    requires i < |s|
    ensures |t| == |s|
  {
    Moved(s, i, GapFor(s, i, s[i], cmp))
  }

  /** s after its elements before place i have been inserted. */
  ghost function InsertedUpTo<T>(s: seq<T>, i: nat, cmp: Cmp<T>): (t: seq<T>)
    requires i <= |s|
    ensures |t| == |s|
  {
    if i <= 1 then s else Inserted(InsertedUpTo(s, i - 1, cmp), i - 1, cmp)
  }

  ghost function InsertionSorted<T>(s: seq<T>, cmp: Cmp<T>): (t: seq<T>)
    ensures |t| == |s|
  {
    InsertedUpTo(s, |s|, cmp)
  }

  method SortInsertion<T(!new)>(a: array<T>, cmp: Cmp<T>)
    modifies a
    ensures a[..] == InsertionSorted(old(a[..]), cmp) && multiset(a[..]) == multiset(old(a[..]))
    ensures PreorderOn(old(a[..]), cmp) ==> StableSortOf(a[..], old(a[..]), cmp)
    ensures NeighboursInOrder(old(a[..]), cmp) ==> a[..] == old(a[..])
  {
    InsertionLaws(a[..], cmp);
    InsertAll(a, cmp);
  }

  /** The outer loop. */
  method InsertAll<T>(a: array<T>, cmp: Cmp<T>)
    modifies a
    ensures a[..] == InsertionSorted(old(a[..]), cmp)
  {
    ghost var s := a[..];
    var n := a.Length;
    var i := 1;
    while i < n
      invariant 1 <= i && (if n == 0 then a[..] == s else i <= n && a[..] == InsertedUpTo(s, i, cmp))
    {
      Insert(a, i, cmp);
      i := i + 1;
    }
  }

  /** Moves element i down past the larger elements before it. */
  method Insert<T>(a: array<T>, i: nat, cmp: Cmp<T>)
    requires i < a.Length
    modifies a
    ensures a[..] == Inserted(old(a[..]), i, cmp)
  {
    ghost var s := a[..];
    var key := a[i];
    var j: int := i - 1;
    while j >= 0 && cmp(a[j], key) > 0
      invariant -1 <= j < i && GapFor(s, i, key, cmp) == GapFor(s, j + 1, key, cmp)
      invariant forall k :: 0 <= k <= j || i < k < a.Length ==> a[k] == s[k]
      invariant forall k :: j + 1 < k <= i ==> a[k] == s[k - 1]
    {
      a[j + 1] := a[j];
      j := j - 1;
    }
    a[j + 1] := key;
    MovedTo(s, i, j + 1, a[..]);
  }

  lemma MovedTo<T>(s: seq<T>, i: nat, h: nat, t: seq<T>)
    requires h <= i < |s| == |t| && t[h] == s[i]
    requires forall k :: 0 <= k < h || i < k < |s| ==> t[k] == s[k]
    requires forall k :: h < k <= i ==> t[k] == s[k - 1]
    ensures t == Moved(s, i, h)
  {}

  lemma InsertionLaws<T(!new)>(s: seq<T>, cmp: Cmp<T>)
    ensures multiset(InsertionSorted(s, cmp)) == multiset(s)
    ensures NeighboursInOrder(s, cmp) ==> InsertionSorted(s, cmp) == s
    ensures PreorderOn(s, cmp) ==> StableSortOf(InsertionSorted(s, cmp), s, cmp)
  {
    InsertionPermutes(s, |s|, cmp);
    if NeighboursInOrder(s, cmp) { InsertionKeeps(s, |s|, cmp); }
    if PreorderOn(s, cmp) {
      var o := OrderOn(s, cmp);
      OrderGoverns(s, cmp);
      InsertionAgrees(s, |s|, o, cmp);
      InsertionStable(s, |s|, o.c);
      var t := InsertionSorted(s, o.c);
      assert t[..|s|] == t;
      StableAgree(InsertionSorted(s, cmp), s, o, cmp);
    }
  }

  lemma InsertPermutes<T>(t: seq<T>, i: nat, cmp: Cmp<T>, u: seq<T>, s: seq<T>)
    requires i < |t| && u == Inserted(t, i, cmp) && multiset(t) == multiset(s)
    ensures multiset(u) == multiset(s)
  {
    var h := GapFor(t, i, t[i], cmp);
    assert t == t[..h] + t[h..i] + [t[i]] + t[i + 1..];
    ExchangeParts(t[..h], t[h..i], [t[i]], t[i + 1..]);
    Chain(u, t, s);
  }

  lemma ExchangeParts<T>(a: seq<T>, p: seq<T>, q: seq<T>, b: seq<T>)
    ensures multiset(a + q + p + b) == multiset(a + p + q + b)
  {}

  lemma {:induction false} InsertionPermutes<T>(s: seq<T>, i: nat, cmp: Cmp<T>)
    requires i <= |s|
    ensures multiset(InsertedUpTo(s, i, cmp)) == multiset(s)
  {
    if i <= 1 {
    } else {
      var t, u := InsertedUpTo(s, i - 1, cmp), InsertedUpTo(s, i, cmp);
      InsertionPermutes(s, i - 1, cmp);
      InsertPermutes(t, i - 1, cmp, u, s);
    }
  }

  lemma {:induction false} InsertionKeeps<T>(s: seq<T>, i: nat, cmp: Cmp<T>)
    requires NeighboursInOrder(s, cmp) && i <= |s|
    ensures InsertedUpTo(s, i, cmp) == s
  {
    if i <= 1 {
    } else {
      InsertionKeeps(s, i - 1, cmp);
      InsertKeeps(s, i - 1, cmp);
    }
  }

  lemma InsertKeeps<T>(s: seq<T>, i: nat, cmp: Cmp<T>)
    requires NeighboursInOrder(s, cmp) && 0 < i < |s|
    ensures Inserted(s, i, cmp) == s
  {
    assert cmp(s[i - 1], s[i]) <= 0;
    assert s == s[..i] + [s[i]] + [] + s[i + 1..];
  }

  lemma {:induction false} GapAgrees<T(!new)>(s: seq<T>, h: nat, key: T, o: Order<T>, cmp: Cmp<T>)
    requires Governs(o, cmp) && Covers(o, s) && h <= |s| && key in o.dom
    ensures GapFor(s, h, key, cmp) == GapFor(s, h, key, o.c)
  {
    if h == 0 {
    } else {
      assert s[h - 1] in o.dom;
      GapAgrees(s, h - 1, key, o, cmp);
    }
  }

  lemma {:induction false} InsertionAgrees<T(!new)>(s: seq<T>, i: nat, o: Order<T>, cmp: Cmp<T>)
    requires Governs(o, cmp) && Covers(o, s) && i <= |s|
    ensures InsertedUpTo(s, i, cmp) == InsertedUpTo(s, i, o.c) && Covers(o, InsertedUpTo(s, i, cmp))
  {
    if i <= 1 {
    } else {
      var t := InsertedUpTo(s, i - 1, cmp);
      InsertionAgrees(s, i - 1, o, cmp);
      assert t[i - 1] in o.dom;
      GapAgrees(t, i - 1, t[i - 1], o, cmp);
      MoveCovered(t, i - 1, GapFor(t, i - 1, t[i - 1], cmp), o);
    }
  }

  lemma MoveCovered<T>(s: seq<T>, i: nat, h: nat, o: Order<T>)
    requires h <= i < |s| && Covers(o, s)
    ensures Covers(o, Moved(s, i, h))
  {}

  lemma {:induction false} GapIs<T>(s: seq<T>, h: nat, key: T, cmp: Cmp<T>)
    requires h <= |s|
    ensures var g := GapFor(s, h, key, cmp);
            && (forall k :: g <= k < h ==> cmp(s[k], key) > 0) && (g == 0 || cmp(s[g - 1], key) <= 0)
  {
    if h == 0 {
    } else {
      GapIs(s, h - 1, key, cmp);
    }
  }

  /** Inserting into a sorted prefix extends it. */
  lemma InsertSorted<T(!new)>(s: seq<T>, i: nat, h: nat, cmp: Cmp<T>)
    requires TotalPreorder(cmp) && h <= i < |s| && Sorted(s[..i], cmp)
    requires (forall k :: h <= k < i ==> cmp(s[k], s[i]) > 0) && (h == 0 || cmp(s[h - 1], s[i]) <= 0)
    ensures Sorted(Moved(s, i, h)[..i + 1], cmp)
  {
    var t := Moved(s, i, h);
    assert forall k :: 0 <= k < i ==> s[..i][k] == s[k];
    forall p, q | 0 <= p < q <= i ensures cmp(t[p], t[q]) <= 0 {
      var p', q' := if p < h then p else p - 1, if q < h then q else q - 1;
      if p == h {
        assert t[q] == s[q'] && cmp(s[q'], s[i]) > 0;
      } else if q == h {
        if p < h - 1 {
          assert cmp(s[..i][p], s[..i][h - 1]) <= 0;
          Trans(s[p], s[h - 1], s[i], cmp);
        }
      } else {
        assert t[p] == s[p'] && t[q] == s[q'] && cmp(s[..i][p'], s[..i][q']) <= 0;
      }
    }
  }

  /** Moving an element past larger ones keeps equal elements in order. */
  lemma InsertClasses<T(!new)>(s: seq<T>, i: nat, h: nat, cmp: Cmp<T>)
    requires TotalPreorder(cmp) && h <= i < |s| && forall k :: h <= k < i ==> cmp(s[k], s[i]) > 0
    ensures SameClasses(Moved(s, i, h), s, cmp)
  {
    var a, m, b := s[..h], s[h..i], s[i + 1..];
    assert s == a + m + [s[i]] + b;
    forall x ensures Class(Moved(s, i, h), x, cmp) == Class(s, x, cmp) {
      MoveClass(a, [s[i]], m, b, x, cmp);
      MoveClass(a, m, [s[i]], b, x, cmp);
      LargerClass(m, s[i], x, cmp);
      OneEmpty(Class(a, x, cmp), Class([s[i]], x, cmp), Class(m, x, cmp), Class(b, x, cmp));
    }
  }

  lemma MoveClass<T>(a: seq<T>, p: seq<T>, q: seq<T>, b: seq<T>, x: T, cmp: Cmp<T>)
    ensures Class(a + p + q + b, x, cmp) == Class(a, x, cmp) + Class(p, x, cmp) + Class(q, x, cmp) + Class(b, x, cmp)
  {
    ClassAppend(a + p + q, b, x, cmp);
    ClassAppend(a + p, q, x, cmp);
    ClassAppend(a, p, x, cmp);
  }

  lemma OneEmpty<T>(a: seq<T>, p: seq<T>, q: seq<T>, b: seq<T>)
    requires p == [] || q == []
    ensures a + p + q + b == a + q + p + b
  {}

  lemma LargerClass<T(!new)>(m: seq<T>, key: T, x: T, cmp: Cmp<T>)
    requires TotalPreorder(cmp) && forall k :: 0 <= k < |m| ==> cmp(m[k], key) > 0
    ensures Class([key], x, cmp) == [] || Class(m, x, cmp) == []
  {
    ClassMembers([key], x, cmp);
    ClassMembers(m, x, cmp);
    if cmp(key, x) == 0 && Class(m, x, cmp) != [] {
      var y := Class(m, x, cmp)[0];
      assert y in Class(m, x, cmp);
      Equivalence(y, x, key, cmp);
      assert false;
    }
    if Class([key], x, cmp) != [] { assert Class([key], x, cmp)[0] in Class([key], x, cmp); }
  }

  lemma InsertStable<T(!new)>(t: seq<T>, i: nat, u: seq<T>, s: seq<T>, cmp: Cmp<T>)
    requires TotalPreorder(cmp) && i < |t| && u == Inserted(t, i, cmp)
    requires SameClasses(t, s, cmp) && Sorted(t[..i], cmp)
    ensures SameClasses(u, s, cmp) && Sorted(u[..i + 1], cmp)
  {
    var h := GapFor(t, i, t[i], cmp);
    GapIs(t, i, t[i], cmp);
    InsertSorted(t, i, h, cmp);
    InsertClasses(t, i, h, cmp);
    SameClassesTransitive(u, t, s, cmp);
  }

  lemma {:induction false} InsertionStable<T(!new)>(s: seq<T>, i: nat, cmp: Cmp<T>)
    requires TotalPreorder(cmp) && i <= |s|
    ensures SameClasses(InsertedUpTo(s, i, cmp), s, cmp) && Sorted(InsertedUpTo(s, i, cmp)[..i], cmp)
  {
    if i <= 1 {
    } else {
      var t := InsertedUpTo(s, i - 1, cmp);
      InsertionStable(s, i - 1, cmp);
      InsertStable(t, i - 1, InsertedUpTo(s, i, cmp), s, cmp);
    }
  }

  /** Insertion sort sorts every arrangement of a list under the same condition. */
  lemma InsertionExactly<T(!new)>(s: seq<T>, cmp: Cmp<T>)
    requires Flips(s, cmp)
    ensures (forall t :: multiset(t) == multiset(s) ==> Sorted(InsertionSorted(t, cmp), cmp)) <==> PreorderOn(s, cmp)
  {
    if PreorderOn(s, cmp) {
      forall t | multiset(t) == multiset(s) ensures Sorted(InsertionSorted(t, cmp), cmp) {
        SameMembersPreorder(s, t, cmp);
        InsertionLaws(t, cmp);
      }
    } else {
      var t := HiddenInversion(s, cmp);
      InsertionLaws(t, cmp);
    }
  }

  // ---------------------------------------------------------------- sorted()

  /** The comparator with its answers reversed. */
  function Reversed<T>(cmp: Cmp<T>): Cmp<T> {
    (x, y) => -cmp(x, y)
  }

  lemma ReversedPreorder<T(!new)>(s: seq<T>, cmp: Cmp<T>)
    requires PreorderOn(s, cmp)
    ensures PreorderOn(s, Reversed(cmp))
  {
    var d := Reversed(cmp);
    forall x, y, z | x in s && y in s && z in s && d(x, y) <= 0 && d(y, z) <= 0 ensures d(x, z) <= 0 {
      assert cmp(y, x) <= 0 && cmp(z, y) <= 0 && cmp(z, x) <= 0;
    }
  }

  /** The sorted copy of a list, which is bubble sort under the comparator or the reversed one. In
      both cases equal elements keep their order. */
  method SortedCopy<T(!new)>(list: array<T>, reverse: bool, cmp: Cmp<T>) returns (res: array<T>)
    ensures fresh(res) && list[..] == old(list[..])
    ensures res[..] == BubbleSorted(list[..], if reverse then Reversed(cmp) else cmp)
    ensures PreorderOn(list[..], cmp) ==> StableSortOf(res[..], list[..], if reverse then Reversed(cmp) else cmp)
    ensures PreorderOn(list[..], cmp) ==> forall i, j :: 0 <= i < j < res.Length ==>
              if reverse then cmp(res[i], res[j]) >= 0 else cmp(res[i], res[j]) <= 0
  {
    res := new T[list.Length](i requires 0 <= i < list.Length reads list => list[i]);
    assert res[..] == list[..];
    if PreorderOn(list[..], cmp) { ReversedPreorder(list[..], cmp); }
    SortBubble(res, if reverse then Reversed(cmp) else cmp);
  }
}
