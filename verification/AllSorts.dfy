/** The stable sorts side by side on one list of integer objects: those that call compare_objs and
    those that read the values (src/abs_sort.c) leave the same objects in the same places. */
module AllSorts {
  import opened SortSpec
  import opened ObjectOrder
  import LinearSorts
  import MergeSorts
  import RadixSort
  import StableSorts

  ghost predicate AllInts(s: seq<Ref>) {
    forall i :: 0 <= i < |s| ==> s[i].val.IntV?
  }

  /** The value counting and radix sort read. */
  function ValueOf(r: Ref): int {
    if r.val.IntV? then r.val.i else 0
  }

  lemma AgreeOnInts(x: Ref, y: Ref, toDouble: int -> real)
    requires x.val.IntV? && y.val.IntV?
    ensures CompareObjs(toDouble)(x, y) == LinearSorts.KeyCmp(ValueOf)(x, y)
  {
    var k: Ref -> int := ValueOf;
    assert LinearSorts.KeyCmp(k)(x, y) == LinearSorts.Sign(k(x), k(y));
    assert CompareObjs(toDouble)(x, y) == CompareVals(x.val, y.val, toDouble);
  }

  lemma {:induction false} ClassOfInts(s: seq<Ref>, x: Ref, toDouble: int -> real)
    requires AllInts(s) && x.val.IntV?
    ensures Class(s, x, CompareObjs(toDouble)) == Class(s, x, LinearSorts.KeyCmp(ValueOf))
  {
    if s == [] {
    } else {
      AgreeOnInts(s[0], x, toDouble);
      ClassOfInts(s[1..], x, toDouble);
    }
  }

  lemma SortedInts(s: seq<Ref>, toDouble: int -> real)
    requires AllInts(s)
    ensures Sorted(s, CompareObjs(toDouble)) <==> Sorted(s, LinearSorts.KeyCmp(ValueOf))
  {
    forall i, j | 0 <= i < j < |s|
      ensures CompareObjs(toDouble)(s[i], s[j]) == LinearSorts.KeyCmp(ValueOf)(s[i], s[j])
    {
      AgreeOnInts(s[i], s[j], toDouble);
    }
  }

  lemma IntsPermuted(out: seq<Ref>, s: seq<Ref>)
    requires AllInts(s) && multiset(out) == multiset(s)
    ensures AllInts(out)
  {
    SameMembers(out, s);
    forall i | 0 <= i < |out| ensures out[i].val.IntV? { assert out[i] in s; }
  }

  /** On integer objects the stable sort by value is the stable sort under compare_objs. */
  lemma ValueOrder(out: seq<Ref>, s: seq<Ref>, toDouble: int -> real)
    requires AllInts(s)
    ensures StableSortOf(out, s, LinearSorts.KeyCmp(ValueOf)) <==> StableSortOf(out, s, CompareObjs(toDouble))
  {
    if multiset(out) == multiset(s) {
      IntsPermuted(out, s);
      SortedInts(out, toDouble);
      forall x | x in s
        ensures Class(out, x, CompareObjs(toDouble)) == Class(out, x, LinearSorts.KeyCmp(ValueOf))
        ensures Class(s, x, CompareObjs(toDouble)) == Class(s, x, LinearSorts.KeyCmp(ValueOf))
      {
        ClassOfInts(out, x, toDouble);
        ClassOfInts(s, x, toDouble);
      }
    }
  }

  lemma IntsOrdered(s: seq<Ref>, toDouble: int -> real)
    requires AllInts(s)
    ensures PreorderOn(s, CompareObjs(toDouble))
  {}

  /** Two stable sorts of a list of integers, under either comparator, are one. */
  lemma OneResult(a: seq<Ref>, b: seq<Ref>, s: seq<Ref>, toDouble: int -> real)
    requires AllInts(s) && StableSortOf(a, s, CompareObjs(toDouble))
    requires StableSortOf(b, s, CompareObjs(toDouble)) || StableSortOf(b, s, LinearSorts.KeyCmp(ValueOf))
    ensures a == b
  {
    IntsOrdered(s, toDouble);
    ValueOrder(b, s, toDouble);
    StableSortUnique(a, b, s, CompareObjs(toDouble));
  }

  lemma {:induction false} NeverSkipped(l: nat, n: nat)
    ensures MergeSorts.NoneSkipped(l, n, (l, n) => false)
    decreases n
  {
    if n <= 1 {
    } else {
      NeverSkipped(l, MergeSorts.Left(n));
      NeverSkipped(l + MergeSorts.Left(n), n - MergeSorts.Left(n));
    }
  }

  method Clone(list: array<Ref>) returns (c: array<Ref>)
    ensures fresh(c) && c[..] == list[..]
  {
    c := new Ref[list.Length](i requires 0 <= i < list.Length reads list => list[i]);
  }

  /** The sorts, each on a copy of a list of integers and with memory available. */
  method BubbleCopy(list: array<Ref>, toDouble: int -> real) returns (c: array<Ref>)
    requires AllInts(list[..])
    ensures fresh(c) && StableSortOf(c[..], list[..], CompareObjs(toDouble))
  {
    IntsOrdered(list[..], toDouble);
    c := Clone(list);
    StableSorts.SortBubble(c, CompareObjs(toDouble));
  }

  method InsertionCopy(list: array<Ref>, toDouble: int -> real) returns (c: array<Ref>)
    requires AllInts(list[..])
    ensures fresh(c) && StableSortOf(c[..], list[..], CompareObjs(toDouble))
  {
    IntsOrdered(list[..], toDouble);
    c := Clone(list);
    StableSorts.SortInsertion(c, CompareObjs(toDouble));
  }

  method MergeCopy(list: array<Ref>, toDouble: int -> real) returns (c: array<Ref>)
    requires AllInts(list[..])
    ensures fresh(c) && StableSortOf(c[..], list[..], CompareObjs(toDouble))
  {
    IntsOrdered(list[..], toDouble);
    c := Clone(list);
    NeverSkipped(0, c.Length);
    MergeSorts.SortMerge(c, CompareObjs(toDouble), (l, n) => false);
  }

  method CountingCopy(list: array<Ref>) returns (c: array<Ref>)
    requires AllInts(list[..])
    ensures fresh(c) && StableSortOf(c[..], list[..], LinearSorts.KeyCmp(ValueOf))
  {
    c := Clone(list);
    LinearSorts.SortCounting(c, ValueOf, false);
  }

  method RadixCopy(list: array<Ref>) returns (c: array<Ref>)
    requires AllInts(list[..]) && RadixSort.NonNegative(list[..], ValueOf)
    ensures fresh(c) && StableSortOf(c[..], list[..], LinearSorts.KeyCmp(ValueOf))
  {
    c := Clone(list);
    RadixSort.SortRadix(c, ValueOf, p => false);
  }

  /** Bubble, insertion and merge sort and `sorted` under compare_objs, counting and radix sort by
      value, on one list of non-negative integers. */
  method SixWays(list: array<Ref>, toDouble: int -> real)
    returns (bubble: array<Ref>, insertion: array<Ref>, merge: array<Ref>, counting: array<Ref>, radix: array<Ref>,
             sorted: array<Ref>)
    requires AllInts(list[..]) && RadixSort.NonNegative(list[..], ValueOf)
    ensures list[..] == old(list[..]) && StableSortOf(sorted[..], list[..], CompareObjs(toDouble))
    ensures bubble[..] == insertion[..] == merge[..] == counting[..] == radix[..] == sorted[..]
  {
    ghost var s := list[..];
    bubble := BubbleCopy(list, toDouble);
    insertion := InsertionCopy(list, toDouble);
    merge := MergeCopy(list, toDouble);
    counting := CountingCopy(list);
    radix := RadixCopy(list);
    IntsOrdered(s, toDouble);
    sorted := StableSorts.SortedCopy(list, false, CompareObjs(toDouble));
    OneResult(sorted[..], bubble[..], s, toDouble);
    OneResult(sorted[..], insertion[..], s, toDouble);
    OneResult(sorted[..], merge[..], s, toDouble);
    OneResult(sorted[..], counting[..], s, toDouble);
    OneResult(sorted[..], radix[..], s, toDouble);
  }

  /** Two words out of the order of the dictionary are exchanged. */
  method SortTwoWords(x: Ref, y: Ref, toDouble: int -> real) returns (words: array<Ref>)
    requires x.val.StrV? && y.val.StrV? && Precedes(y.val.s, x.val.s)
    ensures words[..] == [y, x]
  {
    var list := new Ref[2][x, y];
    ghost var s := list[..];
    assert s == [x, y];
    StringsOrdered(s, toDouble);
    words := StableSorts.SortedCopy(list, false, CompareObjs(toDouble));
    CompareExactly(y.val, x.val, toDouble);
    SortedPair(words[..], x, y, toDouble);
  }

  /** An input: sorted puts "b", "a" into the order "a", "b". */
  method SortWords(toDouble: int -> real) returns (words: array<Ref>)
    ensures words[..] == [Ref(1, StrV("a")), Ref(0, StrV("b"))]
  {
    assert PartAt("a", "b", 0);
    words := SortTwoWords(Ref(0, StrV("b")), Ref(1, StrV("a")), toDouble);
  }

  lemma StringsOrdered(s: seq<Ref>, toDouble: int -> real)
    requires forall x :: x in s ==> x.val.StrV?
    ensures PreorderOn(s, CompareObjs(toDouble))
  {
    forall x, y, z | x in s && y in s && z in s
      && CompareVals(x.val, y.val, toDouble) <= 0 && CompareVals(y.val, z.val, toDouble) <= 0
      ensures CompareVals(x.val, z.val, toDouble) <= 0
    {
      StrcmpTrans(x.val.s, y.val.s, z.val.s);
    }
    ObjectsFlip(s, toDouble);
  }

  lemma SortedPair(out: seq<Ref>, x: Ref, y: Ref, toDouble: int -> real)
    requires Sorted(out, CompareObjs(toDouble)) && multiset(out) == multiset([x, y])
    requires CompareVals(y.val, x.val, toDouble) < 0
    ensures out == [y, x]
  {
    assert |out| == |multiset(out)| == |multiset([x, y])| == 2;
    assert out == [out[0], out[1]];
    CompareExactly(y.val, x.val, toDouble);
    CompareExactly(x.val, y.val, toDouble);
    assert CompareVals(x.val, y.val, toDouble) > 0;
    assert multiset([out[0], out[1]]) == multiset{out[0], out[1]} == multiset{x, y};
  }

  /** Under compare_objs bubble sort and insertion sort sort every arrangement of a list exactly when
      nothing in it confuses two unequal members; 2.0, NaN, 1.0 they leave as it is. */
  lemma ObjectsSortedExactly(s: seq<Ref>, toDouble: int -> real)
    requires Monotone(toDouble)
    ensures var cmp := CompareObjs(toDouble);
            && ((forall t :: multiset(t) == multiset(s) ==> Sorted(StableSorts.BubbleSorted(t, cmp), cmp))
                <==> !Confused(s, toDouble))
            && ((forall t :: multiset(t) == multiset(s) ==> Sorted(StableSorts.InsertionSorted(t, cmp), cmp))
                <==> !Confused(s, toDouble))
  {
    ObjectsFlip(s, toDouble);
    PreorderExactly(s, toDouble);
    StableSorts.BubbleExactly(s, CompareObjs(toDouble));
    StableSorts.InsertionExactly(s, CompareObjs(toDouble));
  }

  /** The list with the NaN as both sorts leave it. */
  lemma NaNStays(toDouble: int -> real)
    ensures var s, cmp := [Ref(0, FloatV(Finite(2.0))), Ref(1, FloatV(NaN)), Ref(2, FloatV(Finite(1.0)))],
                          CompareObjs(toDouble);
            StableSorts.BubbleSorted(s, cmp) == s == StableSorts.InsertionSorted(s, cmp) && !Sorted(s, cmp)
  {
    var s := [Ref(0, FloatV(Finite(2.0))), Ref(1, FloatV(NaN)), Ref(2, FloatV(Finite(1.0)))];
    NaNLooksSorted(toDouble);
    StableSorts.BubbleLaws(s, CompareObjs(toDouble));
    StableSorts.InsertionLaws(s, CompareObjs(toDouble));
  }
}
