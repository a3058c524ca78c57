/** What the sorts of src/abs_sort.c are measured against: sortedness under a comparator, the
    subsequence of elements equal to a given one, and the stable sort of a sequence, which is
    unique. Elements stand for object references: two of them can compare equal and still differ.
    The sorts need the comparator to be a total preorder on the members of the list only; their
    proofs use an extension of it that is one on all elements. */
module SortSpec {
  /** A comparator in the style of strcmp: negative, zero or positive. */
  type Cmp<!T> = (T, T) -> int

  ghost predicate TotalPreorder<T(!new)>(cmp: Cmp<T>) {
    && (forall x, y :: cmp(x, y) > 0 <==> cmp(y, x) < 0)
    && (forall x, y, z {:trigger AtMost(x, y, cmp), AtMost(y, z, cmp)} ::
          AtMost(x, y, cmp) && AtMost(y, z, cmp) ==> AtMost(x, z, cmp))
  }

  ghost predicate AtMost<T>(x: T, y: T, cmp: Cmp<T>) {
    cmp(x, y) <= 0
  }

  lemma Trans<T(!new)>(x: T, y: T, z: T, cmp: Cmp<T>)
    requires TotalPreorder(cmp) && cmp(x, y) <= 0 && cmp(y, z) <= 0
    ensures cmp(x, z) <= 0
  {
    assert AtMost(x, y, cmp) && AtMost(y, z, cmp) && AtMost(x, z, cmp);
  }

  lemma EqualTrans<T(!new)>(z: T, x: T, y: T, cmp: Cmp<T>)
    requires TotalPreorder(cmp) && cmp(x, y) == 0
    ensures cmp(z, x) == 0 ==> cmp(z, y) == 0
  {
    if cmp(z, x) == 0 {
      Trans(z, x, y, cmp);
      Trans(y, x, z, cmp);
    }
  }

  ghost predicate Sorted<T>(s: seq<T>, cmp: Cmp<T>) {
    forall i, j :: 0 <= i < j < |s| ==> cmp(s[i], s[j]) <= 0
  }

  ghost predicate AllBelow<T>(s: seq<T>, t: seq<T>, cmp: Cmp<T>) {
    forall i, j :: 0 <= i < |s| && 0 <= j < |t| ==> cmp(s[i], t[j]) <= 0
  }

  /** The elements of s that compare equal to x, in their order in s. */
  ghost function Class<T>(s: seq<T>, x: T, cmp: Cmp<T>): seq<T> {
    if s == [] then [] else (if cmp(s[0], x) == 0 then [s[0]] else []) + Class(s[1..], x, cmp)
  }

  /** The comparator is a total preorder on the members of s. */
  ghost predicate PreorderOn<T(!new)>(s: seq<T>, cmp: Cmp<T>) {
    && (forall x, y :: x in s && y in s ==> (cmp(x, y) > 0 <==> cmp(y, x) < 0))
    && (forall x, y, z :: x in s && y in s && z in s && cmp(x, y) <= 0 && cmp(y, z) <= 0 ==> cmp(x, z) <= 0)
  }

  /** out is a sorted rearrangement of s that keeps equal elements in their order. */
  ghost predicate StableSortOf<T(!new)>(out: seq<T>, s: seq<T>, cmp: Cmp<T>) {
    && Sorted(out, cmp) && multiset(out) == multiset(s)
    && forall x :: x in s ==> Class(out, x, cmp) == Class(s, x, cmp)
  }

  /** The same under a total preorder. */
  ghost predicate StablySorted<T(!new)>(out: seq<T>, s: seq<T>, cmp: Cmp<T>) {
    Sorted(out, cmp) && SameClasses(out, s, cmp)
  }

  ghost predicate SameClasses<T(!new)>(out: seq<T>, s: seq<T>, cmp: Cmp<T>) {
    forall x {:trigger Class(out, x, cmp)} {:trigger Class(s, x, cmp)} :: Class(out, x, cmp) == Class(s, x, cmp)
  }

  lemma {:induction false} ClassAppend<T>(s: seq<T>, t: seq<T>, x: T, cmp: Cmp<T>)
    ensures Class(s + t, x, cmp) == Class(s, x, cmp) + Class(t, x, cmp)
  {
    if s == [] {
      assert s + t == t;
    } else {
      assert (s + t)[1..] == s[1..] + t;
      ClassAppend(s[1..], t, x, cmp);
      Regroup(if cmp(s[0], x) == 0 then [s[0]] else [], Class(s[1..], x, cmp), Class(t, x, cmp));
    }
  }

  lemma Regroup<T>(e: seq<T>, a: seq<T>, b: seq<T>)
    ensures e + (a + b) == (e + a) + b
  {}

  /** Splitting off the last element. */
  lemma ClassSnoc<T>(s: seq<T>, y: T, x: T, cmp: Cmp<T>)
    ensures Class(s + [y], x, cmp) == Class(s, x, cmp) + (if cmp(y, x) == 0 then [y] else [])
  {
    ClassAppend(s, [y], x, cmp);
    assert [y][1..] == [];
    assert Class([y], x, cmp) == if cmp(y, x) == 0 then [y] else [];
  }

  lemma {:induction false} ClassMembers<T>(s: seq<T>, x: T, cmp: Cmp<T>)
    ensures forall y :: y in Class(s, x, cmp) <==> y in s && cmp(y, x) == 0
  {
    if s == [] {
    } else {
      ClassMembers(s[1..], x, cmp);
    }
  }

  /** Equal elements have the same class. */
  lemma {:induction false} ClassEqual<T(!new)>(s: seq<T>, x: T, y: T, cmp: Cmp<T>)
    requires TotalPreorder(cmp) && cmp(x, y) == 0
    ensures Class(s, x, cmp) == Class(s, y, cmp)
  {
    if s == [] {
    } else {
      ClassEqual(s[1..], x, y, cmp);
      EqualTrans(s[0], x, y, cmp);
      EqualTrans(s[0], y, x, cmp);
    }
  }

  /** Exchanging two neighbours that are not equal moves no element past an equal one. */
  lemma SwapNeighbours<T(!new)>(p: seq<T>, a: T, b: T, q: seq<T>, cmp: Cmp<T>)
    requires TotalPreorder(cmp) && cmp(a, b) != 0
    ensures SameClasses(p + [b, a] + q, p + [a, b] + q, cmp)
  {
    forall x ensures Class(p + [b, a] + q, x, cmp) == Class(p + [a, b] + q, x, cmp) {
      ClassPair(p, b, a, q, x, cmp);
      ClassPair(p, a, b, q, x, cmp);
      if cmp(a, x) == 0 && cmp(b, x) == 0 { Equivalence(a, x, b, cmp); }
    }
  }

  lemma ClassPair<T>(p: seq<T>, a: T, b: T, q: seq<T>, x: T, cmp: Cmp<T>)
    ensures Class(p + [a, b] + q, x, cmp)
            == Class(p, x, cmp) + (if cmp(a, x) == 0 then [a] else []) + (if cmp(b, x) == 0 then [b] else [])
               + Class(q, x, cmp)
  {
    ClassAppend(p + [a, b], q, x, cmp);
    assert p + [a, b] == p + [a] + [b];
    ClassSnoc(p + [a], b, x, cmp);
    ClassSnoc(p, a, x, cmp);
  }

  lemma Equivalence<T(!new)>(a: T, x: T, b: T, cmp: Cmp<T>)
    requires TotalPreorder(cmp) && cmp(a, x) == 0 && cmp(b, x) == 0
    ensures cmp(a, b) == 0
  {
    Trans(a, x, b, cmp);
    Trans(b, x, a, cmp);
  }

  /** Class membership determines how often an element occurs. */
  lemma {:induction false} ClassCount<T(!new)>(s: seq<T>, x: T, cmp: Cmp<T>)
    requires TotalPreorder(cmp)
    ensures multiset(Class(s, x, cmp))[x] == multiset(s)[x]
  {
    if s == [] {
    } else {
      ClassCount(s[1..], x, cmp);
      assert s == [s[0]] + s[1..];
      assert cmp(x, x) == 0;
    }
  }

  lemma SameClassesPermute<T(!new)>(out: seq<T>, s: seq<T>, cmp: Cmp<T>)
    requires TotalPreorder(cmp) && SameClasses(out, s, cmp)
    ensures multiset(out) == multiset(s)
  {
    forall x ensures multiset(out)[x] == multiset(s)[x] {
      ClassCount(out, x, cmp);
      ClassCount(s, x, cmp);
    }
  }

  /** Two sorted sequences with the same classes are identical. */
  lemma {:induction false} StablySortedUnique<T(!new)>(a: seq<T>, b: seq<T>, cmp: Cmp<T>)
    requires TotalPreorder(cmp) && Sorted(a, cmp) && Sorted(b, cmp) && SameClasses(a, b, cmp)
    ensures a == b
  {
    SameClassesPermute(a, b, cmp);
    if a == [] {
      assert |multiset(a)| == |multiset(b)|;
    } else {
      assert |multiset(a)| == |multiset(b)|;
      SameHead(a, b, cmp);
      SameTails(a, b, cmp);
      StablySortedUnique(a[1..], b[1..], cmp);
      assert a == [a[0]] + a[1..] && b == [b[0]] + b[1..];
    }
  }

  lemma ClassTail<T>(s: seq<T>, x: T, cmp: Cmp<T>)
    requires s != []
    ensures Class(s[1..], x, cmp) == if cmp(s[0], x) == 0 then Class(s, x, cmp)[1..] else Class(s, x, cmp)
  {}

  lemma SameTails<T(!new)>(a: seq<T>, b: seq<T>, cmp: Cmp<T>)
    requires SameClasses(a, b, cmp) && a != [] && b != [] && a[0] == b[0]
    ensures SameClasses(a[1..], b[1..], cmp)
  {
    forall x ensures Class(a[1..], x, cmp) == Class(b[1..], x, cmp) {
      assert Class(a, x, cmp) == Class(b, x, cmp);
      ClassTail(a, x, cmp);
      ClassTail(b, x, cmp);
    }
  }

  lemma SameHead<T(!new)>(a: seq<T>, b: seq<T>, cmp: Cmp<T>)
    requires TotalPreorder(cmp) && Sorted(a, cmp) && Sorted(b, cmp) && SameClasses(a, b, cmp)
    requires a != [] && b != []
    ensures a[0] == b[0]
  {
    var x, y := a[0], b[0];
    assert cmp(x, x) == 0 && cmp(y, y) == 0;
    HeadBelow(a, b, cmp);
    HeadBelow(b, a, cmp);
    ClassEqual(b, x, y, cmp);
    assert Class(a, x, cmp)[0] == x && Class(b, y, cmp)[0] == y;
  }

  lemma HeadBelow<T(!new)>(a: seq<T>, b: seq<T>, cmp: Cmp<T>)
    requires TotalPreorder(cmp) && Sorted(a, cmp) && SameClasses(a, b, cmp) && a != [] && b != []
    ensures cmp(a[0], b[0]) <= 0
  {
    var y := b[0];
    assert cmp(y, y) == 0;
    ClassMembers(a, y, cmp);
    ClassMembers(b, y, cmp);
    assert y in Class(b, y, cmp);
    assert y in a;
    var i :| 0 <= i < |a| && a[i] == y;
    assert cmp(a[0], a[0]) == 0;
  }

  lemma SameClassesTransitive<T(!new)>(a: seq<T>, b: seq<T>, c: seq<T>, cmp: Cmp<T>)
    requires SameClasses(a, b, cmp) && SameClasses(b, c, cmp)
    ensures SameClasses(a, c, cmp)
  {
    forall x ensures Class(a, x, cmp) == Class(c, x, cmp) {
      assert Class(a, x, cmp) == Class(b, x, cmp);
    }
  }

  // ---------------------------------------------------------------- the members' order, extended

  /** A total preorder and the elements on which it is used. */
  datatype Order<!T> = Order(c: Cmp<T>, dom: seq<T>)

  /** The comparator agrees with the order on these elements. */
  ghost predicate Governs<T(!new)>(o: Order<T>, cmp: Cmp<T>) {
    && TotalPreorder(o.c)
    && forall x, y {:trigger cmp(x, y)} :: x in o.dom && y in o.dom ==> cmp(x, y) == o.c(x, y)
  }

  ghost predicate Covers<T>(o: Order<T>, s: seq<T>) {
    forall k :: 0 <= k < |s| ==> s[k] in o.dom
  }

  ghost predicate Within<T>(a: array<T>, o: Order<T>)
    reads a
  {
    forall k :: 0 <= k < a.Length ==> a[k] in o.dom
  }

  /** The comparator on the members of s, with all other elements equal to each other and above. */
  ghost function Completion<T>(s: seq<T>, cmp: Cmp<T>): Cmp<T> {
    (x, y) => if x in s then (if y in s then cmp(x, y) else -1) else if y in s then 1 else 0
  }

  ghost function OrderOn<T>(s: seq<T>, cmp: Cmp<T>): (o: Order<T>)
    ensures o.dom == s && Covers(o, s)
  {
    Order(Completion(s, cmp), s)
  }

  lemma OrderGoverns<T(!new)>(s: seq<T>, cmp: Cmp<T>)
    requires PreorderOn(s, cmp)
    ensures Governs(OrderOn(s, cmp), cmp)
  {
    var c := Completion(s, cmp);
    forall x, y ensures c(x, y) > 0 <==> c(y, x) < 0 {}
    forall x, y, z {:trigger AtMost(x, y, c), AtMost(y, z, c)} | AtMost(x, y, c) && AtMost(y, z, c)
      ensures AtMost(x, z, c)
    {}
  }

  /** A permutation has the same members. */
  lemma SameMembers<T>(s: seq<T>, t: seq<T>)
    requires multiset(s) == multiset(t)
    ensures forall x :: x in s <==> x in t
  {
    forall x ensures x in s <==> x in t {
      assert x in s <==> x in multiset(s);
      assert x in t <==> x in multiset(t);
    }
  }

  lemma CoversMembers<T>(o: Order<T>, s: seq<T>)
    requires o.dom == s
    ensures Covers(o, s)
  {}

  lemma CoversArray<T>(a: array<T>, o: Order<T>)
    requires o.dom == a[..]
    ensures Within(a, o)
  {
    forall k | 0 <= k < a.Length ensures a[k] in o.dom { assert a[k] == a[..][k]; }
  }

  lemma WithinCovers<T>(a: array<T>, o: Order<T>)
    requires Within(a, o)
    ensures Covers(o, a[..])
  {}

  /** A permutation uses the same elements. */
  lemma WithinPermuted<T>(a: array<T>, s: seq<T>, o: Order<T>)
    requires Covers(o, s) && multiset(a[..]) == multiset(s)
    ensures Within(a, o)
  {
    SameMembers(a[..], s);
    forall k | 0 <= k < a.Length ensures a[k] in o.dom { assert a[..][k] in s; }
  }

  lemma SortedAgree<T(!new)>(s: seq<T>, o: Order<T>, cmp: Cmp<T>)
    requires Governs(o, cmp) && Covers(o, s)
    ensures Sorted(s, o.c) <==> Sorted(s, cmp)
  {
    forall i, j | 0 <= i < j < |s| ensures cmp(s[i], s[j]) == o.c(s[i], s[j]) {
      assert s[i] in o.dom && s[j] in o.dom;
    }
  }

  lemma {:induction false} ClassAgree<T(!new)>(s: seq<T>, x: T, o: Order<T>, cmp: Cmp<T>)
    requires Governs(o, cmp) && Covers(o, s) && x in o.dom
    ensures Class(s, x, o.c) == Class(s, x, cmp)
  {
    if s == [] {
    } else {
      assert s[0] in o.dom && cmp(s[0], x) == o.c(s[0], x);
      ClassAgree(s[1..], x, o, cmp);
    }
  }

  /** On covered elements the order's stable sort and the comparator's are one. */
  lemma StableAgree<T(!new)>(out: seq<T>, s: seq<T>, o: Order<T>, cmp: Cmp<T>)
    requires Governs(o, cmp) && o.dom == s && Covers(o, out)
    ensures StablySorted(out, s, o.c) ==> StableSortOf(out, s, cmp)
    ensures StableSortOf(out, s, cmp) ==> StablySorted(out, s, o.c)
  {
    CoversMembers(o, s);
    SortedAgree(out, o, cmp);
    if StablySorted(out, s, o.c) {
      SameClassesPermute(out, s, o.c);
      forall x | x in s ensures Class(out, x, cmp) == Class(s, x, cmp) {
        ClassAgree(out, x, o, cmp);
        ClassAgree(s, x, o, cmp);
        assert Class(out, x, o.c) == Class(s, x, o.c);
      }
    }
    if StableSortOf(out, s, cmp) {
      forall x | x in s ensures Class(out, x, o.c) == Class(s, x, o.c) {
        ClassAgree(out, x, o, cmp);
        ClassAgree(s, x, o, cmp);
      }
      ClassesFromMembers(out, s, o.c);
    }
  }

  /** Under a total preorder the classes of the members determine all classes. */
  lemma ClassesFromMembers<T(!new)>(out: seq<T>, s: seq<T>, c: Cmp<T>)
    requires TotalPreorder(c) && multiset(out) == multiset(s)
    requires forall x :: x in s ==> Class(out, x, c) == Class(s, x, c)
    ensures SameClasses(out, s, c)
  {
    SameMembers(out, s);
    forall x ensures Class(out, x, c) == Class(s, x, c) {
      ClassMembers(s, x, c);
      ClassMembers(out, x, c);
      if Class(s, x, c) != [] {
        var y := Class(s, x, c)[0];
        assert y in Class(s, x, c);
        ClassEqual(s, y, x, c);
        ClassEqual(out, y, x, c);
      } else if Class(out, x, c) != [] {
        assert Class(out, x, c)[0] in Class(out, x, c);
        assert false;
      }
    }
  }

  /** There is only one stable sort. */
  lemma StableSortUnique<T(!new)>(a: seq<T>, b: seq<T>, s: seq<T>, cmp: Cmp<T>)
    requires PreorderOn(s, cmp) && StableSortOf(a, s, cmp) && StableSortOf(b, s, cmp)
    ensures a == b
  {
    var o := OrderOn(s, cmp);
    OrderGoverns(s, cmp);
    SameMembers(a, s);
    SameMembers(b, s);
    StableAgree(a, s, o, cmp);
    StableAgree(b, s, o, cmp);
    forall x ensures Class(a, x, o.c) == Class(b, x, o.c) {
      assert Class(a, x, o.c) == Class(s, x, o.c);
    }
    StablySortedUnique(a, b, o.c);
  }

  /** A total preorder is one on every list, and the two notions of a stable sort are the same. */
  lemma TotalOnMembers<T(!new)>(out: seq<T>, s: seq<T>, cmp: Cmp<T>)
    requires TotalPreorder(cmp)
    ensures PreorderOn(s, cmp) && (StableSortOf(out, s, cmp) <==> StablySorted(out, s, cmp))
  {
    forall x, y, z | x in s && y in s && z in s && cmp(x, y) <= 0 && cmp(y, z) <= 0 ensures cmp(x, z) <= 0 {
      Trans(x, y, z, cmp);
    }
    if StablySorted(out, s, cmp) {
      SameClassesPermute(out, s, cmp);
    }
    if StableSortOf(out, s, cmp) {
      ClassesFromMembers(out, s, cmp);
    }
  }
}
