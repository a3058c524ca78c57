/** What the check of is_sorted (src/abs_sort.c) says about a list: neighbours in order mean sorted, in
    every arrangement of the list, exactly when the comparator is a preorder on its members. */
module Neighbours {
  import opened SortSpec

  ghost predicate NeighboursInOrder<T>(s: seq<T>, cmp: Cmp<T>) {
    forall j :: 1 <= j < |s| ==> cmp(s[j - 1], s[j]) <= 0
  }

  /** Exchanging the arguments exchanges the answers "greater" and "less". */
  ghost predicate Flips<T(!new)>(s: seq<T>, cmp: Cmp<T>) {
    forall x, y :: x in s && y in s ==> (cmp(x, y) > 0 <==> cmp(y, x) < 0)
  }

  lemma {:induction false} Reach<T(!new)>(s: seq<T>, i: nat, j: nat, cmp: Cmp<T>)
    requires PreorderOn(s, cmp) && NeighboursInOrder(s, cmp) && i < j < |s|
    ensures cmp(s[i], s[j]) <= 0
  {
    if j == i + 1 {
    } else {
      Reach(s, i, j - 1, cmp);
      assert s[i] in s && s[j - 1] in s && s[j] in s;
      assert cmp(s[j - 1], s[j]) <= 0;
    }
  }

  lemma NeighboursSorted<T(!new)>(s: seq<T>, cmp: Cmp<T>)
    requires PreorderOn(s, cmp)
    ensures NeighboursInOrder(s, cmp) <==> Sorted(s, cmp)
  {
    if NeighboursInOrder(s, cmp) {
      forall i, j | 0 <= i < j < |s| ensures cmp(s[i], s[j]) <= 0 { Reach(s, i, j, cmp); }
    }
  }

  lemma SameMembersPreorder<T(!new)>(s: seq<T>, t: seq<T>, cmp: Cmp<T>)
    requires multiset(s) == multiset(t)
    ensures PreorderOn(s, cmp) <==> PreorderOn(t, cmp)
    ensures Flips(s, cmp) <==> Flips(t, cmp)
  {
    SameMembers(s, t);
  }

  // ---------------------------------------------------------------- hiding an inversion

  function Insert<T>(t: seq<T>, p: nat, w: T): seq<T>
    requires p <= |t|
  {
    t[..p] + [w] + t[p..]
  }

  /** Every element fits between some two neighbours. */
  lemma {:induction false} Fits<T(!new)>(t: seq<T>, w: T, p: nat, cmp: Cmp<T>) returns (q: nat)
    requires Flips(t + [w], cmp) && NeighboursInOrder(t, cmp)
    requires p <= |t| && (p > 0 ==> cmp(t[p - 1], w) <= 0)
    ensures q <= |t| && NeighboursInOrder(Insert(t, q, w), cmp)
    decreases |t| - p
  {
    if p == |t| || cmp(w, t[p]) <= 0 {
      q := p;
      var u := Insert(t, p, w);
      forall j | 1 <= j < |u| ensures cmp(u[j - 1], u[j]) <= 0 {
        if j > p + 1 { assert u[j - 1] == t[j - 2] && u[j] == t[j - 1]; }
      }
    } else {
      assert w == (t + [w])[|t|] && t[p] == (t + [w])[p];
      q := Fits(t, w, p + 1, cmp);
    }
  }

  lemma InsertKeepsInversion<T>(t: seq<T>, p: nat, w: T, cmp: Cmp<T>)
    requires p <= |t| && !Sorted(t, cmp)
    ensures !Sorted(Insert(t, p, w), cmp)
  {
    var i, j :| 0 <= i < j < |t| && cmp(t[i], t[j]) > 0;
    var u := Insert(t, p, w);
    assert u[if i < p then i else i + 1] == t[i] && u[if j < p then j else j + 1] == t[j];
  }

  /** All of rest can be inserted. */
  lemma {:induction false} Weave<T(!new)>(t: seq<T>, rest: seq<T>, cmp: Cmp<T>) returns (u: seq<T>)
    requires Flips(t + rest, cmp) && NeighboursInOrder(t, cmp) && !Sorted(t, cmp)
    ensures multiset(u) == multiset(t + rest) && NeighboursInOrder(u, cmp) && !Sorted(u, cmp)
    decreases |rest|
  {
    if rest == [] {
      u := t;
      assert t + rest == t;
    } else {
      var w := rest[0];
      FlipsPart(t, rest, cmp);
      var q := Fits(t, w, 0, cmp);
      var v := Insert(t, q, w);
      InsertKeepsInversion(t, q, w, cmp);
      WovenMembers(t, q, rest);
      SameMembersPreorder(t + rest, v + rest[1..], cmp);
      u := Weave(v, rest[1..], cmp);
    }
  }

  lemma FlipsPart<T(!new)>(t: seq<T>, rest: seq<T>, cmp: Cmp<T>)
    requires Flips(t + rest, cmp) && rest != []
    ensures Flips(t + [rest[0]], cmp)
  {
    assert forall x :: x in t + [rest[0]] ==> x in t + rest;
  }

  lemma WovenMembers<T>(t: seq<T>, q: nat, rest: seq<T>)
    requires q <= |t| && rest != []
    ensures multiset(Insert(t, q, rest[0]) + rest[1..]) == multiset(t + rest)
  {
    assert t == t[..q] + t[q..] && rest == [rest[0]] + rest[1..];
  }

  /** The elements of s besides three different members. */
  lemma Others<T>(s: seq<T>, x: T, y: T, z: T) returns (rest: seq<T>)
    requires x in s && y in s && z in s && x != y && y != z && x != z
    ensures multiset([x, y, z] + rest) == multiset(s)
  {
    var a := Without(s, x);
    var b := Without(a, y);
    rest := Without(b, z);
    Prepend(y, [z] + rest, b, a);
    Prepend(x, [y] + ([z] + rest), a, s);
    assert [x, y, z] + rest == [x] + ([y] + ([z] + rest));
  }

  lemma Prepend<T>(x: T, t: seq<T>, u: seq<T>, s: seq<T>)
    requires multiset(t) == multiset(u) && multiset([x] + u) == multiset(s)
    ensures multiset([x] + t) == multiset(s)
  {}

  lemma Without<T>(s: seq<T>, x: T) returns (t: seq<T>)
    requires x in s
    ensures multiset([x] + t) == multiset(s) && forall y :: y in s && y != x ==> y in t
  {
    var k :| 0 <= k < |s| && s[k] == x;
    t := s[..k] + s[k + 1..];
    assert s == s[..k] + [x] + s[k + 1..];
  }

  /** Without a preorder the check of neighbours can be deceived: some arrangement has all neighbours
      in order and is not sorted. */
  lemma HiddenInversion<T(!new)>(s: seq<T>, cmp: Cmp<T>) returns (t: seq<T>)
    requires Flips(s, cmp) && !PreorderOn(s, cmp)
    ensures multiset(t) == multiset(s) && NeighboursInOrder(t, cmp) && !Sorted(t, cmp)
  {
    var x, y, z :| x in s && y in s && z in s && cmp(x, y) <= 0 && cmp(y, z) <= 0 && cmp(x, z) > 0;
    assert x != z by { assert cmp(x, x) > 0 <==> cmp(x, x) < 0; }
    var rest := Others(s, x, y, z);
    SameMembersPreorder([x, y, z] + rest, s, cmp);
    assert cmp([x, y, z][0], [x, y, z][2]) > 0;
    t := Weave([x, y, z], rest, cmp);
  }

  ghost predicate NeighboursDecide<T(!new)>(s: seq<T>, cmp: Cmp<T>) {
    forall t :: multiset(t) == multiset(s) ==> (NeighboursInOrder(t, cmp) <==> Sorted(t, cmp))
  }

  /** The check of neighbours is right on every arrangement of a list exactly when the comparator is
      a preorder on its members. */
  lemma NeighboursExactly<T(!new)>(s: seq<T>, cmp: Cmp<T>)
    requires Flips(s, cmp)
    ensures NeighboursDecide(s, cmp) <==> PreorderOn(s, cmp)
  {
    if PreorderOn(s, cmp) {
      forall t | multiset(t) == multiset(s) ensures NeighboursInOrder(t, cmp) <==> Sorted(t, cmp) {
        SameMembersPreorder(s, t, cmp);
        NeighboursSorted(t, cmp);
      }
    } else {
      var t := HiddenInversion(s, cmp);
    }
  }
}
