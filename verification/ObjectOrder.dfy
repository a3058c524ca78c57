/** compare_objs (src/abs.c) as the comparator of the sorts: on which lists it is a total preorder. */
module ObjectOrder {
  import opened SortSpec
  import opened Neighbours

  /** A double as comparisons see it: a finite value, an infinity, or no number. */
  datatype Double = NegInf | Finite(r: real) | PosInf | NaN

  /** What compare_objs looks at. OtherV stands for None, a null pointer and every other type. */
  datatype Val = IntV(i: int) | FloatV(f: Double) | StrV(s: string) | OtherV

  /** An object reference: two objects with equal values are still different objects. */
  datatype Ref = Ref(id: nat, val: Val)

  /** strcmp on strings without NUL. */
  function Strcmp(s: string, t: string): (r: int)
    ensures r == 0 <==> s == t
  {
    if s == [] || t == [] then |s| - |t|
    else if s[0] != t[0] then s[0] as int - t[0] as int
    else assert s == [s[0]] + s[1..] && t == [t[0]] + t[1..]; Strcmp(s[1..], t[1..])
  }

  /** s comes before t in the order of a dictionary: where they part, at place k, s ends or has the
      smaller character. */
  ghost predicate PartAt(s: string, t: string, k: nat) {
    && k <= |s| && k <= |t| && s[..k] == t[..k]
    && (k == |s| < |t| || (k < |s| && k < |t| && s[k] < t[k]))
  }

  ghost predicate Precedes(s: string, t: string) {
    exists k: nat :: PartAt(s, t, k)
  }

  lemma PartRest(s: string, t: string, k: nat)
    requires s != [] && t != [] && s[0] == t[0]
    ensures !PartAt(s, t, 0)
    ensures PartAt(s, t, k + 1) <==> PartAt(s[1..], t[1..], k)
  {
    if k + 1 <= |s| && k + 1 <= |t| {
      assert s[..k + 1] == [s[0]] + s[1..][..k] && t[..k + 1] == [t[0]] + t[1..][..k];
      assert s[1..][..k] == s[..k + 1][1..] && t[1..][..k] == t[..k + 1][1..];
    }
  }

  lemma SameHead(s: string, t: string, k: nat)
    requires 0 < k <= |s| && k <= |t| && s[..k] == t[..k]
    ensures s[0] == t[0]
  {
    assert s[..k][0] == s[0] && t[..k][0] == t[0];
  }

  lemma PrecedesRest(s: string, t: string)
    requires s != [] && t != [] && s[0] == t[0]
    ensures Precedes(s, t) <==> Precedes(s[1..], t[1..])
  {
    if k: nat :| PartAt(s, t, k) {
      PartRest(s, t, 0);
      PartRest(s, t, k - 1);
    }
    if k: nat :| PartAt(s[1..], t[1..], k) {
      PartRest(s, t, k);
    }
  }

  /** strcmp is negative exactly when its first argument comes first in the dictionary. */
  lemma {:induction false} StrcmpExactly(s: string, t: string)
    ensures Strcmp(s, t) < 0 <==> Precedes(s, t)
  {
    if s == [] || t == [] || s[0] != t[0] {
      if k: nat :| PartAt(s, t, k) {
        if k > 0 { SameHead(s, t, k); }
      }
      if Strcmp(s, t) < 0 { assert PartAt(s, t, 0); }
    } else {
      StrcmpExactly(s[1..], t[1..]);
      PrecedesRest(s, t);
    }
  }

  lemma {:induction false} StrcmpFlip(s: string, t: string)
    ensures Strcmp(s, t) > 0 <==> Strcmp(t, s) < 0
  {
    if s == [] || t == [] || s[0] != t[0] {
    } else {
      StrcmpFlip(s[1..], t[1..]);
    }
  }

  lemma {:induction false} StrcmpTrans(s: string, t: string, u: string)
    requires Strcmp(s, t) <= 0 && Strcmp(t, u) <= 0
    ensures Strcmp(s, u) <= 0
  {
    if s == [] || t == [] || u == [] || !(s[0] == t[0] == u[0]) {
    } else {
      StrcmpTrans(s[1..], t[1..], u[1..]);
    }
  }

  /** The operator < on doubles. */
  predicate Less(x: Double, y: Double) {
    match (x, y)
    case (NaN, _) => false
    case (_, NaN) => false
    case (Finite(r), Finite(q)) => r < q
    case (NegInf, _) => y != NegInf
    case (_, PosInf) => x != PosInf
    case (_, _) => false
  }

  predicate IsNum(v: Val) {
    v.IntV? || v.FloatV?
  }

  predicate IsNaN(v: Val) {
    v.FloatV? && v.f == NaN
  }

  /** The value of a number as a double. Conversion of an integer may round, so it is a parameter. */
  function NumVal(v: Val, toDouble: int -> real): Double
    requires IsNum(v)
  {
    if v.IntV? then Finite(toDouble(v.i)) else v.f
  }

  function CompareDoubles(x: Double, y: Double): int {
    if Less(x, y) then -1 else if Less(y, x) then 1 else 0
  }

  function CompareVals(a: Val, b: Val, toDouble: int -> real): int {
    if a.IntV? && b.IntV? then (if a.i < b.i then -1 else if a.i > b.i then 1 else 0)
    else if IsNum(a) && IsNum(b) then CompareDoubles(NumVal(a, toDouble), NumVal(b, toDouble))
    else if a.StrV? && b.StrV? then (var c := Strcmp(a.s, b.s); if c < 0 then -1 else if c > 0 then 1 else 0)
    else 0
  }

  function CompareObjs(toDouble: int -> real): Cmp<Ref> {
    (a: Ref, b: Ref) => CompareVals(a.val, b.val, toDouble)
  }

  /** Rounding never reverses an order. */
  ghost predicate Monotone(toDouble: int -> real) {
    forall x, y :: x <= y ==> toDouble(x) <= toDouble(y)
  }

  /** z compares equal to both of the unequal x and y: it is of another kind, it is no number, or it
      is the double that two different integers round to. */
  ghost predicate Confuses(x: Val, y: Val, z: Val, toDouble: int -> real) {
    && CompareVals(x, y, toDouble) < 0
    && (IsNum(z) != IsNum(x) || z.StrV? != x.StrV? || IsNaN(z)
        || (x.IntV? && y.IntV? && z.FloatV? && Finite(toDouble(x.i)) == z.f == Finite(toDouble(y.i))))
  }

  ghost predicate Confused(s: seq<Ref>, toDouble: int -> real) {
    exists x, y, z :: x in s && y in s && z in s && Confuses(x.val, y.val, z.val, toDouble)
  }

  /** x lies before y on the line of the reals, closed at both ends by the infinities. */
  ghost predicate OnTheLine(x: Double, y: Double) {
    && x != NaN && y != NaN && x != PosInf && y != NegInf
    && (x.Finite? && y.Finite? ==> x.r < y.r)
  }

  /** What compare_objs is to decide: integers by size, numbers of which one is a float by their
      places on the line, strings by the dictionary; nothing else comes before anything. */
  ghost predicate Before(x: Val, y: Val, toDouble: int -> real) {
    || (x.IntV? && y.IntV? && x.i < y.i)
    || (x.StrV? && y.StrV? && Precedes(x.s, y.s))
    || (x.FloatV? && y.FloatV? && OnTheLine(x.f, y.f))
    || (x.FloatV? && y.IntV? && OnTheLine(x.f, Finite(toDouble(y.i))))
    || (x.IntV? && y.FloatV? && OnTheLine(Finite(toDouble(x.i)), y.f))
  }

  lemma CompareExactly(x: Val, y: Val, toDouble: int -> real)
    ensures CompareVals(x, y, toDouble) == -1 <==> Before(x, y, toDouble)
    ensures CompareVals(x, y, toDouble) == 1 <==> Before(y, x, toDouble)
    ensures CompareVals(x, y, toDouble) == 0 <==> !Before(x, y, toDouble) && !Before(y, x, toDouble)
  {
    if x.StrV? && y.StrV? {
      StrcmpExactly(x.s, y.s);
      StrcmpExactly(y.s, x.s);
      StrcmpFlip(x.s, y.s);
    }
  }

  /** So a list is sorted under compare_objs exactly when no member has a later one before it. */
  lemma SortedObjectsExactly(s: seq<Ref>, toDouble: int -> real)
    ensures Sorted(s, CompareObjs(toDouble))
            <==> forall i, j :: 0 <= i < j < |s| ==> !Before(s[j].val, s[i].val, toDouble)
  {
    forall i, j | 0 <= i < j < |s|
      ensures CompareObjs(toDouble)(s[i], s[j]) <= 0 <==> !Before(s[j].val, s[i].val, toDouble)
    {
      CompareExactly(s[i].val, s[j].val, toDouble);
    }
  }

  ghost predicate Alphabetical(s: seq<Ref>) {
    forall i, j :: 0 <= i < j < |s| && s[i].val.StrV? && s[j].val.StrV? ==> !Precedes(s[j].val.s, s[i].val.s)
  }

  /** A stable sort of any list puts its strings, wherever the list is ordered, into dictionary order,
      its integers into that of size and its floats into that of the line. */
  lemma SortedKinds(s: seq<Ref>, toDouble: int -> real, i: nat, j: nat)
    requires Sorted(s, CompareObjs(toDouble)) && i < j < |s|
    ensures Alphabetical(s)
    ensures s[i].val.IntV? && s[j].val.IntV? ==> s[i].val.i <= s[j].val.i
    ensures s[i].val.FloatV? && s[j].val.FloatV? && s[i].val.f.Finite? && s[j].val.f.Finite?
            ==> s[i].val.f.r <= s[j].val.f.r
    ensures s[i].val == FloatV(PosInf) && s[j].val.FloatV? ==> s[j].val.f == PosInf || s[j].val.f == NaN
    ensures s[j].val == FloatV(NegInf) && s[i].val.FloatV? ==> s[i].val.f == NegInf || s[i].val.f == NaN
  {
    SortedObjectsExactly(s, toDouble);
  }

  lemma CompareFlip(x: Val, y: Val, toDouble: int -> real)
    ensures CompareVals(x, y, toDouble) > 0 <==> CompareVals(y, x, toDouble) < 0
  {
    if x.StrV? && y.StrV? { StrcmpFlip(x.s, y.s); }
  }

  /** Where transitivity fails, one of the three confuses the other two. */
  lemma TransOrConfused(x: Val, y: Val, z: Val, toDouble: int -> real)
    requires Monotone(toDouble)
    requires CompareVals(x, y, toDouble) <= 0 && CompareVals(y, z, toDouble) <= 0
    ensures CompareVals(x, z, toDouble) <= 0
            || Confuses(z, x, y, toDouble) || Confuses(z, y, x, toDouble) || Confuses(y, x, z, toDouble)
            || Confuses(x, y, z, toDouble) || Confuses(y, z, x, toDouble)
  {
    CompareFlip(x, z, toDouble);
    if x.StrV? && y.StrV? && z.StrV? { StrcmpTrans(x.s, y.s, z.s); }
    if x.IntV? && z.IntV? && x.i > z.i { assert toDouble(z.i) <= toDouble(x.i); }
    if x.IntV? && y.IntV? && x.i <= y.i { assert toDouble(x.i) <= toDouble(y.i); }
    if y.IntV? && z.IntV? && y.i <= z.i { assert toDouble(y.i) <= toDouble(z.i); }
  }

  /** compare_objs is a total preorder on a list exactly when nothing in the list confuses two
      unequal members: no member of another kind, no NaN between unequal numbers, no two integers
      that round to a member. */
  lemma PreorderExactly(s: seq<Ref>, toDouble: int -> real)
    requires Monotone(toDouble)
    ensures PreorderOn(s, CompareObjs(toDouble)) <==> !Confused(s, toDouble)
  {
    if Confused(s, toDouble) {
      ConfusedNoPreorder(s, toDouble);
    } else {
      ClearPreorder(s, toDouble);
    }
  }

  lemma ObjectsFlip(s: seq<Ref>, toDouble: int -> real)
    ensures Flips(s, CompareObjs(toDouble))
  {
    forall x, y | x in s && y in s
      ensures CompareVals(x.val, y.val, toDouble) > 0 <==> CompareVals(y.val, x.val, toDouble) < 0
    {
      CompareFlip(x.val, y.val, toDouble);
    }
  }

  /** So the check of is_sorted is right on every arrangement of a list exactly when nothing in it
      confuses two unequal members. */
  lemma CheckExactly(s: seq<Ref>, toDouble: int -> real)
    requires Monotone(toDouble)
    ensures NeighboursDecide(s, CompareObjs(toDouble)) <==> !Confused(s, toDouble)
  {
    ObjectsFlip(s, toDouble);
    PreorderExactly(s, toDouble);
    NeighboursExactly(s, CompareObjs(toDouble));
  }

  lemma ConfusedNoPreorder(s: seq<Ref>, toDouble: int -> real)
    requires Confused(s, toDouble)
    ensures !PreorderOn(s, CompareObjs(toDouble))
  {}

  lemma ClearPreorder(s: seq<Ref>, toDouble: int -> real)
    requires Monotone(toDouble) && !Confused(s, toDouble)
    ensures PreorderOn(s, CompareObjs(toDouble))
  {
    forall x, y, z | x in s && y in s && z in s
      && CompareVals(x.val, y.val, toDouble) <= 0 && CompareVals(y.val, z.val, toDouble) <= 0
      ensures CompareVals(x.val, z.val, toDouble) <= 0
    {
      TransOrConfused(x.val, y.val, z.val, toDouble);
    }
    ObjectsFlip(s, toDouble);
  }

  /** Below this bound every integer is a double. */
  const ExactBound: int := 0x20_0000_0000_0000

  ghost predicate Exact(toDouble: int -> real) {
    forall i :: -ExactBound <= i <= ExactBound ==> toDouble(i) == i as real
  }

  /** Numbers that can be mixed: integers a double represents, and floats that are numbers. */
  predicate PlainNumber(v: Val) {
    (v.IntV? && -ExactBound <= v.i <= ExactBound) || (v.FloatV? && !IsNaN(v))
  }

  /** compare_objs is a total preorder on every list of integers, of strings, of floats other than
      NaN, and of such floats mixed with integers up to 2^53. */
  lemma OrderedLists(s: seq<Ref>, toDouble: int -> real)
    requires Monotone(toDouble) && Exact(toDouble)
    requires (forall x :: x in s ==> x.val.IntV?) || (forall x :: x in s ==> x.val.StrV?)
             || (forall x :: x in s ==> x.val.FloatV? && !IsNaN(x.val)) || (forall x :: x in s ==> PlainNumber(x.val))
    ensures PreorderOn(s, CompareObjs(toDouble))
  {
    ClearPreorder(s, toDouble);
  }

  /** An element that confuses its neighbours hides their inversion. */
  lemma HiddenBetween(x: Ref, y: Ref, z: Ref, toDouble: int -> real)
    requires Confuses(z.val, x.val, y.val, toDouble)
    ensures var s, cmp := [x, y, z], CompareObjs(toDouble);
            NeighboursInOrder(s, cmp) && !Sorted(s, cmp) && Confused(s, toDouble)
  {
    var s, cmp := [x, y, z], CompareObjs(toDouble);
    CompareFlip(x.val, z.val, toDouble);
    assert cmp(s[0], s[2]) > 0;
    assert s[0] in s && s[1] in s && s[2] in s;
  }

  /** A NaN hides an inversion: 2.0, NaN, 1.0 passes the check of is_sorted. */
  lemma NaNLooksSorted(toDouble: int -> real)
    ensures var s, cmp := [Ref(0, FloatV(Finite(2.0))), Ref(1, FloatV(NaN)), Ref(2, FloatV(Finite(1.0)))],
                          CompareObjs(toDouble);
            && NeighboursInOrder(s, cmp) && !Sorted(s, cmp) && Confused(s, toDouble)
  {
    HiddenBetween(Ref(0, FloatV(Finite(2.0))), Ref(1, FloatV(NaN)), Ref(2, FloatV(Finite(1.0))), toDouble);
  }

  /** A mixed list can pass the neighbour-by-neighbour check of is_sorted and still have a larger
      element before a smaller one: 2, "a", 1. */
  lemma MixedListLooksSorted(toDouble: int -> real)
    ensures var s, cmp := [Ref(0, IntV(2)), Ref(1, StrV("a")), Ref(2, IntV(1))], CompareObjs(toDouble);
            && NeighboursInOrder(s, cmp) && !Sorted(s, cmp) && Confused(s, toDouble)
  {
    HiddenBetween(Ref(0, IntV(2)), Ref(1, StrV("a")), Ref(2, IntV(1)), toDouble);
  }
}
