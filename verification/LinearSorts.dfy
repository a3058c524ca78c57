/** Counting sort (src/abs_sort.c) over elements with an integer key, and the passes of radix sort,
    which count and distribute in the same way. Keys and counters are unbounded integers here. */
module LinearSorts {
  import opened SortSpec

  function Sign(x: int, y: int): int {
    if x < y then -1 else if x > y then 1 else 0
  }

  /** Comparison of integer objects by their values. */
  function KeyCmp<T>(key: T -> int): Cmp<T> {
    (x, y) => Sign(key(x), key(y))
  }

  lemma KeyCmpPreorder<T(!new)>(key: T -> int)
    ensures TotalPreorder(KeyCmp(key))
  {}

  /** The elements of s with key v, in order. */
  ghost function Bucket<T>(s: seq<T>, key: T -> int, v: int): (r: seq<T>)
    ensures |r| <= |s|
  {
    if s == [] then []
    else Bucket(s[..|s| - 1], key, v) + (if key(s[|s| - 1]) == v then [s[|s| - 1]] else [])
  }

  lemma {:induction false} BucketAppend<T>(s: seq<T>, t: seq<T>, key: T -> int, v: int)
    ensures Bucket(s + t, key, v) == Bucket(s, key, v) + Bucket(t, key, v)
  {
    if t == [] {
      assert s + t == s;
    } else {
      assert (s + t)[..|s + t| - 1] == s + t[..|t| - 1];
      BucketAppend(s, t[..|t| - 1], key, v);
    }
  }

  lemma {:induction false} BucketIsClass<T>(s: seq<T>, key: T -> int, x: T)
    ensures Bucket(s, key, key(x)) == Class(s, x, KeyCmp(key))
  {
    if s == [] {
    } else {
      BucketIsClass(s[..|s| - 1], key, x);
      ClassSnoc(s[..|s| - 1], s[|s| - 1], x, KeyCmp(key));
      assert s[..|s| - 1] + [s[|s| - 1]] == s;
    }
  }

  lemma {:induction false} BucketMembers<T>(s: seq<T>, key: T -> int, v: int)
    ensures forall i :: 0 <= i < |Bucket(s, key, v)| ==> key(Bucket(s, key, v)[i]) == v && Bucket(s, key, v)[i] in s
  {
    if s == [] {
    } else {
      BucketMembers(s[..|s| - 1], key, v);
    }
  }

  lemma {:induction false} BucketNone<T>(s: seq<T>, key: T -> int, v: int)
    requires forall i :: 0 <= i < |s| ==> key(s[i]) != v
    ensures Bucket(s, key, v) == []
  {
    if s == [] {
    } else {
      BucketNone(s[..|s| - 1], key, v);
    }
  }

  lemma {:induction false} BucketAll<T>(s: seq<T>, key: T -> int, v: int)
    requires forall i :: 0 <= i < |s| ==> key(s[i]) == v
    ensures Bucket(s, key, v) == s
  {
    if s == [] {
    } else {
      BucketAll(s[..|s| - 1], key, v);
      assert s == s[..|s| - 1] + [s[|s| - 1]];
    }
  }

  /** A bucket of a bucket. */
  lemma BucketTwice<T>(s: seq<T>, key: T -> int, u: int, v: int)
    ensures Bucket(Bucket(s, key, u), key, v) == if u == v then Bucket(s, key, v) else []
  {
    BucketMembers(s, key, u);
    if u == v { BucketAll(Bucket(s, key, u), key, v); } else { BucketNone(Bucket(s, key, u), key, v); }
  }

  /** The buckets 0 .. n - 1 of s, one after the other. */
  ghost function Gather<T>(s: seq<T>, key: T -> int, n: nat): seq<T> {
    if n == 0 then [] else Gather(s, key, n - 1) + Bucket(s, key, n - 1)
  }

  ghost predicate KeysWithin<T>(s: seq<T>, key: T -> int, n: nat) {
    forall i :: 0 <= i < |s| ==> 0 <= key(s[i]) < n
  }

  lemma {:induction false} BucketOfGather<T>(s: seq<T>, key: T -> int, n: nat, v: int)
    ensures Bucket(Gather(s, key, n), key, v) == if 0 <= v < n then Bucket(s, key, v) else []
  {
    if n > 0 {
      BucketOfGather(s, key, n - 1, v);
      BucketOfSum(Gather(s, key, n - 1), s, key, n - 1, v);
    } else {
      assert Gather(s, key, n) == [];
    }
  }

  lemma BucketOfSum<T>(g: seq<T>, s: seq<T>, key: T -> int, u: int, v: int)
    ensures Bucket(g + Bucket(s, key, u), key, v) == Bucket(g, key, v) + (if u == v then Bucket(s, key, v) else [])
  {
    BucketAppend(g, Bucket(s, key, u), key, v);
    BucketTwice(s, key, u, v);
  }

  lemma {:induction false} GatherSorted<T>(s: seq<T>, key: T -> int, n: nat)
    ensures Sorted(Gather(s, key, n), KeyCmp(key)) && KeysWithin(Gather(s, key, n), key, n)
  {
    if n == 0 {
    } else {
      GatherSorted(s, key, n - 1);
      BucketMembers(s, key, n - 1);
      SortedThen(Gather(s, key, n - 1), Bucket(s, key, n - 1), key, n - 1);
    }
  }

  /** Elements with key n behind sorted ones with smaller keys. */
  lemma SortedThen<T>(g: seq<T>, b: seq<T>, key: T -> int, n: nat)
    requires Sorted(g, KeyCmp(key)) && KeysWithin(g, key, n) && forall i :: 0 <= i < |b| ==> key(b[i]) == n
    ensures Sorted(g + b, KeyCmp(key)) && KeysWithin(g + b, key, n + 1)
  {
    forall i, j | 0 <= i < j < |g + b| ensures KeyCmp(key)((g + b)[i], (g + b)[j]) <= 0 {
      if j < |g| { assert KeyCmp(key)(g[i], g[j]) <= 0; }
    }
  }

  /** Gathering the buckets of all keys gives the stable sort. */
  lemma GatherIsStableSort<T(!new)>(s: seq<T>, key: T -> int, n: nat)
    requires KeysWithin(s, key, n)
    ensures StablySorted(Gather(s, key, n), s, KeyCmp(key))
  {
    GatherSorted(s, key, n);
    forall x ensures Class(Gather(s, key, n), x, KeyCmp(key)) == Class(s, x, KeyCmp(key)) {
      BucketOfGather(s, key, n, key(x));
      BucketIsClass(Gather(s, key, n), key, x);
      BucketIsClass(s, key, x);
      if !(0 <= key(x) < n) { BucketNone(s, key, key(x)); }
    }
  }

  lemma GatherLength<T(!new)>(s: seq<T>, key: T -> int, n: nat)
    requires KeysWithin(s, key, n)
    ensures |Gather(s, key, n)| == |s|
  {
    GatherIsStableSort(s, key, n);
    KeyCmpPreorder(key);
    SameClassesPermute(Gather(s, key, n), s, KeyCmp(key));
    assert |multiset(Gather(s, key, n))| == |multiset(s)|;
  }

  lemma {:induction false} GatherGrows<T>(s: seq<T>, key: T -> int, v: nat, n: nat)
    requires v <= n
    ensures |Gather(s, key, v)| <= |Gather(s, key, n)|
  {
    if v == n {
    } else {
      GatherGrows(s, key, v, n - 1);
    }
  }

  // ---------------------------------------------------------------- the three counting loops

  /** The final place of the last element of bucket v among the first i elements, plus one. */
  ghost function Place<T>(s: seq<T>, key: T -> int, v: nat, i: nat): nat
    requires i <= |s|
  {
    |Gather(s, key, v)| + |Bucket(s[..i], key, v)|
  }

  lemma PlaceStep<T>(s: seq<T>, key: T -> int, v: int, i: nat)
    requires i < |s|
    ensures Bucket(s[..i + 1], key, v) == Bucket(s[..i], key, v) + (if key(s[i]) == v then [s[i]] else [])
  {
    assert s[..i + 1][..i] == s[..i];
  }

  /** Counts how many elements have each key. */
  method CountKeys<T>(a: array<T>, key: T -> int, count: array<int>)
    requires a as object != count && KeysWithin(a[..], key, count.Length)
    requires forall v :: 0 <= v < count.Length ==> count[v] == 0
    modifies count
    ensures forall v :: 0 <= v < count.Length ==> count[v] == |Bucket(a[..], key, v)|
  {
    for i := 0 to a.Length
      invariant forall v :: 0 <= v < count.Length ==> count[v] == |Bucket(a[..][..i], key, v)|
    {
      assert a[i] == a[..][i] && 0 <= key(a[..][i]) < count.Length;
      forall v | 0 <= v < count.Length
        ensures |Bucket(a[..][..i + 1], key, v)|
                == |Bucket(a[..][..i], key, v)| + (if key(a[i]) == v then 1 else 0)
      {
        PlaceStep(a[..], key, v, i);
      }
      count[key(a[i])] := count[key(a[i])] + 1;
    }
    assert a[..][..a.Length] == a[..];
  }

  /** Turns the counts into the ends of the buckets. */
  method PrefixSums<T>(ghost s: seq<T>, ghost key: T -> int, count: array<int>)
    requires count.Length >= 1
    requires forall v :: 0 <= v < count.Length ==> count[v] == |Bucket(s, key, v)|
    modifies count
    ensures forall v :: 0 <= v < count.Length ==> count[v] == |Gather(s, key, v + 1)|
  {
    assert Gather(s, key, 0) == [];
    for i := 1 to count.Length
      invariant Summed(count[..], s, key, i)
    {
      SummedStep(count[..], s, key, i);
      count[i] := count[i] + count[i - 1];
    }
  }

  /** The first i counts are the ends of their buckets, the others still the sizes. */
  ghost predicate Summed<T>(c: seq<int>, s: seq<T>, key: T -> int, i: nat) {
    && i <= |c| && (forall v :: 0 <= v < i ==> c[v] == |Gather(s, key, v + 1)|)
    && forall v :: i <= v < |c| ==> c[v] == |Bucket(s, key, v)|
  }

  lemma SummedStep<T>(c: seq<int>, s: seq<T>, key: T -> int, i: nat)
    requires 1 <= i < |c| && Summed(c, s, key, i)
    ensures Summed(c[i := c[i] + c[i - 1]], s, key, i + 1)
  {
    assert Gather(s, key, i + 1) == Gather(s, key, i) + Bucket(s, key, i);
  }

  /** The part of bucket v that is in place when the elements from i on have been distributed. */
  ghost predicate Placed<T>(out: seq<T>, s: seq<T>, key: T -> int, v: nat, i: nat)
    requires i <= |s|
  {
    var hi := |Gather(s, key, v + 1)|;
    Place(s, key, v, i) <= hi <= |out| && out[Place(s, key, v, i)..hi] == Bucket(s[i..], key, v)
  }

  lemma PlacedStart<T(!new)>(out: seq<T>, s: seq<T>, key: T -> int, n: nat, v: nat)
    requires KeysWithin(s, key, n) && v < n && |out| == |s|
    ensures Placed(out, s, key, v, |s|)
  {
    GatherLength(s, key, n);
    GatherGrows(s, key, v + 1, n);
    assert s[..|s|] == s;
  }

  lemma PlaceRange<T(!new)>(s: seq<T>, key: T -> int, n: nat, v: nat, i: nat)
    requires KeysWithin(s, key, n) && v < n && i <= |s|
    ensures |Gather(s, key, v)| <= Place(s, key, v, i) <= |Gather(s, key, v + 1)| <= |s|
  {
    var g, p, h := Gather(s, key, v), Place(s, key, v, i), Gather(s, key, v + 1);
    var all := Gather(s, key, n);
    GatherLength(s, key, n);
    GatherGrows(s, key, v + 1, n);
    PlaceWithin(s, key, v, i);
    assert |g| <= p <= |h| <= |all| == |s|;
  }

  lemma PlaceWithin<T>(s: seq<T>, key: T -> int, v: nat, i: nat)
    requires i <= |s|
    ensures Place(s, key, v, i) <= |Gather(s, key, v + 1)|
  {
    BucketSplit(s, key, v, i);
    assert Gather(s, key, v + 1) == Gather(s, key, v) + Bucket(s, key, v);
  }

  /** The counter of a key that still has elements to place has not reached its bucket's start. */
  lemma PlacePositive<T>(s: seq<T>, key: T -> int, v: nat, i: nat)
    requires 0 < i <= |s| && key(s[i - 1]) == v
    ensures |Gather(s, key, v)| < Place(s, key, v, i)
  {}

  lemma TailStep<T>(s: seq<T>, key: T -> int, v: int, i: nat)
    requires 0 < i <= |s|
    ensures Bucket(s[i - 1..], key, v) == (if key(s[i - 1]) == v then [s[i - 1]] else []) + Bucket(s[i..], key, v)
  {
    assert s[i - 1..] == [s[i - 1]] + s[i..];
    BucketAppend([s[i - 1]], s[i..], key, v);
    assert [s[i - 1]][..0] == [];
  }

  /** The place for element i - 1 lies behind the buckets of smaller keys ... */
  lemma PlaceBehind<T>(s: seq<T>, key: T -> int, v: nat, w: nat, i: nat)
    requires v < w && 0 < i <= |s| && w == key(s[i - 1])
    ensures |Gather(s, key, v + 1)| < Place(s, key, w, i)
  {
    PlacePositive(s, key, w, i);
    GatherGrows(s, key, v + 1, w);
  }

  /** ... and before the free part of the buckets of larger keys. */
  lemma PlaceAhead<T>(s: seq<T>, key: T -> int, v: nat, w: nat, i: nat)
    requires w < v && i <= |s|
    ensures Place(s, key, w, i) <= Place(s, key, v, i)
  {
    PlaceWithin(s, key, w, i);
    GatherGrows(s, key, w + 1, v);
  }

  /** Distributing element i - 1 of bucket w: what happens to bucket v. */
  lemma PlacedStep<T(!new)>(out: seq<T>, s: seq<T>, key: T -> int, n: nat, i: nat, v: nat, w: nat)
    requires KeysWithin(s, key, n) && v < n && 0 < i <= |s| && |out| == |s|
    requires Placed(out, s, key, v, i) && w == key(s[i - 1])
    ensures 0 < Place(s, key, w, i) <= |out|
    ensures Placed(out[Place(s, key, w, i) - 1 := s[i - 1]], s, key, v, i - 1)
  {
    PlaceRange(s, key, n, w, i);
    PlacePositive(s, key, w, i);
    if v < w { PlaceBehind(s, key, v, w, i); } else if w < v { PlaceAhead(s, key, v, w, i); }
    PlaceBefore(s, key, v, i);
    TailStep(s, key, v, i);
    var p, lo, hi := Place(s, key, w, i) - 1, Place(s, key, v, i), |Gather(s, key, v + 1)|;
    PlacedWrite(out, p, s[i - 1], lo, hi, v == w, Bucket(s[i..], key, v));
  }

  lemma PlaceBefore<T>(s: seq<T>, key: T -> int, v: nat, i: nat)
    requires 0 < i <= |s|
    ensures Place(s, key, v, i) == Place(s, key, v, i - 1) + (if key(s[i - 1]) == v then 1 else 0)
  {
    PlaceStep(s, key, v, i - 1);
  }

  lemma PlacedWrite<T>(out: seq<T>, p: nat, x: T, lo: nat, hi: nat, hit: bool, b: seq<T>)
    requires p < |out| && lo <= hi <= |out| && (if hit then p == lo - 1 else p < lo || hi <= p)
    requires out[lo..hi] == b
    ensures if hit then out[p := x][lo - 1..hi] == [x] + b else out[p := x][lo..hi] == [] + b
  {}

  lemma BucketSplit<T>(s: seq<T>, key: T -> int, v: nat, i: nat)
    requires i <= |s|
    ensures |Bucket(s, key, v)| == |Bucket(s[..i], key, v)| + |Bucket(s[i..], key, v)|
  {
    assert s == s[..i] + s[i..];
    BucketAppend(s[..i], s[i..], key, v);
  }

  lemma {:induction false} AllPlaced<T>(out: seq<T>, s: seq<T>, key: T -> int, n: nat, g: seq<T>)
    requires g == Gather(s, key, n) && forall v :: 0 <= v < n ==> Placed(out, s, key, v, 0)
    ensures g <= out
  {
    if n == 0 {
    } else {
      var v := n - 1;
      var a, b := Gather(s, key, v), Bucket(s, key, v);
      AllPlaced(out, s, key, v, a);
      PlacedFromStart(out, s, key, v, a, b);
      Extended(out, a, b, g);
    }
  }

  lemma PlacedFromStart<T>(out: seq<T>, s: seq<T>, key: T -> int, v: nat, a: seq<T>, b: seq<T>)
    requires Placed(out, s, key, v, 0) && a == Gather(s, key, v) && b == Bucket(s, key, v)
    ensures |a| + |b| <= |out| && out[|a|..|a| + |b|] == b
  {
    assert s[..0] == [] && s[0..] == s;
    assert Bucket(s[..0], key, v) == [];
    assert |Gather(s, key, v + 1)| == |a| + |b|;
  }

  lemma Extended<T>(out: seq<T>, a: seq<T>, b: seq<T>, c: seq<T>)
    requires a <= out && |a| + |b| <= |out| && out[|a|..|a| + |b|] == b && c == a + b
    ensures c <= out
  {}

  /** What the distribution loop keeps when the elements from i on are in place. */
  ghost predicate Distributed<T>(counts: seq<int>, out: seq<T>, s: seq<T>, key: T -> int, i: nat)
    requires i <= |s|
  {
    forall v: nat {:trigger Placed(out, s, key, v, i)} :: v < |counts| ==>
      Placed(out, s, key, v, i) && counts[v] == Place(s, key, v, i)
  }

  lemma DistributedStart<T(!new)>(counts: seq<int>, out: seq<T>, s: seq<T>, key: T -> int)
    requires KeysWithin(s, key, |counts|) && |out| == |s|
    requires forall v :: 0 <= v < |counts| ==> counts[v] == |Gather(s, key, v + 1)|
    ensures Distributed(counts, out, s, key, |s|)
  {
    forall v: nat {:trigger Placed(out, s, key, v, |s|)} | v < |counts|
      ensures Placed(out, s, key, v, |s|) && counts[v] == Place(s, key, v, |s|) {
      PlacedStart(out, s, key, |counts|, v);
      assert s[..|s|] == s;
    }
  }

  lemma DistributedStep<T(!new)>(counts: seq<int>, out: seq<T>, s: seq<T>, key: T -> int, i: nat, w: int)
    requires KeysWithin(s, key, |counts|) && |out| == |s| && 0 < i <= |s|
    requires Distributed(counts, out, s, key, i) && w == key(s[i - 1])
    ensures 0 <= w < |counts| && 0 < counts[w] <= |out|
    ensures Distributed(counts[w := counts[w] - 1], out[counts[w] - 1 := s[i - 1]], s, key, i - 1)
  {
    assert Placed(out, s, key, w, i);
    PlaceRange(s, key, |counts|, w, i);
    PlacePositive(s, key, w, i);
    forall v: nat {:trigger Placed(out[counts[w] - 1 := s[i - 1]], s, key, v, i - 1)} | v < |counts|
      ensures Placed(out[counts[w] - 1 := s[i - 1]], s, key, v, i - 1)
      ensures counts[w := counts[w] - 1][v] == Place(s, key, v, i - 1)
    {
      DistributedAt(counts, out, s, key, i, w, v);
    }
  }

  lemma DistributedAt<T(!new)>(counts: seq<int>, out: seq<T>, s: seq<T>, key: T -> int, i: nat, w: int, v: nat)
    requires KeysWithin(s, key, |counts|) && |out| == |s| && 0 < i <= |s| && v < |counts|
    requires Distributed(counts, out, s, key, i) && w == key(s[i - 1])
    requires 0 <= w < |counts| && 0 < counts[w] <= |out| && counts[w] == Place(s, key, w, i)
    ensures Placed(out[counts[w] - 1 := s[i - 1]], s, key, v, i - 1)
    ensures counts[w := counts[w] - 1][v] == Place(s, key, v, i - 1)
  {
    assert Placed(out, s, key, v, i);
    PlaceBefore(s, key, v, i);
    PlacedStep(out, s, key, |counts|, i, v, w);
  }

  lemma DistributedAll<T(!new)>(counts: seq<int>, out: seq<T>, s: seq<T>, key: T -> int)
    requires KeysWithin(s, key, |counts|) && |out| == |s| && Distributed(counts, out, s, key, 0)
    ensures out == Gather(s, key, |counts|)
  {
    var g := Gather(s, key, |counts|);
    AllPlaced(out, s, key, |counts|, g);
    GatherLength(s, key, |counts|);
    assert out[..|out|] == out == g;
  }

  method PutBack<T>(count: array<int>, output: array<T>, w: nat, x: T)
    requires output as object != count && w < count.Length && 0 < count[w] <= output.Length
    modifies count, output
    ensures count[..] == old(count[..])[w := old(count[w]) - 1]
    ensures output[..] == old(output[..])[old(count[w]) - 1 := x]
  {
    output[count[w] - 1] := x;
    count[w] := count[w] - 1;
  }

  /** Copies the elements to their places, from the last to the first. */
  method Distribute<T(!new)>(a: array<T>, key: T -> int, count: array<int>, output: array<T>)
    requires a as object != count && output as object != count && a != output && output.Length == a.Length
    requires KeysWithin(a[..], key, count.Length)
    requires forall v :: 0 <= v < count.Length ==> count[v] == |Gather(a[..], key, v + 1)|
    modifies count, output
    ensures output[..] == Gather(a[..], key, count.Length)
  {
    ghost var s := a[..];
    DistributedStart(count[..], output[..], s, key);
    for i := a.Length downto 0
      invariant a[..] == s && Distributed(count[..], output[..], s, key, i)
    {
      ghost var c, out := count[..], output[..];
      assert a[i] == s[i];
      DistributedStep(c, out, s, key, i + 1, key(s[i]));
      PutBack(count, output, key(a[i]), a[i]);
    }
    DistributedAll(count[..], output[..], s, key);
  }

  /** The counting sort both linear sorts use: count, sum up, distribute, copy back. */
  method CountingSortBy<T(!new)>(a: array<T>, key: T -> int, range: nat)
    requires range >= 1 && KeysWithin(a[..], key, range)
    modifies a
    ensures a[..] == Gather(old(a[..]), key, range)
    ensures StablySorted(a[..], old(a[..]), KeyCmp(key))
  {
    ghost var s := a[..];
    GatherIsStableSort(s, key, range);
    var output := new T[a.Length](i requires 0 <= i < a.Length reads a => a[i]);
    var count := new int[range](_ => 0);
    CountKeys(a, key, count);
    PrefixSums(s, key, count);
    Distribute(a, key, count, output);
    ghost var g := output[..];
    for i := 0 to a.Length
      invariant output[..] == g && a[..i] == g[..i]
    {
      a[i] := output[i];
      assert output[i] == g[i];
    }
    assert a[..] == a[..a.Length] == g[..a.Length] == g;
  }

  /** Counting sort: keys are counted relative to their minimum. Without memory for the counters and
      the output (oom) the list stays as it is. */
  method SortCounting<T(!new)>(a: array<T>, key: T -> int, oom: bool)
    modifies a
    ensures if oom then a[..] == old(a[..]) else StableSortOf(a[..], old(a[..]), KeyCmp(key))
  {
    KeyCmpPreorder(key);
    if a.Length == 0 {
      return;
    }
    var min, max := key(a[0]), key(a[0]);
    for i := 1 to a.Length
      invariant min <= max && forall j :: 0 <= j < i ==> min <= key(a[j]) <= max
    {
      var val := key(a[i]);
      if val > max { max := val; }
      if val < min { min := val; }
    }
    if oom {
      return;
    }
    ghost var s := a[..];
    CountingSortBy(a, Shifted(key, min), max - min + 1);
    ShiftedKey(a[..], s, key, min);
    TotalOnMembers(a[..], s, KeyCmp(key));
  }

  function Shifted<T>(key: T -> int, min: int): T -> int {
    x => key(x) - min
  }

  /** Subtracting a constant from all keys changes no comparison. */
  lemma ShiftedKey<T(!new)>(out: seq<T>, s: seq<T>, key: T -> int, min: int)
    requires StablySorted(out, s, KeyCmp(Shifted(key, min)))
    ensures StablySorted(out, s, KeyCmp(key))
  {
    var c, d := KeyCmp(Shifted(key, min)), KeyCmp(key);
    forall x, y ensures c(x, y) == d(x, y) {}
    forall i, j | 0 <= i < j < |out| ensures d(out[i], out[j]) <= 0 {
      assert c(out[i], out[j]) <= 0;
    }
    forall x ensures Class(out, x, d) == Class(s, x, d) {
      ClassSameCmp(out, x, c, d);
      ClassSameCmp(s, x, c, d);
    }
  }

  lemma {:induction false} ClassSameCmp<T(!new)>(s: seq<T>, x: T, c: Cmp<T>, d: Cmp<T>)
    requires forall y :: c(y, x) == 0 <==> d(y, x) == 0
    ensures Class(s, x, c) == Class(s, x, d)
  {
    if s == [] {
    } else {
      ClassSameCmp(s[1..], x, c, d);
    }
  }
}
