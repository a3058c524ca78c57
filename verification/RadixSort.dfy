/** Radix sort (src/abs_sort.c) with the passes it skips for lack of memory: what it leaves is the stable
    sort by value with the digits of the skipped passes read as zero. */
module RadixSort {
  import opened SortSpec
  import opened LinearSorts

  // ---------------------------------------------------------------- digits

  function Digit<T>(key: T -> int, exp: int): T -> int
    requires exp >= 1
  {
    x => (key(x) / exp) % 10
  }

  function Power10(p: nat): (r: int)
    ensures r >= 1
  {
    if p == 0 then 1 else 10 * Power10(p - 1)
  }

  /** The number of decimal digits. */
  function Length(k: int): nat {
    if k <= 0 then 0 else 1 + Length(k / 10)
  }

  /** The last p digits of k, those of failed passes read as zero. */
  function KeptDigits(k: int, fails: nat -> bool, p: nat): int {
    if p == 0 then 0
    else KeptDigits(k, fails, p - 1) + (if fails(p - 1) then 0 else Power10(p - 1) * ((k / Power10(p - 1)) % 10))
  }

  /** All digits of k, those of failed passes read as zero. */
  function Kept(k: int, fails: nat -> bool): int {
    KeptDigits(k, fails, Length(k))
  }

  function KeptLow<T>(key: T -> int, fails: nat -> bool, p: nat): T -> int {
    x => KeptDigits(key(x), fails, p)
  }

  function KeptKey<T>(key: T -> int, fails: nat -> bool): T -> int {
    x => Kept(key(x), fails)
  }

  lemma DigitSplit(k: int, exp: int)
    requires exp >= 1 && k >= 0
    ensures k % (10 * exp) == exp * ((k / exp) % 10) + k % exp
    ensures 0 <= k % exp < exp
  {
    var q, r := k / exp, k % exp;
    Divided(k, exp);
    Regroup(exp, q / 10, q % 10);
    Below(exp, q % 10, r);
    RemainderUnique(k, 10 * exp, q / 10, exp * (q % 10) + r);
  }

  lemma Divided(k: int, exp: int)
    requires exp >= 1 && k >= 0
    ensures k == exp * (k / exp) + k % exp && 0 <= k % exp < exp
  {}

  lemma Regroup(exp: int, a: int, d: int)
    ensures exp * (10 * a + d) == (10 * exp) * a + exp * d
  {}

  lemma Below(exp: int, d: int, r: int)
    requires 0 <= d < 10 && 0 <= r < exp
    ensures 0 <= exp * d + r < 10 * exp
  {
    assert exp * d <= exp * 9;
  }

  lemma RemainderUnique(k: int, d: int, q: int, r: int)
    requires d > 0 && k == d * q + r && 0 <= r < d
    ensures k % d == r && k / d == q
  {
    var q', r' := k / d, k % d;
    assert d * (q - q') == r' - r && d * (q' - q) == -(d * (q - q'));
    if q > q' {
      AtLeastOnce(d, q - q');
      assert false;
    }
    if q < q' {
      AtLeastOnce(d, q' - q);
      assert false;
    }
  }

  lemma AtLeastOnce(d: int, m: int)
    requires d > 0 && m >= 1
    ensures d * m >= d
  {}

  lemma {:induction false} KeptBelow(k: int, fails: nat -> bool, p: nat)
    ensures 0 <= KeptDigits(k, fails, p) < Power10(p)
  {
    if p == 0 {
    } else {
      KeptBelow(k, fails, p - 1);
      Below(Power10(p - 1), if fails(p - 1) then 0 else (k / Power10(p - 1)) % 10, KeptDigits(k, fails, p - 1));
    }
  }

  /** Passes beyond the length of a number change nothing. */
  lemma {:induction false} KeptLonger(k: int, fails: nat -> bool, p: nat, q: nat)
    requires 0 <= k < Power10(p) && p <= q
    ensures KeptDigits(k, fails, q) == KeptDigits(k, fails, p) && k < Power10(q)
  {
    if q == p {
    } else {
      KeptLonger(k, fails, p, q - 1);
      RemainderUnique(k, Power10(q - 1), 0, k);
    }
  }

  lemma {:induction false} LengthBound(k: int)
    requires k >= 0
    ensures k < Power10(Length(k))
  {
    if k == 0 {
    } else {
      LengthBound(k / 10);
    }
  }

  lemma KeptIs(k: int, fails: nat -> bool, p: nat)
    requires 0 <= k < Power10(p)
    ensures KeptDigits(k, fails, p) == Kept(k, fails)
  {
    LengthBound(k);
    if p <= Length(k) { KeptLonger(k, fails, p, Length(k)); } else { KeptLonger(k, fails, Length(k), p); }
  }

  /** Without failed passes a number keeps its value. */
  lemma {:induction false} KeptAll(k: int, fails: nat -> bool, p: nat)
    requires k >= 0 && forall q :: 0 <= q < p ==> !fails(q)
    ensures KeptDigits(k, fails, p) == k % Power10(p)
  {
    if p == 0 {
    } else {
      KeptAll(k, fails, p - 1);
      DigitSplit(k, Power10(p - 1));
    }
  }

  lemma KeptValue(k: int, fails: nat -> bool, p: nat)
    requires 0 <= k < Power10(p) && forall q :: 0 <= q < p ==> !fails(q)
    ensures Kept(k, fails) == k
  {
    KeptIs(k, fails, p);
    KeptAll(k, fails, p);
    RemainderUnique(k, Power10(p), 0, k);
  }

  // ---------------------------------------------------------------- one pass

  /** The bucket of s for both a digit and a low part is the low bucket of the digit bucket. */
  lemma {:induction false} BucketMeet<T>(s: seq<T>, key: T -> int, u: int, low: T -> int, v: int,
          both: T -> int, w: int)
    requires forall i :: 0 <= i < |s| ==> (both(s[i]) == w <==> key(s[i]) == u && low(s[i]) == v)
    ensures Bucket(s, both, w) == Bucket(Bucket(s, key, u), low, v) == Bucket(Bucket(s, low, v), key, u)
  {
    if s == [] {
    } else {
      var t, y := s[..|s| - 1], s[|s| - 1];
      BucketMeet(t, key, u, low, v, both, w);
      BucketOne(Bucket(t, key, u), y, low, v);
      BucketOne(Bucket(t, low, v), y, key, u);
      assert Bucket(t, key, u) + [] == Bucket(t, key, u) && Bucket(t, low, v) + [] == Bucket(t, low, v);
    }
  }

  lemma BucketOne<T>(s: seq<T>, y: T, key: T -> int, v: int)
    ensures Bucket(s + [y], key, v) == Bucket(s, key, v) + (if key(y) == v then [y] else [])
  {}

  /** Two elements of one bucket stand in the bucket in the order they have in s. */
  lemma {:induction false} BucketOrder<T>(s: seq<T>, key: T -> int, i: nat, j: nat) returns (p: nat, q: nat)
    requires i < j < |s| && key(s[i]) == key(s[j])
    ensures p < q < |Bucket(s, key, key(s[i]))|
    ensures Bucket(s, key, key(s[i]))[p] == s[i] && Bucket(s, key, key(s[i]))[q] == s[j]
  {
    var v := key(s[i]);
    p, q := |Bucket(s[..i], key, v)|, |Bucket(s[..j], key, v)|;
    PlaceStep(s, key, v, i);
    PlaceStep(s, key, v, j);
    BucketPrefix(s, key, v, i + 1, j);
    BucketPrefix(s, key, v, j + 1, |s|);
    BucketPrefix(s, key, v, i + 1, |s|);
    assert s[..|s|] == s;
  }

  lemma BucketPrefix<T>(s: seq<T>, key: T -> int, v: int, i: nat, j: nat)
    requires i <= j <= |s|
    ensures Bucket(s[..i], key, v) <= Bucket(s[..j], key, v)
  {
    assert s[..j] == s[..i] + s[i..j];
    BucketAppend(s[..i], s[i..j], key, v);
  }

  ghost predicate NonNegative<T>(s: seq<T>, key: T -> int) {
    forall i :: 0 <= i < |s| ==> key(s[i]) >= 0
  }

  /** The stable sort has the buckets of its input. */
  lemma SameBuckets<T(!new)>(out: seq<T>, s: seq<T>, key: T -> int, v: int)
    requires SameClasses(out, s, KeyCmp(key))
    ensures Bucket(out, key, v) == Bucket(s, key, v)
  {
    if i :| 0 <= i < |out| && key(out[i]) == v {
      BucketIsClass(out, key, out[i]);
      BucketIsClass(s, key, out[i]);
    } else if j :| 0 <= j < |s| && key(s[j]) == v {
      BucketIsClass(out, key, s[j]);
      BucketIsClass(s, key, s[j]);
    } else {
      BucketNone(out, key, v);
      BucketNone(s, key, v);
    }
  }

  lemma {:induction false} BucketSorted<T(!new)>(s: seq<T>, key: T -> int, v: int, low: T -> int)
    requires Sorted(s, KeyCmp(low))
    ensures Sorted(Bucket(s, key, v), KeyCmp(low))
  {
    if s == [] {
    } else {
      var t, y := s[..|s| - 1], s[|s| - 1];
      BucketSorted(t, key, v, low);
      BucketMembers(t, key, v);
      var b := Bucket(t, key, v);
      forall i | 0 <= i < |b| ensures KeyCmp(low)(b[i], y) <= 0 {
        assert b[i] in t;
        var k :| 0 <= k < |t| && t[k] == b[i];
        assert KeyCmp(low)(s[k], s[|s| - 1]) <= 0;
      }
    }
  }

  /** A key made of a leading digit and a low part below exp. */
  ghost predicate Composed<T(!new)>(both: T -> int, digit: T -> int, low: T -> int, exp: int) {
    forall x :: 0 <= low(x) < exp && both(x) == exp * digit(x) + low(x)
  }

  lemma PartsUnique(exp: int, d: int, l: int, d': int, l': int)
    requires exp >= 1 && 0 <= l < exp && 0 <= l' < exp && exp * d + l == exp * d' + l'
    ensures d == d' && l == l'
  {
    RemainderUnique(exp * d + l, exp, d, l);
    RemainderUnique(exp * d' + l', exp, d', l');
  }

  lemma LeadingDigit(exp: int, d: int, l: int, d': int, l': int)
    requires exp >= 1 && d < d' && 0 <= l < exp && 0 <= l' < exp
    ensures exp * d + l < exp * d' + l'
  {
    AtLeastOnce(exp, d' - d);
    assert exp * d' == exp * d + exp * (d' - d);
  }

  lemma RadixClass<T(!new)>(out: seq<T>, mid: seq<T>, s: seq<T>, digit: T -> int, low: T -> int, both: T -> int,
                            exp: int, x: T)
    requires exp >= 1 && Composed(both, digit, low, exp)
    requires SameClasses(mid, s, KeyCmp(low)) && SameClasses(out, mid, KeyCmp(digit))
    ensures Bucket(out, both, both(x)) == Bucket(s, both, both(x))
  {
    var w, u, v := both(x), digit(x), low(x);
    forall t, i | (t == out || t == mid || t == s) && 0 <= i < |t|
      ensures both(t[i]) == w <==> digit(t[i]) == u && low(t[i]) == v
    {
      if both(t[i]) == w { PartsUnique(exp, digit(t[i]), low(t[i]), u, v); }
    }
    BucketMeet(out, digit, u, low, v, both, w);
    BucketMeet(mid, digit, u, low, v, both, w);
    BucketMeet(s, digit, u, low, v, both, w);
    SameBuckets(out, mid, digit, u);
    SameBuckets(mid, s, low, v);
  }

  lemma RadixSorted<T(!new)>(out: seq<T>, mid: seq<T>, digit: T -> int, low: T -> int, both: T -> int, exp: int)
    requires exp >= 1 && Composed(both, digit, low, exp)
    requires Sorted(mid, KeyCmp(low)) && StablySorted(out, mid, KeyCmp(digit))
    ensures Sorted(out, KeyCmp(both))
  {
    forall i, j | 0 <= i < j < |out| ensures KeyCmp(both)(out[i], out[j]) <= 0 {
      assert KeyCmp(digit)(out[i], out[j]) <= 0;
      if digit(out[i]) == digit(out[j]) {
        var p, q := BucketOrder(out, digit, i, j);
        SameBuckets(out, mid, digit, digit(out[i]));
        BucketSorted(mid, digit, digit(out[i]), low);
        assert KeyCmp(low)(out[i], out[j]) <= 0;
      } else {
        LeadingDigit(exp, digit(out[i]), low(out[i]), digit(out[j]), low(out[j]));
      }
    }
  }

  /** One pass: a stable sort by the low part becomes one by the low part with one more digit. */
  lemma RadixStep<T(!new)>(out: seq<T>, mid: seq<T>, s: seq<T>, digit: T -> int, low: T -> int, both: T -> int,
                           exp: int)
    requires exp >= 1 && Composed(both, digit, low, exp)
    requires StablySorted(mid, s, KeyCmp(low)) && StablySorted(out, mid, KeyCmp(digit))
    ensures StablySorted(out, s, KeyCmp(both))
  {
    RadixSorted(out, mid, digit, low, both, exp);
    forall x ensures Class(out, x, KeyCmp(both)) == Class(s, x, KeyCmp(both)) {
      BucketIsClass(out, both, x);
      BucketIsClass(s, both, x);
      RadixClass(out, mid, s, digit, low, both, exp, x);
    }
  }

  /** One pass of radix sort; without memory for the output it does nothing. */
  method CountSortExp<T(!new)>(a: array<T>, key: T -> int, exp: int, oom: bool)
    requires exp >= 1 && NonNegative(a[..], key)
    modifies a
    ensures if oom then a[..] == old(a[..]) else StablySorted(a[..], old(a[..]), KeyCmp(Digit(key, exp)))
    ensures multiset(a[..]) == multiset(old(a[..]))
  {
    if oom {
      return;
    }
    ghost var s := a[..];
    CountingSortBy(a, Digit(key, exp), 10);
    KeyCmpPreorder(Digit(key, exp));
    SameClassesPermute(a[..], s, KeyCmp(Digit(key, exp)));
  }

  /** What a pass makes of the list, skipped or not. */
  lemma PassStep<T(!new)>(out: seq<T>, mid: seq<T>, s: seq<T>, key: T -> int, fails: nat -> bool, p: nat)
    requires StablySorted(mid, s, KeyCmp(KeptLow(key, fails, p)))
    requires if fails(p) then out == mid else StablySorted(out, mid, KeyCmp(Digit(key, Power10(p))))
    ensures StablySorted(out, s, KeyCmp(KeptLow(key, fails, p + 1)))
  {
    var low, both := KeptLow(key, fails, p), KeptLow(key, fails, p + 1);
    if fails(p) {
      assert forall x :: low(x) == both(x);
      SameKeys(out, s, low, both);
    } else {
      forall x ensures 0 <= low(x) < Power10(p) && both(x) == Power10(p) * Digit(key, Power10(p))(x) + low(x) {
        KeptBelow(key(x), fails, p);
      }
      RadixStep(out, mid, s, Digit(key, Power10(p)), low, both, Power10(p));
    }
  }

  lemma SameKeys<T(!new)>(out: seq<T>, s: seq<T>, low: T -> int, both: T -> int)
    requires StablySorted(out, s, KeyCmp(low)) && forall x :: low(x) == both(x)
    ensures StablySorted(out, s, KeyCmp(both))
  {
    forall i, j | 0 <= i < j < |out| ensures KeyCmp(both)(out[i], out[j]) <= 0 {
      assert KeyCmp(low)(out[i], out[j]) <= 0;
    }
    forall x ensures Class(out, x, KeyCmp(both)) == Class(s, x, KeyCmp(both)) {
      ClassSameCmp(out, x, KeyCmp(low), KeyCmp(both));
      ClassSameCmp(s, x, KeyCmp(low), KeyCmp(both));
    }
  }

  // ---------------------------------------------------------------- the sort

  /** The largest value, or 0. */
  method Largest<T>(a: array<T>, key: T -> int) returns (m: int)
    ensures m >= 0 && forall j :: 0 <= j < a.Length ==> key(a[j]) <= m
  {
    m := 0;
    for i := 0 to a.Length
      invariant m >= 0 && forall j :: 0 <= j < i ==> key(a[j]) <= m
    {
      if key(a[i]) > m { m := key(a[i]); }
    }
  }

  /** sort_radix; fails says which passes, counted from 0, find no memory for their output. */
  method SortRadix<T(!new)>(a: array<T>, key: T -> int, fails: nat -> bool)
    requires NonNegative(a[..], key)
    modifies a
    ensures StableSortOf(a[..], old(a[..]), KeyCmp(KeptKey(key, fails)))
    ensures multiset(a[..]) == multiset(old(a[..]))
    ensures (forall p: nat :: !fails(p)) ==> StableSortOf(a[..], old(a[..]), KeyCmp(key))
  {
    ghost var s := a[..];
    var m := Largest(a, key);
    assert forall j :: 0 <= j < |s| ==> key(s[j]) <= m;
    ghost var p := Passes(a, key, m, fails);
    StableByKept(a[..], s, key, fails, p);
  }

  /** The loop over the digits. */
  method Passes<T(!new)>(a: array<T>, key: T -> int, m: int, fails: nat -> bool) returns (ghost p: nat)
    requires NonNegative(a[..], key) && m >= 0
    modifies a
    ensures m < Power10(p) && StablySorted(a[..], old(a[..]), KeyCmp(KeptLow(key, fails, p)))
  {
    ghost var s := a[..];
    var exp, k := 1, 0;
    Unsorted(s, key, fails);
    while m / exp > 0
      invariant exp == Power10(k) && NonNegative(a[..], key)
      invariant StablySorted(a[..], s, KeyCmp(KeptLow(key, fails, k)))
      decreases m - exp
    {
      ghost var mid := a[..];
      CountSortExp(a, key, exp, fails(k));
      NonNegativeMembers(a[..], mid, key);
      PassStep(a[..], mid, s, key, fails, k);
      QuotientZero(m, exp);
      exp, k := 10 * exp, k + 1;
    }
    QuotientZero(m, exp);
    p := k;
  }

  /** Before the first pass all elements count as equal. */
  lemma Unsorted<T(!new)>(s: seq<T>, key: T -> int, fails: nat -> bool)
    ensures StablySorted(s, s, KeyCmp(KeptLow(key, fails, 0)))
  {}

  lemma NonNegativeMembers<T>(out: seq<T>, s: seq<T>, key: T -> int)
    requires multiset(out) == multiset(s) && NonNegative(s, key)
    ensures NonNegative(out, key)
  {
    forall i | 0 <= i < |out| ensures key(out[i]) >= 0 {
      assert out[i] in multiset(out);
      assert out[i] in multiset(s);
    }
  }

  lemma QuotientZero(m: int, exp: int)
    requires m >= 0 && exp >= 1
    ensures m / exp > 0 <==> exp <= m
  {}

  lemma {:induction false} ClassOnMembers<T>(s: seq<T>, x: T, c: Cmp<T>, d: Cmp<T>)
    requires forall y :: y in s ==> c(y, x) == d(y, x)
    ensures Class(s, x, c) == Class(s, x, d)
  {
    if s == [] {
    } else {
      ClassOnMembers(s[1..], x, c, d);
    }
  }

  /** Comparators that agree on the members have the same stable sort. */
  lemma StableOnMembers<T(!new)>(out: seq<T>, s: seq<T>, c: Cmp<T>, d: Cmp<T>)
    requires StableSortOf(out, s, c) && forall x, y :: x in s && y in s ==> c(x, y) == d(x, y)
    ensures StableSortOf(out, s, d)
  {
    SameMembers(out, s);
    forall i, j | 0 <= i < j < |out| ensures d(out[i], out[j]) <= 0 {
      assert out[i] in s && out[j] in s && c(out[i], out[j]) <= 0;
    }
    forall x | x in s ensures Class(out, x, d) == Class(s, x, d) {
      ClassOnMembers(out, x, c, d);
      ClassOnMembers(s, x, c, d);
    }
  }

  /** When every value has at most p digits, p passes have looked at all of them. */
  lemma StableByKept<T(!new)>(out: seq<T>, s: seq<T>, key: T -> int, fails: nat -> bool, p: nat)
    requires StablySorted(out, s, KeyCmp(KeptLow(key, fails, p)))
    requires forall i :: 0 <= i < |s| ==> 0 <= key(s[i]) < Power10(p)
    ensures StableSortOf(out, s, KeyCmp(KeptKey(key, fails))) && multiset(out) == multiset(s)
    ensures (forall q: nat :: !fails(q)) ==> StableSortOf(out, s, KeyCmp(key))
  {
    var low := KeptLow(key, fails, p);
    KeyCmpPreorder(low);
    TotalOnMembers(out, s, KeyCmp(low));
    forall x | x in s ensures low(x) == KeptKey(key, fails)(x) { KeptIs(key(x), fails, p); }
    StableOnMembers(out, s, KeyCmp(low), KeyCmp(KeptKey(key, fails)));
    if forall q: nat :: !fails(q) {
      forall x | x in s ensures KeptKey(key, fails)(x) == key(x) { KeptValue(key(x), fails, p); }
      StableOnMembers(out, s, KeyCmp(KeptKey(key, fails)), KeyCmp(key));
    }
  }

  // ---------------------------------------------------------------- every list

  function Id(k: int): int {
    k
  }

  /** A power of ten has no digits below its leading one. */
  lemma {:induction false} PowerDigits(p: nat, fails: nat -> bool, q: nat)
    requires q <= p
    ensures KeptDigits(Power10(p), fails, q) == 0
  {
    if q == 0 {
    } else {
      PowerDigits(p, fails, q - 1);
      PowerRatio(p, q - 1);
      assert (Power10(p) / Power10(q - 1)) % 10 == 0;
    }
  }

  lemma {:induction false} PowerRatio(p: nat, q: nat)
    requires q < p
    ensures Power10(p) / Power10(q) == 10 * (Power10(p - 1) / Power10(q))
    ensures Power10(p - 1) == Power10(q) * (Power10(p - 1) / Power10(q))
  {
    var d := Power10(q);
    if q == p - 1 {
      RemainderUnique(d, d, 1, 0);
      RemainderUnique(10 * d, d, 10, 0);
    } else {
      PowerRatio(p - 1, q);
      var r := Power10(p - 2) / d;
      Regroup(d, r, 0);
      RemainderUnique(Power10(p - 1), d, 10 * r, 0);
      Regroup(d, 10 * r, 0);
      RemainderUnique(Power10(p), d, 10 * (10 * r), 0);
    }
  }

  ghost predicate HaveDigits(s: seq<int>, n: nat) {
    forall i :: 0 <= i < |s| ==> 0 <= s[i] < Power10(n)
  }

  /** Every list of numbers with at most n digits ends up sorted. */
  ghost predicate AllSorted(n: nat, fails: nat -> bool) {
    forall s: seq<int>, out: seq<int> ::
      HaveDigits(s, n) && StableSortOf(out, s, KeyCmp(KeptKey(Id, fails))) ==> Sorted(out, KeyCmp(Id))
  }

  /** That is so exactly when none of the n passes is skipped. */
  lemma RadixExactly(n: nat, fails: nat -> bool)
    ensures AllSorted(n, fails) <==> forall p :: 0 <= p < n ==> !fails(p)
  {
    if p: nat :| p < n && fails(p) {
      SkippedPass(n, fails, p);
    } else {
      forall s: seq<int>, out: seq<int> | HaveDigits(s, n) && StableSortOf(out, s, KeyCmp(KeptKey(Id, fails)))
        ensures Sorted(out, KeyCmp(Id))
      {
        NothingSkipped(s, out, n, fails);
      }
    }
  }

  lemma NothingSkipped(s: seq<int>, out: seq<int>, n: nat, fails: nat -> bool)
    requires HaveDigits(s, n) && StableSortOf(out, s, KeyCmp(KeptKey(Id, fails)))
    requires forall p :: 0 <= p < n ==> !fails(p)
    ensures Sorted(out, KeyCmp(Id))
  {
    var id: int -> int := Id;
    var kept := KeptKey(id, fails);
    forall x | x in s ensures kept(x) == id(x) {
      KeptValue(x, fails, n);
      assert kept(x) == Kept(id(x), fails);
    }
    SameOrder(out, s, kept, id);
  }

  lemma SameCmp<T>(x: T, y: T, kept: T -> int, id: T -> int)
    requires kept(x) == id(x) && kept(y) == id(y)
    ensures KeyCmp(kept)(x, y) == KeyCmp(id)(x, y)
  {
    assert KeyCmp(kept)(x, y) == Sign(kept(x), kept(y)) && KeyCmp(id)(x, y) == Sign(id(x), id(y));
  }

  lemma SameOrder<T>(out: seq<T>, s: seq<T>, kept: T -> int, id: T -> int)
    requires Sorted(out, KeyCmp(kept)) && multiset(out) == multiset(s) && forall x :: x in s ==> kept(x) == id(x)
    ensures Sorted(out, KeyCmp(id))
  {
    SameMembers(out, s);
    forall i, j | 0 <= i < j < |out| ensures KeyCmp(id)(out[i], out[j]) <= 0 {
      assert out[i] in s && out[j] in s;
      SameCmp(out[i], out[j], kept, id);
    }
  }

  /** A skipped pass leaves 10^p before 0. */
  lemma SkippedPass(n: nat, fails: nat -> bool, p: nat)
    requires p < n && fails(p)
    ensures !AllSorted(n, fails)
  {
    var s, kept := [Power10(p), 0], KeptKey(Id, fails);
    PowerGrows(p, n);
    PowerKept(p, fails);
    var id: int -> int := Id;
    assert kept(Power10(p)) == Kept(id(Power10(p)), fails) && kept(0) == Kept(id(0), fails);
    TwoEqual(Power10(p), 0, kept);
    TwoUnsorted(Power10(p));
    assert HaveDigits(s, n);
    NotAll(s, n, fails);
  }

  lemma NotAll(s: seq<int>, n: nat, fails: nat -> bool)
    requires HaveDigits(s, n) && StableSortOf(s, s, KeyCmp(KeptKey(Id, fails))) && !Sorted(s, KeyCmp(Id))
    ensures !AllSorted(n, fails)
  {}

  lemma PowerKept(p: nat, fails: nat -> bool)
    requires fails(p)
    ensures Kept(Power10(p), fails) == 0 == Kept(0, fails)
  {
    PowerDigits(p, fails, p);
    PowerGrows(p, p + 1);
    KeptIs(Power10(p), fails, p + 1);
    KeptIs(0, fails, 0);
  }

  lemma TwoEqual(a: int, b: int, kept: int -> int)
    requires kept(a) == kept(b)
    ensures StableSortOf([a, b], [a, b], KeyCmp(kept))
  {}

  lemma TwoUnsorted(a: int)
    requires a > 0
    ensures !Sorted([a, 0], KeyCmp(Id))
  {
    var s, id: int -> int := [a, 0], Id;
    assert KeyCmp(id)(s[0], s[1]) == Sign(id(s[0]), id(s[1]));
  }

  lemma {:induction false} PowerGrows(p: nat, n: nat)
    requires p < n
    ensures Power10(p) < Power10(n)
  {
    if n == p + 1 {
    } else {
      PowerGrows(p, n - 1);
    }
  }
}
