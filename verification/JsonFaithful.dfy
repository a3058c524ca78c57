/** Which values survive json_parse(json_dump(x)), dictionaries compared as maps: exactly those
    without a raw control character in a string or key, without a set or a value that has no text
    of its own, and whose floats have a text that reads back as the same float. */
module JsonFaithful {
  import opened Common
  import opened Dict
  import opened Json
  import opened JsonDocuments
  import opened JsonRoundTrip

  // ---------------------------------------------------------------- values with dictionaries as maps

  datatype View =
    | VNull
    | VBool(b: bool)
    | VInt(i: int)
    | VFloat(f: real)
    | VStr(s: string)
    | VList(items: seq<View>)
    | VSet(items: seq<View>)
    | VDict(members: map<string, View>)
    | VError(message: string)
    | VOther

  ghost function ViewOf(x: Json): View
    decreases x
  {
    match x
    case JNull => VNull
    case JBool(b) => VBool(b)
    case JInt(i) => VInt(i)
    case JFloat(f) => VFloat(f)
    case JStr(s) => VStr(s)
    case JList(items) => VList(ViewItems(items))
    case JSet(items) => VSet(ViewItems(items))
    case JDict(buckets) => VDict(ViewBuckets(buckets))
    case JError(m) => VError(m)
    case JOther => VOther
  }

  ghost function ViewItems(items: seq<Json>): (r: seq<View>)
    ensures |r| == |items|
    decreases items
  {
    if items == [] then [] else [ViewOf(items[0])] + ViewItems(items[1..])
  }

  ghost function ViewChain(c: Chain<Json>): map<string, View>
    decreases c
  {
    if c.Nil? then map[] else ViewChain(c.next)[c.key := ViewOf(c.value)]
  }

  ghost function ViewBuckets(bs: seq<Chain<Json>>): map<string, View>
    decreases bs
  {
    if bs == [] then map[] else ViewBuckets(bs[1..]) + ViewChain(bs[0])
  }

  /** The view of a dictionary is its contents, viewed. */
  ghost function ViewMap(m: map<string, Json>): map<string, View> {
    map k | k in m :: ViewOf(m[k])
  }

  lemma {:induction false} ViewChainIs(c: Chain<Json>)
    ensures ViewChain(c) == ViewMap(ChainMap(c))
  {
    if c.Nil? {
    } else {
      ViewChainIs(c.next);
    }
  }

  lemma {:induction false} ViewBucketsIs(bs: seq<Chain<Json>>)
    ensures ViewBuckets(bs) == ViewMap(Contents(bs))
  {
    if bs == [] {
    } else {
      ViewBucketsIs(bs[1..]);
      ViewChainIs(bs[0]);
    }
  }

  lemma ViewDSet(bs: seq<Chain<Json>>, key: string, x: Json)
    requires Proper(bs)
    ensures Proper(DSet(bs, key, x)) && ViewBuckets(DSet(bs, key, x)) == ViewBuckets(bs)[key := ViewOf(x)]
  {
    DSetContents(bs, key, x);
    ViewBucketsIs(bs);
    ViewBucketsIs(DSet(bs, key, x));
  }

  // ---------------------------------------------------------------- the condition

  predicate Clean(s: string) {
    forall i :: 0 <= i < |s| ==> !IsRawControl(s[i])
  }

  /** The value comes back as it was. */
  ghost predicate Faithful(x: Json, libc: Libc)
    decreases x
  {
    match x
    case JFloat(f) => IsFloatText(libc.format(f)) && libc.atof(libc.format(f)) == f
    case JStr(s) => Clean(s)
    case JList(items) => FaithfulItems(items, libc)
    case JDict(buckets) => CleanKeys(buckets) && FaithfulBuckets(buckets, libc)
    case JSet(_) => false
    case JError(_) => false
    case JOther => false
    case _ => true
  }

  ghost predicate FaithfulItems(items: seq<Json>, libc: Libc)
    decreases items
  {
    items != [] ==> Faithful(items[0], libc) && FaithfulItems(items[1..], libc)
  }

  ghost predicate FaithfulChain(c: Chain<Json>, libc: Libc)
    decreases c
  {
    c.Link? ==> Faithful(c.value, libc) && FaithfulChain(c.next, libc)
  }

  ghost predicate FaithfulBuckets(bs: seq<Chain<Json>>, libc: Libc)
    decreases bs
  {
    bs != [] ==> FaithfulChain(bs[0], libc) && FaithfulBuckets(bs[1..], libc)
  }

  predicate CleanChain(c: Chain<Json>) {
    c.Link? ==> Clean(c.key) && CleanChain(c.next)
  }

  predicate CleanKeys(bs: seq<Chain<Json>>) {
    forall b :: 0 <= b < |bs| ==> CleanChain(bs[b])
  }

  // ---------------------------------------------------------------- strings

  /** Normalised strings have no raw control characters. */
  lemma {:induction false} NormClean(s: string)
    ensures Clean(Norm(s))
  {
    if s == "" {
    } else {
      NormClean(s[1..]);
      var head := if IsRawControl(s[0]) then EscapeChar(s[0]) else [s[0]];
      assert Clean(head);
      assert Norm(s) == head + Norm(s[1..]);
    }
  }

  lemma {:induction false} NormSame(s: string)
    requires Clean(s)
    ensures Norm(s) == s
  {
    if s == "" {
    } else {
      assert s == [s[0]] + s[1..];
      NormSame(s[1..]);
    }
  }

  lemma NormExactly(s: string)
    ensures Norm(s) == s <==> Clean(s)
  {}

  // ---------------------------------------------------------------- dictionaries

  /** What the members of a chain with clean keys become. */
  ghost function RebuiltViews(c: Chain<Json>, libc: Libc): map<string, View> {
    if c.Nil? then map[] else RebuiltViews(c.next, libc)[c.key := ViewOf(Rebuild(c.value, libc))]
  }

  ghost function AllRebuiltViews(bs: seq<Chain<Json>>, libc: Libc): map<string, View> {
    if bs == [] then map[] else AllRebuiltViews(bs[1..], libc) + RebuiltViews(bs[0], libc)
  }

  lemma {:induction false} RebuiltKeys(c: Chain<Json>, libc: Libc)
    ensures RebuiltViews(c, libc).Keys == ViewChain(c).Keys == ChainMap(c).Keys
  {
    if c.Nil? {
    } else {
      RebuiltKeys(c.next, libc);
    }
  }

  lemma {:induction false} AllRebuiltKeys(bs: seq<Chain<Json>>, libc: Libc)
    ensures AllRebuiltViews(bs, libc).Keys == ViewBuckets(bs).Keys == Contents(bs).Keys
  {
    if bs == [] {
    } else {
      AllRebuiltKeys(bs[1..], libc);
      RebuiltKeys(bs[0], libc);
    }
  }

  /** Setting the members of a chain one by one adds them all. */
  lemma {:induction false} RebuildChainView(c: Chain<Json>, b: nat, acc: seq<Chain<Json>>, libc: Libc)
    requires Proper(acc) && ProperChain(c, b) && CleanChain(c)
    ensures Proper(RebuildChain(c, acc, libc))
    ensures ViewBuckets(RebuildChain(c, acc, libc)) == ViewBuckets(acc) + RebuiltViews(c, libc)
  {
    if c.Link? {
      NormSame(c.key);
      ViewDSet(acc, c.key, Rebuild(c.value, libc));
      RebuildChainView(c.next, b, DSet(acc, c.key, Rebuild(c.value, libc)), libc);
      RebuiltKeys(c.next, libc);
      FindInMap(c.next, c.key);
      MapCommutes(ViewBuckets(acc), RebuiltViews(c.next, libc), c.key, ViewOf(Rebuild(c.value, libc)));
    } else {
      assert ViewBuckets(acc) + map[] == ViewBuckets(acc);
    }
  }

  lemma MapCommutes<K, V>(m: map<K, V>, n: map<K, V>, k: K, v: V)
    requires k !in n
    ensures m[k := v] + n == m + n[k := v]
  {}

  /** The keys of a bucket and those of the following buckets differ. */
  lemma KeysApart(bs: seq<Chain<Json>>, b: nat, k: string)
    requires bs != [] && ProperFrom(bs, b) && k in ChainMap(bs[0])
    ensures k !in Contents(bs[1..]) && ProperFrom(bs[1..], b + 1)
  {
    KeysInSlot(bs[0], b, k);
    ProperTail(bs, b);
    ContentsAt(bs[1..], b + 1, k);
  }

  lemma ProperTail(bs: seq<Chain<Json>>, b: nat)
    requires bs != [] && ProperFrom(bs, b)
    ensures ProperFrom(bs[1..], b + 1)
  {}

  lemma {:induction false} RebuildBucketsView(bs: seq<Chain<Json>>, b: nat, acc: seq<Chain<Json>>, libc: Libc)
    requires Proper(acc) && ProperFrom(bs, b) && CleanKeys(bs)
    ensures Proper(RebuildBuckets(bs, acc, libc))
    ensures ViewBuckets(RebuildBuckets(bs, acc, libc)) == ViewBuckets(acc) + AllRebuiltViews(bs, libc)
  {
    if bs == [] {
      assert ViewBuckets(acc) + map[] == ViewBuckets(acc);
    } else {
      ProperTail(bs, b);
      assert CleanKeys(bs[1..]) by { assert forall i :: 0 <= i < |bs[1..]| ==> bs[1..][i] == bs[i + 1]; }
      RebuildChainView(bs[0], b, acc, libc);
      RebuildBucketsView(bs[1..], b + 1, RebuildChain(bs[0], acc, libc), libc);
      RebuiltKeys(bs[0], libc);
      AllRebuiltKeys(bs[1..], libc);
      forall k | k in RebuiltViews(bs[0], libc) ensures k !in AllRebuiltViews(bs[1..], libc) { KeysApart(bs, b, k); }
      MapsCommute(ViewBuckets(acc), RebuiltViews(bs[0], libc), AllRebuiltViews(bs[1..], libc));
    }
  }

  lemma MapsCommute<K, V>(m: map<K, V>, n: map<K, V>, o: map<K, V>)
    requires n.Keys !! o.Keys
    ensures m + n + o == m + (o + n)
  {}

  /** Keys that are set stay clean. */
  lemma {:induction false} RebuildChainClean(c: Chain<Json>, acc: seq<Chain<Json>>, libc: Libc)
    requires Proper(acc) && forall k :: k in Contents(acc) ==> Clean(k)
    ensures Proper(RebuildChain(c, acc, libc)) && forall k :: k in Contents(RebuildChain(c, acc, libc)) ==> Clean(k)
  {
    if c.Nil? {
    } else {
      NormClean(c.key);
      DSetContents(acc, Norm(c.key), Rebuild(c.value, libc));
      RebuildChainClean(c.next, DSet(acc, Norm(c.key), Rebuild(c.value, libc)), libc);
    }
  }

  lemma {:induction false} RebuildBucketsClean(bs: seq<Chain<Json>>, acc: seq<Chain<Json>>, libc: Libc)
    requires Proper(acc) && forall k :: k in Contents(acc) ==> Clean(k)
    ensures Proper(RebuildBuckets(bs, acc, libc))
    ensures forall k :: k in Contents(RebuildBuckets(bs, acc, libc)) ==> Clean(k)
  {
    if bs == [] {
    } else {
      RebuildChainClean(bs[0], acc, libc);
      RebuildBucketsClean(bs[1..], RebuildChain(bs[0], acc, libc), libc);
    }
  }

  lemma {:induction false} UncleanKey(c: Chain<Json>) returns (k: string)
    requires !CleanChain(c)
    ensures k in ChainMap(c) && !Clean(k)
  {
    if !Clean(c.key) {
      k := c.key;
    } else {
      k := UncleanKey(c.next);
    }
  }

  /** A key with a raw control character is gone afterwards. */
  lemma UncleanKeysDiffer(bs: seq<Chain<Json>>, libc: Libc)
    requires Proper(bs) && !CleanKeys(bs)
    ensures ViewBuckets(RebuildBuckets(bs, Empty(), libc)) != ViewBuckets(bs)
  {
    var b :| 0 <= b < |bs| && !CleanChain(bs[b]);
    var k := UncleanKey(bs[b]);
    KeysInSlot(bs[b], b, k);
    ContentsAt(bs, 0, k);
    EmptyContents<Json>();
    RebuildBucketsClean(bs, Empty(), libc);
    KeyGone(bs, RebuildBuckets(bs, Empty(), libc), k);
  }

  lemma KeyGone(bs: seq<Chain<Json>>, cs: seq<Chain<Json>>, k: string)
    requires k in Contents(bs) && k !in Contents(cs)
    ensures ViewBuckets(cs) != ViewBuckets(bs)
  {
    ViewBucketsIs(bs);
    ViewBucketsIs(cs);
    assert k in ViewBuckets(bs) && k !in ViewBuckets(cs);
  }

  // ---------------------------------------------------------------- the theorem

  /** What a value becomes equals the value exactly if it is faithful. */
  lemma {:induction false} ViewExactly(x: Json, libc: Libc)
    requires WellFormed(x)
    ensures ViewOf(Rebuild(x, libc)) == ViewOf(x) <==> Faithful(x, libc)
    decreases x
  {
    match x
    case JStr(s) => NormExactly(s);
    case JList(items) => ItemsExactly(items, libc);
    case JDict(buckets) =>
      if CleanKeys(buckets) {
        CleanDictView(buckets, libc);
        BucketsExactly(buckets, 0, libc);
      } else {
        UncleanKeysDiffer(buckets, libc);
      }
    case _ =>
  }

  lemma EmptyView()
    ensures Proper(Empty<Json>()) && ViewBuckets(Empty<Json>()) == map[]
  {
    EmptyContents<Json>();
    ViewBucketsIs(Empty<Json>());
  }

  lemma EmptyUnion<K, V>(m: map<K, V>, n: map<K, V>)
    requires m == map[]
    ensures m + n == n
  {}

  lemma CleanDictView(bs: seq<Chain<Json>>, libc: Libc)
    requires Proper(bs) && CleanKeys(bs)
    ensures ViewBuckets(RebuildBuckets(bs, Empty(), libc)) == AllRebuiltViews(bs, libc)
  {
    EmptyView();
    RebuildBucketsView(bs, 0, Empty(), libc);
    EmptyUnion(ViewBuckets(Empty<Json>()), AllRebuiltViews(bs, libc));
  }

  lemma {:induction false} ItemsExactly(items: seq<Json>, libc: Libc)
    requires WellFormedItems(items)
    ensures ViewItems(RebuildItems(items, libc)) == ViewItems(items) <==> FaithfulItems(items, libc)
    decreases items
  {
    if items == [] {
    } else {
      ViewExactly(items[0], libc);
      ItemsExactly(items[1..], libc);
      var r := RebuildItems(items, libc);
      assert r[0] == Rebuild(items[0], libc) && r[1..] == RebuildItems(items[1..], libc);
      ConsEqual(ViewOf(r[0]), ViewOf(items[0]), ViewItems(r[1..]), ViewItems(items[1..]));
    }
  }

  lemma ConsEqual<T>(x: T, y: T, s: seq<T>, t: seq<T>)
    ensures [x] + s == [y] + t <==> x == y && s == t
  {
    if [x] + s == [y] + t {
      assert ([x] + s)[0] == x && ([y] + t)[0] == y && ([x] + s)[1..] == s && ([y] + t)[1..] == t;
    }
  }

  lemma {:induction false} ChainExactly(c: Chain<Json>, b: nat, libc: Libc)
    requires WellFormedChain(c) && ProperChain(c, b)
    ensures RebuiltViews(c, libc) == ViewChain(c) <==> FaithfulChain(c, libc)
    decreases c
  {
    if c.Nil? {
    } else {
      ViewExactly(c.value, libc);
      ChainExactly(c.next, b, libc);
      RebuiltKeys(c.next, libc);
      FindInMap(c.next, c.key);
      UpdateEqual(RebuiltViews(c.next, libc), ViewChain(c.next), c.key,
                  ViewOf(Rebuild(c.value, libc)), ViewOf(c.value));
    }
  }

  lemma UpdateEqual<K, V>(m: map<K, V>, n: map<K, V>, k: K, v: V, w: V)
    requires k !in m && k !in n
    ensures m[k := v] == n[k := w] <==> m == n && v == w
  {
    if m[k := v] == n[k := w] {
      assert m[k := v][k] == v && n[k := w][k] == w;
      forall j | j in m ensures j in n && m[j] == n[j] { assert j in m[k := v]; }
      forall j | j in n ensures j in m { assert j in n[k := w]; }
    }
  }

  lemma {:induction false} BucketsExactly(bs: seq<Chain<Json>>, b: nat, libc: Libc)
    requires WellFormedBuckets(bs) && ProperFrom(bs, b)
    ensures AllRebuiltViews(bs, libc) == ViewBuckets(bs) <==> FaithfulBuckets(bs, libc)
    decreases bs
  {
    if bs == [] {
    } else {
      ProperTail(bs, b);
      ChainExactly(bs[0], b, libc);
      BucketsExactly(bs[1..], b + 1, libc);
      RebuiltKeys(bs[0], libc);
      AllRebuiltKeys(bs[1..], libc);
      forall k | k in ChainMap(bs[0]) ensures k !in Contents(bs[1..]) { KeysApart(bs, b, k); }
      UnionEqual(AllRebuiltViews(bs[1..], libc), ViewBuckets(bs[1..]), RebuiltViews(bs[0], libc), ViewChain(bs[0]));
    }
  }

  lemma UnionEqual<K, V>(m: map<K, V>, n: map<K, V>, p: map<K, V>, q: map<K, V>)
    requires m.Keys == n.Keys && p.Keys == q.Keys && m.Keys !! p.Keys
    ensures m + p == n + q <==> m == n && p == q
  {
    if m + p == n + q {
      forall k | k in m ensures m[k] == n[k] { assert (m + p)[k] == (n + q)[k]; }
      forall k | k in p ensures p[k] == q[k] { assert (m + p)[k] == (n + q)[k]; }
    }
  }

  /** json_parse(json_dump(x)) equals x, dictionaries as maps, exactly for the faithful values. */
  lemma RoundTripExactly(x: Json, libc: Libc)
    requires WellFormed(x) && PrintsNumbers(libc)
    ensures ViewOf(Parse(Text(x, libc), libc)) == ViewOf(x) <==> Faithful(x, libc)
  {
    ParseText(x, libc);
    ViewExactly(x, libc);
  }

  /** An integral float that prints without a dot comes back as an integer. */
  lemma IntegralFloatBecomesInt(libc: Libc)
    requires PrintsNumbers(libc) && libc.format(3.0) == "3"
    ensures Parse(Text(JFloat(3.0), libc), libc) == JInt(3) && !Faithful(JFloat(3.0), libc)
  {
    ParseText(JFloat(3.0), libc);
    assert "3"[1..] == "";
    assert Atol("3") == 3;
  }

  /** A control character without an escape of its own comes back as six characters. */
  lemma ControlCharacterBecomesText(libc: Libc)
    requires PrintsNumbers(libc)
    ensures Parse(Text(JStr([1 as char]), libc), libc) == JStr("\\u0001")
  {
    ParseText(JStr([1 as char]), libc);
    assert [1 as char][1..] == "";
    assert Norm([1 as char]) == EscapeChar(1 as char);
  }
}
