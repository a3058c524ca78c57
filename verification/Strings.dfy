/** split, join and count on strings (src/abs.c). */
module Strings {
  // ---------------------------------------------------------------- occurrences

  predicate OccursAt(s: string, d: string, i: nat) {
    i + |d| <= |s| && s[i..i + |d|] == d
  }

  /** strstr: the first place where d occurs in s, or -1. */
  function First(s: string, d: string): (p: int)
    ensures -1 <= p && (p >= 0 ==> OccursAt(s, d, p))
  {
    if |s| < |d| then -1
    else if s[..|d|] == d then 0
    else if s == "" then -1
    else
      var p := First(s[1..], d);
      assert p >= 0 ==> s[1..][p..p + |d|] == s[p + 1..p + 1 + |d|];
      if p < 0 then -1 else p + 1
  }

  lemma {:induction false} FirstIsFirst(s: string, d: string, i: nat)
    requires OccursAt(s, d, i)
    ensures 0 <= First(s, d) <= i
  {
    if s[..|d|] == d {
    } else {
      assert i > 0;
      assert s[1..][i - 1..i - 1 + |d|] == s[i..i + |d|];
      FirstIsFirst(s[1..], d, i - 1);
    }
  }

  /** Appending text does not change the first occurrence. */
  lemma FirstAppend(s: string, t: string, d: string)
    requires First(s, d) >= 0
    ensures First(s + t, d) == First(s, d)
  {
    var p := First(s, d);
    assert (s + t)[p..p + |d|] == s[p..p + |d|];
    FirstIsFirst(s + t, d, p);
    var q := First(s + t, d);
    assert (s + t)[q..q + |d|] == s[q..q + |d|];
    FirstIsFirst(s, d, q);
  }

  // ---------------------------------------------------------------- what the functions compute

  function Chars(s: string): seq<string> {
    if s == "" then [] else [[s[0]]] + Chars(s[1..])
  }

  /** The pieces of s between the occurrences of d, taken from the left. */
  function Pieces(s: string, d: string): (r: seq<string>)
    requires d != ""
    ensures |r| == Count(s, d) + 1
    decreases |s|
  {
    var p := First(s, d);
    if p < 0 then [s] else [s[..p]] + Pieces(s[p + |d|..], d)
  }

  function Split(s: string, d: string): seq<string> {
    if d == "" then (if s == "" then [""] else Chars(s)) else Pieces(s, d)
  }

  /** The number of occurrences of d that do not overlap, taken from the left. */
  function Count(s: string, d: string): nat
    decreases |s|
  {
    if d == "" || First(s, d) < 0 then 0 else 1 + Count(s[First(s, d) + |d|..], d)
  }

  function Join(d: string, ps: seq<string>): string {
    if ps == [] then "" else if |ps| == 1 then ps[0] else ps[0] + d + Join(d, ps[1..])
  }

  // ---------------------------------------------------------------- the laws

  /** Joining the pieces with the delimiter gives the string back, for every delimiter. */
  lemma JoinSplit(s: string, d: string)
    ensures Join(d, Split(s, d)) == s
  {
    if d == "" {
      if s != "" { JoinChars(s); }
    } else {
      JoinPieces(s, d);
    }
  }

  lemma {:induction false} JoinPieces(s: string, d: string)
    requires d != ""
    ensures Join(d, Pieces(s, d)) == s
    decreases |s|
  {
    var p := First(s, d);
    if p < 0 {
    } else {
      var rest := s[p + |d|..];
      JoinPieces(rest, d);
      var r := Pieces(s, d);
      assert r == [s[..p]] + Pieces(rest, d) && r[1..] == Pieces(rest, d);
      assert Join(d, r) == s[..p] + d + Join(d, r[1..]);
      assert s == s[..p] + s[p..p + |d|] + rest;
    }
  }

  lemma {:induction false} JoinChars(s: string)
    requires s != ""
    ensures Join("", Chars(s)) == s
  {
    if |s| == 1 {
      assert Chars(s[1..]) == [];
    } else {
      JoinChars(s[1..]);
      assert Chars(s)[1..] == Chars(s[1..]);
      assert s == [s[0]] + "" + s[1..];
    }
  }

  /** Joining two lists one behind the other, and one part alone. */
  lemma {:induction false} JoinAppend(d: string, a: seq<string>, b: seq<string>, x: string)
    requires a != [] && b != []
    ensures Join(d, a + b) == Join(d, a) + d + Join(d, b) && Join(d, [x]) == x
  {
    if |a| == 1 {
      assert (a + b)[1..] == b;
    } else {
      assert (a + b)[1..] == a[1..] + b;
      JoinAppend(d, a[1..], b, x);
    }
  }

  /** In the joined text the delimiters are met first: none of the parts, followed by a delimiter,
      has an earlier occurrence, and the last part has none. */
  predicate Separable(ps: seq<string>, d: string) {
    && ps != []
    && First(ps[|ps| - 1], d) < 0
    && forall k :: 0 <= k < |ps| - 1 ==> First(ps[k] + d, d) == |ps[k]|
  }

  lemma DelimiterMet(p: string, d: string)
    ensures 0 <= First(p + d, d) <= |p|
  {
    assert (p + d)[|p|..|p| + |d|] == d;
    FirstIsFirst(p + d, d, |p|);
  }

  /** Splitting undoes joining exactly for separable parts. */
  lemma {:induction false} SplitJoinExactly(ps: seq<string>, d: string)
    requires d != ""
    ensures Split(Join(d, ps), d) == ps <==> Separable(ps, d)
  {
    if |ps| >= 2 {
      SplitJoinExactly(ps[1..], d);
      SplitJoinStep(ps, d);
    } else if |ps| == 1 {
      var p := First(ps[0], d);
      if p >= 0 { assert |Pieces(ps[0], d)| >= 2; }
    }
  }

  lemma SplitJoinStep(ps: seq<string>, d: string)
    requires d != "" && |ps| >= 2
    requires Split(Join(d, ps[1..]), d) == ps[1..] <==> Separable(ps[1..], d)
    ensures Split(Join(d, ps), d) == ps <==> Separable(ps, d)
  {
    var p, j := ps[0] + d, Join(d, ps[1..]);
    DelimiterMet(ps[0], d);
    FirstAppend(p, j, d);
    SeparableTail(ps, d);
    FirstCut(p + j, d, ps, j);
  }

  /** The first piece is the first part exactly when the first delimiter is the one behind it. */
  lemma FirstCut(s: string, d: string, ps: seq<string>, j: string)
    requires d != "" && |ps| >= 2 && s == ps[0] + d + j && 0 <= First(s, d) <= |ps[0]|
    ensures Pieces(s, d) == ps <==> First(s, d) == |ps[0]| && Pieces(j, d) == ps[1..]
  {
    var q := First(s, d);
    SamePieces(s[..q], Pieces(s[q + |d|..], d), ps);
    if q == |ps[0]| {
      assert s[..q] == ps[0] && s[q + |d|..] == j;
    }
  }

  lemma SamePieces(x: string, more: seq<string>, ps: seq<string>)
    requires ps != []
    ensures [x] + more == ps <==> x == ps[0] && more == ps[1..]
  {
    assert ps == [ps[0]] + ps[1..];
    if [x] + more == ps { assert ([x] + more)[0] == x && ([x] + more)[1..] == more; }
  }

  lemma SeparableTail(ps: seq<string>, d: string)
    requires |ps| >= 2
    ensures Separable(ps, d) <==> First(ps[0] + d, d) == |ps[0]| && Separable(ps[1..], d)
  {}

  /** The split is the one way to cut s at delimiters that are met first. */
  lemma SplitUnique(s: string, d: string, ps: seq<string>)
    requires d != ""
    ensures ps == Split(s, d) <==> Join(d, ps) == s && Separable(ps, d)
  {
    JoinSplit(s, d);
    SplitJoinExactly(Split(s, d), d);
    SplitJoinExactly(ps, d);
  }

  /** Without a delimiter there is one piece for each character; the empty string is one piece. */
  lemma SplitEvery(s: string, i: nat)
    requires i < |s|
    ensures |Split(s, "")| == |s| && Split(s, "")[i] == [s[i]] && Split("", "") == [""]
  {
    CharsAre(s, i);
  }

  lemma {:induction false} CharsAre(s: string, i: nat)
    requires i < |s|
    ensures |Chars(s)| == |s| && Chars(s)[i] == [s[i]]
  {
    if |s| > 1 {
      CharsAre(s[1..], if i == 0 then 0 else i - 1);
    } else {
      assert Chars(s[1..]) == [];
    }
  }

  /** In particular for a delimiter of one character that occurs in no part. */
  lemma SplitJoinChar(ps: seq<string>, c: char)
    requires ps != [] && forall k :: 0 <= k < |ps| ==> c !in ps[k]
    ensures Split(Join([c], ps), [c]) == ps
  {
    forall k | 0 <= k < |ps| ensures First(ps[k] + [c], [c]) == |ps[k]| && First(ps[k], [c]) < 0 {
      DelimiterMet(ps[k], [c]);
      FirstOfChar(ps[k], c);
    }
    SplitJoinExactly(ps, [c]);
  }

  lemma FirstOfChar(p: string, c: char)
    requires c !in p && 0 <= First(p + [c], [c]) <= |p|
    ensures First(p + [c], [c]) == |p| && First(p, [c]) < 0
  {
    assert (p + [c])[First(p + [c], [c])] == c;
  }

  // ---------------------------------------------------------------- the code

  /** split. */
  method SplitString(s: string, delimiter: string) returns (l: seq<string>)
    ensures l == Split(s, delimiter)
  {
    if delimiter == "" {
      l := SplitChars(s);
      if s == "" { l := [""]; }
    } else {
      l := SplitPieces(s, delimiter);
    }
  }

  /** Without a delimiter: one string for each character. */
  method SplitChars(s: string) returns (l: seq<string>)
    ensures l == Chars(s)
  {
    l := [];
    for i := 0 to |s|
      invariant l + Chars(s[i..]) == Chars(s)
    {
      assert s[i..][1..] == s[i + 1..];
      l := l + [[s[i]]];
    }
  }

  method SplitPieces(s: string, delimiter: string) returns (l: seq<string>)
    requires delimiter != ""
    ensures l == Pieces(s, delimiter)
  {
    l := [];
    var start := s;
    var p := First(start, delimiter);
    while p >= 0
      invariant p == First(start, delimiter) && l + Pieces(start, delimiter) == Pieces(s, delimiter)
      decreases |start|
    {
      var piece, rest := start[..p], start[p + |delimiter|..];
      assert Pieces(start, delimiter) == [piece] + Pieces(rest, delimiter);
      l := l + [piece];
      start := rest;
      p := First(start, delimiter);
    }
    l := l + [start];
  }

  /** count on strings. */
  method CountString(s: string, item: string) returns (c: nat)
    ensures c == Count(s, item) && (item == "" ==> c == 0)
  {
    c := 0;
    if item != "" {
      var tmp := s;
      var p := First(tmp, item);
      while p >= 0
        invariant p == First(tmp, item) && c + Count(tmp, item) == Count(s, item)
        decreases |tmp|
      {
        c := c + 1;
        tmp := tmp[p + |item|..];
        p := First(tmp, item);
      }
    }
  }

  /** A list element: join skips what is not a string, but not its delimiter. */
  datatype Item = Str(s: string) | NotStr

  function TextOf(x: Item): string {
    if x.Str? then x.s else ""
  }

  function Texts(items: seq<Item>): (r: seq<string>)
    ensures |r| == |items| && forall i :: 0 <= i < |items| ==> r[i] == if items[i].Str? then items[i].s else ""
  {
    seq(|items|, i requires 0 <= i < |items| => TextOf(items[i]))
  }

  /** join. */
  method JoinStrings(delim: string, items: seq<Item>) returns (res: string)
    ensures res == Join(delim, Texts(items)) && (items == [] ==> res == "")
  {
    res := "";
    var n := |items|;
    ghost var ts := Texts(items);
    assert ts[0..] == ts;
    for i := 0 to n
      invariant res + Join(delim, ts[i..]) == Join(delim, ts)
    {
      JoinNext(delim, ts, i, res);
      if items[i].Str? { res := res + items[i].s; }
      if i < n - 1 { res := res + delim; }
    }
  }

  /** Appending part i and, unless it is the last, the delimiter. */
  lemma JoinNext(delim: string, ts: seq<string>, i: nat, res: string)
    requires i < |ts|
    ensures res + Join(delim, ts[i..])
            == (if i < |ts| - 1 then res + ts[i] + delim else res + ts[i]) + Join(delim, ts[i + 1..])
  {
    assert ts[i..][1..] == ts[i + 1..] && ts[i..][0] == ts[i];
  }
}
