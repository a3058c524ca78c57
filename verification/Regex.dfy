/** The regular expression engine (src/abs_regex.c): the language of a pattern, the two matchers,
    which decide it independently of each other, and the scanners built on the second. */
module Regex {
  import opened Common

  // ---------------------------------------------------------------- patterns and their language

  datatype Atom = Any | Exactly(c: char)

  datatype Token = One(a: Atom) | Star(a: Atom) | End

  predicate Accepts(a: Atom, c: char) {
    a.Any? || a.c == c
  }

  function AtomOf(c: char): Atom {
    if c == '.' then Any else Exactly(c)
  }

  /** How a pattern is read: a character followed by '*' is a closure, even if it is '*' or '$';
      '$' is an anchor only as the last character; '^' is stripped before this. */
  function Tokens(re: string): seq<Token> {
    if re == "" then []
    else if |re| > 1 && re[1] == '*' then [Star(AtomOf(re[0]))] + Tokens(re[2..])
    else if re == "$" then [End]
    else [One(AtomOf(re[0]))] + Tokens(re[1..])
  }

  /** Token x describes the stretch i .. j of t. */
  ghost predicate Covers(x: Token, t: string, i: nat, j: nat)
    requires i <= j <= |t|
  {
    match x
    case One(a) => j == i + 1 && Accepts(a, t[i])
    case Star(a) => forall k :: i <= k < j ==> Accepts(a, t[k])
    case End => i == j == |t|
  }

  /** The stretch i .. j of t is in the language of the tokens: it can be cut into one stretch for
      each token. */
  ghost predicate InLang(ts: seq<Token>, t: string, i: nat, j: nat)
    requires i <= j <= |t|
    decreases |ts|
  {
    if ts == [] then i == j
    else exists k: nat :: i <= k <= j && Covers(ts[0], t, i, k) && InLang(ts[1..], t, k, j)
  }

  /** Some stretch starting at i is in the language. */
  ghost predicate Matchable(ts: seq<Token>, t: string, i: nat)
    requires i <= |t|
  {
    exists j: nat :: i <= j <= |t| && InLang(ts, t, i, j)
  }

  lemma OneTail(a: Atom, ts: seq<Token>, t: string, i: nat, j: nat)
    requires i <= j <= |t|
    ensures InLang([One(a)] + ts, t, i, j) <==> i < j && Accepts(a, t[i]) && InLang(ts, t, i + 1, j)
  {
    var us := [One(a)] + ts;
    assert us[1..] == ts && us[0] == One(a);
    if i < j && Accepts(a, t[i]) && InLang(ts, t, i + 1, j) {
      assert Covers(us[0], t, i, i + 1) && InLang(us[1..], t, i + 1, j);
    }
  }

  lemma StarTail(a: Atom, ts: seq<Token>, t: string, i: nat, k: nat, j: nat)
    requires i <= k <= j <= |t| && InLang(ts, t, k, j)
    requires forall m :: i <= m < k ==> Accepts(a, t[m])
    ensures InLang([Star(a)] + ts, t, i, j)
  {
    var us := [Star(a)] + ts;
    assert us[1..] == ts && Covers(us[0], t, i, k);
  }

  lemma StarHead(a: Atom, ts: seq<Token>, t: string, i: nat, j: nat) returns (k: nat)
    requires i <= j <= |t| && InLang([Star(a)] + ts, t, i, j)
    ensures i <= k <= j && InLang(ts, t, k, j) && forall m :: i <= m < k ==> Accepts(a, t[m])
  {
    var us := [Star(a)] + ts;
    assert us[1..] == ts;
    k :| i <= k <= j && Covers(us[0], t, i, k) && InLang(us[1..], t, k, j);
  }

  lemma OneMatchable(a: Atom, ts: seq<Token>, t: string, i: nat)
    requires i <= |t|
    ensures Matchable([One(a)] + ts, t, i) <==> i < |t| && Accepts(a, t[i]) && Matchable(ts, t, i + 1)
  {
    forall j: nat | i <= j <= |t| && InLang([One(a)] + ts, t, i, j)
      ensures i < |t| && Accepts(a, t[i]) && Matchable(ts, t, i + 1)
    {
      OneTail(a, ts, t, i, j);
      assert InLang(ts, t, i + 1, j);
    }
    if i < |t| && Accepts(a, t[i]) && Matchable(ts, t, i + 1) {
      var j: nat :| i + 1 <= j <= |t| && InLang(ts, t, i + 1, j);
      OneTail(a, ts, t, i, j);
    }
  }

  lemma EndAlone(t: string, i: nat, j: nat)
    requires i <= j <= |t|
    ensures InLang([End], t, i, j) <==> i == j == |t|
  {
    assert [End][1..] == [];
    if i == j == |t| { assert Covers([End][0], t, i, i) && InLang([End][1..], t, i, j); }
  }

  lemma EndMatchable(t: string, i: nat)
    requires i <= |t|
    ensures Matchable([End], t, i) <==> i == |t|
  {
    forall j: nat | i <= j <= |t| && InLang([End], t, i, j) ensures i == |t| { EndAlone(t, i, j); }
    if i == |t| {
      EndAlone(t, i, i);
      assert InLang([End], t, i, i);
    }
  }

  // ---------------------------------------------------------------- the deciding matcher

  /** match_here: does the pattern match at place i of t? */
  method MatchHere(re: string, t: string, i: nat) returns (r: bool)
    requires i <= |t|
    ensures r <==> Matchable(Tokens(re), t, i)
    decreases |re|, 0
  {
    if re == "" {
      assert InLang([], t, i, i);
      return true;
    }
    if |re| > 1 && re[1] == '*' {
      r := MatchStar(AtomOf(re[0]), re[2..], t, i);
      assert Tokens(re) == [Star(AtomOf(re[0]))] + Tokens(re[2..]);
      return;
    }
    if re == "$" {
      EndMatchable(t, i);
      assert Tokens(re) == [End];
      return i == |t|;
    }
    OneMatchable(AtomOf(re[0]), Tokens(re[1..]), t, i);
    if i < |t| && (re[0] == '.' || re[0] == t[i]) {
      r := MatchHere(re[1..], t, i + 1);
      return;
    }
    return false;
  }

  /** match_star: the closure of an atom followed by the rest of the pattern. */
  method MatchStar(a: Atom, re: string, t: string, i: nat) returns (r: bool)
    requires i <= |t|
    ensures r <==> Matchable([Star(a)] + Tokens(re), t, i)
    decreases |re|, 1
  {
    var p := i;
    while true
      invariant i <= p <= |t| && forall m :: i <= m < p ==> Accepts(a, t[m])
      invariant forall m: nat {:trigger Matchable(Tokens(re), t, m)} :: i <= m < p ==> !Matchable(Tokens(re), t, m)
      decreases |t| - p
    {
      var here := MatchHere(re, t, p);
      if here {
        ghost var j: nat :| p <= j <= |t| && InLang(Tokens(re), t, p, j);
        StarTail(a, Tokens(re), t, i, p, j);
        return true;
      }
      if p == |t| || !Accepts(a, t[p]) {
        forall j: nat | i <= j <= |t| ensures !InLang([Star(a)] + Tokens(re), t, i, j) {
          if InLang([Star(a)] + Tokens(re), t, i, j) {
            var k := StarHead(a, Tokens(re), t, i, j);
            assert Matchable(Tokens(re), t, k);
          }
        }
        return false;
      }
      p := p + 1;
    }
  }

  /** What the search of re_match looks for. */
  ghost predicate Found(re: string, t: string) {
    if re != "" && re[0] == '^' then Matchable(Tokens(re[1..]), t, 0)
    else exists i: nat :: i <= |t| && Matchable(Tokens(re), t, i)
  }

  /** match: a search for a match anywhere, unless the pattern starts with '^'. */
  method Match(re: string, t: string) returns (r: bool)
    ensures r <==> Found(re, t)
  {
    if re != "" && re[0] == '^' {
      r := MatchHere(re[1..], t, 0);
      return;
    }
    for i := 0 to |t| + 1
      invariant forall m: nat {:trigger Matchable(Tokens(re), t, m)} :: m < i ==> !Matchable(Tokens(re), t, m)
    {
      r := MatchHere(re, t, i);
      if r { return; }
    }
    return false;
  }

  // ---------------------------------------------------------------- the measuring matcher

  /** n is the greatest length of a stretch from i in the language, or -1 if there is none. */
  ghost predicate IsLongest(ts: seq<Token>, t: string, i: nat, n: int)
    requires i <= |t|
  {
    && -1 <= n <= |t| - i && (n >= 0 ==> InLang(ts, t, i, i + n))
    && forall j: nat {:trigger InLang(ts, t, i, j)} :: i <= j <= |t| && InLang(ts, t, i, j) ==> j - i <= n
  }

  lemma LongestUnique(ts: seq<Token>, t: string, i: nat, m: int, n: int)
    requires i <= |t| && IsLongest(ts, t, i, m) && IsLongest(ts, t, i, n)
    ensures m == n
  {}

  lemma LongestMatchable(ts: seq<Token>, t: string, i: nat, n: int)
    requires i <= |t| && IsLongest(ts, t, i, n)
    ensures n >= 0 <==> Matchable(ts, t, i)
  {}

  /** match_len: the length of the longest match at place i. It is non-negative exactly when
      match_here succeeds. */
  method MatchLen(re: string, t: string, i: nat) returns (n: int)
    requires i <= |t|
    ensures IsLongest(Tokens(re), t, i, n)
    ensures n >= 0 <==> Matchable(Tokens(re), t, i)
    decreases |re|, 0
  {
    if re == "" {
      assert InLang([], t, i, i);
      return 0;
    }
    if |re| > 1 && re[1] == '*' {
      n := LongestStar(AtomOf(re[0]), re[2..], t, i);
      LongestMatchable(Tokens(re), t, i, n);
      return;
    }
    if re == "$" {
      forall j: nat | i <= j <= |t| ensures InLang([End], t, i, j) <==> i == j == |t| { EndAlone(t, i, j); }
      return if i == |t| then 0 else -1;
    }
    forall j: nat | i <= j <= |t|
      ensures InLang(Tokens(re), t, i, j)
              <==> i < j && Accepts(AtomOf(re[0]), t[i]) && InLang(Tokens(re[1..]), t, i + 1, j)
    {
      OneTail(AtomOf(re[0]), Tokens(re[1..]), t, i, j);
    }
    if i < |t| && (re[0] == '.' || re[0] == t[i]) {
      var rest := MatchLen(re[1..], t, i + 1);
      if rest < 0 {
        return -1;
      }
      assert InLang(Tokens(re), t, i, i + (rest + 1));
      return rest + 1;
    }
    return -1;
  }

  /** best is the longest match of the closure that uses fewer than used repetitions. */
  ghost predicate BestSoFar(a: Atom, ts: seq<Token>, t: string, i: nat, used: nat, best: int)
    requires i + used <= |t| + 1
  {
    && -1 <= best <= |t| - i && (best >= 0 ==> InLang([Star(a)] + ts, t, i, i + best))
    && forall k: nat, j: nat {:trigger InLang(ts, t, k, j)} ::
         i <= k < i + used && k <= j <= |t| && InLang(ts, t, k, j) ==> j - i <= best
  }

  lemma BestStep(a: Atom, ts: seq<Token>, t: string, i: nat, used: nat, best: int, rest: int)
    requires i + used <= |t| && BestSoFar(a, ts, t, i, used, best) && IsLongest(ts, t, i + used, rest)
    requires forall m :: i <= m < i + used ==> Accepts(a, t[m])
    ensures BestSoFar(a, ts, t, i, used + 1,
                      if rest >= 0 && (best < 0 || used + rest > best) then used + rest else best)
  {
    if rest >= 0 { StarTail(a, ts, t, i, i + used, i + used + rest); }
  }

  lemma BestDone(a: Atom, ts: seq<Token>, t: string, i: nat, used: nat, best: int)
    requires i + used <= |t| && BestSoFar(a, ts, t, i, used + 1, best)
    requires i + used == |t| || !Accepts(a, t[i + used])
    ensures IsLongest([Star(a)] + ts, t, i, best)
  {}

  /** The closure case of match_len: tries every number of repetitions. */
  method LongestStar(a: Atom, re: string, t: string, i: nat) returns (best: int)
    requires i <= |t|
    ensures IsLongest([Star(a)] + Tokens(re), t, i, best)
    decreases |re|, 1
  {
    best := -1;
    var used := 0;
    while true
      invariant i + used <= |t| && forall m :: i <= m < i + used ==> Accepts(a, t[m])
      invariant BestSoFar(a, Tokens(re), t, i, used, best)
      decreases |t| - used
    {
      var rest := MatchLen(re, t, i + used);
      BestStep(a, Tokens(re), t, i, used, best, rest);
      if rest >= 0 && (best < 0 || used + rest > best) {
        best := used + rest;
      }
      if i + used == |t| || !Accepts(a, t[i + used]) {
        BestDone(a, Tokens(re), t, i, used, best);
        return;
      }
      used := used + 1;
    }
  }

  // ---------------------------------------------------------------- the scanners

  /** The pattern as match_at uses it: one leading '^' is dropped, wherever the match is tried. */
  function Stripped(re: string): string {
    if re != "" && re[0] == '^' then re[1..] else re
  }

  method MatchAt(re: string, t: string, i: nat) returns (n: int)
    requires i <= |t|
    ensures IsLongest(Tokens(Stripped(re)), t, i, n)
    ensures n >= 0 <==> Matchable(Tokens(Stripped(re)), t, i)
  {
    n := MatchLen(Stripped(re), t, i);
  }

  /** A match: where it starts and how long it is. */
  datatype Hit = Hit(start: nat, len: nat) {
    /** How far the scan moves: an empty match still advances by one. */
    function Next(): nat {
      start + if len == 0 then 1 else len
    }
  }

  ghost predicate Covered(hits: seq<Hit>, p: nat) {
    exists h :: 0 <= h < |hits| && hits[h].start <= p < hits[h].Next()
  }

  /** The hits of a leftmost, longest, non-overlapping scan of the places i .. e - 1 of t: they are
      in order and apart, each is the longest match at its place, and no match starts at a place
      that no hit covers. */
  ghost predicate Scan(ts: seq<Token>, t: string, i: nat, e: nat, hits: seq<Hit>) {
    && e <= |t|
    && (forall h :: 0 <= h < |hits| ==> i <= hits[h].start < hits[h].Next() <= e)
    && (forall h :: 0 <= h < |hits| ==> IsLongest(ts, t, hits[h].start, hits[h].len))
    && (forall g, h :: 0 <= g < h < |hits| ==> hits[g].Next() <= hits[h].start)
    && (forall p: nat {:trigger Matchable(ts, t, p)} :: i <= p < e && Matchable(ts, t, p) ==> Covered(hits, p))
  }

  ghost predicate StartsHit(hits: seq<Hit>, p: nat) {
    exists h :: 0 <= h < |hits| && hits[h].start == p
  }

  ghost predicate InsideHit(hits: seq<Hit>, p: nat) {
    exists h :: 0 <= h < |hits| && hits[h].start < p < hits[h].start + hits[h].len
  }

  /** A hit starts wherever the pattern can match, but for the places inside an earlier hit. */
  lemma HitsExactly(ts: seq<Token>, t: string, hits: seq<Hit>, p: nat)
    requires Scan(ts, t, 0, |t|, hits) && p < |t|
    ensures StartsHit(hits, p) <==> Matchable(ts, t, p) && !InsideHit(hits, p)
  {
    if h :| 0 <= h < |hits| && hits[h].start == p {
      LongestMatchable(ts, t, p, hits[h].len);
    }
    if Matchable(ts, t, p) && !InsideHit(hits, p) {
      assert Covered(hits, p);
    }
  }

  lemma ScanMiss(ts: seq<Token>, t: string, i: nat, e: nat, hits: seq<Hit>)
    requires i < e && Scan(ts, t, i, e, hits) && !Matchable(ts, t, i)
    ensures Scan(ts, t, i + 1, e, hits)
  {}

  lemma ScanTail(ts: seq<Token>, t: string, i: nat, e: nat, hits: seq<Hit>)
    requires i < e && Scan(ts, t, i, e, hits) && Matchable(ts, t, i)
    ensures hits != [] && hits[0].start == i && Scan(ts, t, hits[0].Next(), e, hits[1..])
  {}

  /** There is only one such scan. */
  lemma {:induction false} ScanUnique(ts: seq<Token>, t: string, i: nat, e: nat, a: seq<Hit>, b: seq<Hit>)
    requires i <= e && Scan(ts, t, i, e, a) && Scan(ts, t, i, e, b)
    ensures a == b
    decreases e - i
  {
    if i == e {
    } else {
      if Matchable(ts, t, i) {
        ScanTail(ts, t, i, e, a);
        ScanTail(ts, t, i, e, b);
        LongestUnique(ts, t, i, a[0].len, b[0].len);
        ScanUnique(ts, t, a[0].Next(), e, a[1..], b[1..]);
        assert a == [a[0]] + a[1..] && b == [b[0]] + b[1..];
      } else {
        ScanMiss(ts, t, i, e, a);
        ScanMiss(ts, t, i, e, b);
        ScanUnique(ts, t, i + 1, e, a, b);
      }
    }
  }

  /** The scan goes on: no match at place e ... */
  lemma ScanOnMiss(ts: seq<Token>, t: string, e: nat, hits: seq<Hit>)
    requires e < |t| && Scan(ts, t, 0, e, hits) && !Matchable(ts, t, e)
    ensures Scan(ts, t, 0, e + 1, hits)
  {}

  /** ... or a match of length n. */
  lemma ScanOnHit(ts: seq<Token>, t: string, e: nat, hits: seq<Hit>, n: nat)
    requires e < |t| && Scan(ts, t, 0, e, hits) && IsLongest(ts, t, e, n)
    ensures Scan(ts, t, 0, Hit(e, n).Next(), hits + [Hit(e, n)])
  {
    var more := hits + [Hit(e, n)];
    forall p: nat | p < Hit(e, n).Next() && Matchable(ts, t, p) ensures Covered(more, p) {
      if p < e {
        var h :| 0 <= h < |hits| && hits[h].start <= p < hits[h].Next();
        assert more[h].start <= p < more[h].Next();
      } else {
        assert more[|hits|].start <= p < more[|hits|].Next();
      }
    }
  }

  /** The hits lie in order inside 0 .. e. */
  ghost predicate Laid(hits: seq<Hit>, e: nat) {
    && (forall h :: 0 <= h < |hits| ==> hits[h].start + hits[h].len <= e)
    && (forall g, h :: 0 <= g < h < |hits| ==> hits[g].start + hits[g].len <= hits[h].start)
  }

  /** The matched substrings. */
  ghost function Texts(t: string, hits: seq<Hit>): seq<string>
    requires Laid(hits, |t|)
  {
    seq(|hits|, h requires 0 <= h < |hits| => t[hits[h].start..hits[h].start + hits[h].len])
  }

  /** t up to e with each hit replaced by its word. */
  ghost function Interleave(t: string, hits: seq<Hit>, words: seq<string>, e: nat): string
    requires |words| == |hits| && e <= |t| && Laid(hits, e)
    decreases |hits|
  {
    if hits == [] then t[..e]
    else
      var n := |hits| - 1;
      Interleave(t, hits[..n], words[..n], hits[n].start) + words[n] + t[hits[n].start + hits[n].len..e]
  }

  /** Putting the matched substrings back gives the text: it is the gaps interleaved with them. */
  lemma {:induction false} InterleaveTexts(t: string, hits: seq<Hit>, words: seq<string>, e: nat)
    requires e <= |t| && Laid(hits, e) && words == Texts(t, hits)
    ensures Interleave(t, hits, words, e) == t[..e]
    decreases |hits|
  {
    if hits == [] {
    } else {
      var n := |hits| - 1;
      var a, b := hits[n].start, hits[n].start + hits[n].len;
      assert words[..n] == Texts(t, hits[..n]) && words[n] == t[a..b];
      InterleaveTexts(t, hits[..n], words[..n], a);
      assert Interleave(t, hits, words, e) == Interleave(t, hits[..n], words[..n], a) + words[n] + t[b..e];
      assert t[..a] + t[a..b] + t[b..e] == t[..e];
    }
  }

  lemma InterleaveGap(t: string, hits: seq<Hit>, words: seq<string>, e: nat)
    requires |words| == |hits| && e < |t| && Laid(hits, e)
    ensures Interleave(t, hits, words, e + 1) == Interleave(t, hits, words, e) + [t[e]]
  {}

  lemma InterleaveHit(t: string, hits: seq<Hit>, words: seq<string>, e: nat, n: nat, w: string)
    requires |words| == |hits| && e + n <= |t| && Laid(hits, e)
    ensures Laid(hits + [Hit(e, n)], e + n)
    ensures Interleave(t, hits + [Hit(e, n)], words + [w], e + n) == Interleave(t, hits, words, e) + w
  {}

  /** The C arguments: a string object or anything else. */
  datatype Arg = Str(s: string) | NotStr

  method ReMatch(pattern: Arg, text: Arg) returns (r: bool)
    ensures r <==> pattern.Str? && text.Str? && Found(pattern.s, text.s)
  {
    if !pattern.Str? || !text.Str? {
      return false;
    }
    r := Match(pattern.s, text.s);
  }

  method ReFindAll(pattern: Arg, text: Arg) returns (r: Outcome<seq<string>>, ghost hits: seq<Hit>)
    ensures r.Done? <==> pattern.Str? && text.Str?
    ensures r.Done? ==> Scan(Tokens(Stripped(pattern.s)), text.s, 0, |text.s|, hits) && Laid(hits, |text.s|)
    ensures r.Done? ==> r.value == Texts(text.s, hits)
  {
    hits := [];
    if !pattern.Str? || !text.Str? {
      r := Error("re_findall expects two strings");
      return;
    }
    var re, t, out, p := pattern.s, text.s, [], 0;
    while p < |t|
      invariant FoundSoFar(Tokens(Stripped(re)), t, p, hits, out)
    {
      var n := MatchAt(re, t, p);
      if n >= 0 {
        FindHit(Tokens(Stripped(re)), t, p, hits, out, n);
        hits := hits + [Hit(p, n)];
        out := out + [t[p..p + n]];
        if n == 0 { p := p + 1; } else { p := p + n; }
      } else {
        ScanOnMiss(Tokens(Stripped(re)), t, p, hits);
        p := p + 1;
      }
    }
    r := Done(out);
  }

  /** What the loop of re_findall keeps. */
  ghost predicate FoundSoFar(ts: seq<Token>, t: string, p: nat, hits: seq<Hit>, out: seq<string>) {
    Scan(ts, t, 0, p, hits) && Laid(hits, |t|) && out == Texts(t, hits)
  }

  lemma FindHit(ts: seq<Token>, t: string, p: nat, hits: seq<Hit>, out: seq<string>, n: nat)
    requires p < |t| && FoundSoFar(ts, t, p, hits, out) && IsLongest(ts, t, p, n)
    ensures FoundSoFar(ts, t, Hit(p, n).Next(), hits + [Hit(p, n)], out + [t[p..p + n]])
  {
    ScanOnHit(ts, t, p, hits, n);
    ScanLaid(ts, t, Hit(p, n).Next(), hits + [Hit(p, n)]);
  }

  lemma ScanLaid(ts: seq<Token>, t: string, e: nat, hits: seq<Hit>)
    requires Scan(ts, t, 0, e, hits)
    ensures Laid(hits, e)
  {}

  /** The same word for every hit. */
  ghost function Repeated(w: string, n: nat): seq<string> {
    seq(n, _ => w)
  }

  method ReSub(pattern: Arg, repl: Arg, text: Arg) returns (r: Outcome<string>, ghost hits: seq<Hit>)
    ensures r.Done? <==> pattern.Str? && text.Str?
    ensures r.Done? ==> Scan(Tokens(Stripped(pattern.s)), text.s, 0, |text.s|, hits) && Laid(hits, |text.s|)
    ensures r.Done? ==>
              r.value == Interleave(text.s, hits, Repeated(if repl.Str? then repl.s else "", |hits|), |text.s|)
  {
    hits := [];
    if !pattern.Str? || !text.Str? {
      r := Error("re_sub expects three strings");
      return;
    }
    var w := if repl.Str? then repl.s else "";
    var re, t, out, p := pattern.s, text.s, "", 0;
    while p < |t|
      invariant ReplacedSoFar(Tokens(Stripped(re)), t, p, hits, w, out)
      decreases |t| - p
    {
      p, out, hits := SubStep(re, w, t, p, out, hits);
    }
    r := Done(out);
  }

  /** One round of re_sub's loop: the match at place p, if any, is replaced. */
  method SubStep(re: string, w: string, t: string, p: nat, out: string, ghost hits: seq<Hit>)
    returns (p': nat, out': string, ghost hits': seq<Hit>)
    requires p < |t| && ReplacedSoFar(Tokens(Stripped(re)), t, p, hits, w, out)
    ensures p < p' && ReplacedSoFar(Tokens(Stripped(re)), t, p', hits', w, out')
  {
    ghost var ts := Tokens(Stripped(re));
    var n := MatchAt(re, t, p);
    if n >= 0 {
      ReplaceHit(ts, t, p, hits, w, out, n);
      hits' := hits + [Hit(p, n)];
      out' := out + w;
      if n == 0 {
        out' := out' + [t[p]];
        p' := p + 1;
      } else {
        p' := p + n;
      }
      assert p' == Hit(p, n).Next();
    } else {
      ReplaceMiss(ts, t, p, hits, w, out);
      hits' := hits;
      out' := out + [t[p]];
      p' := p + 1;
    }
  }

  /** What the loop of re_sub keeps. */
  ghost predicate ReplacedSoFar(ts: seq<Token>, t: string, p: nat, hits: seq<Hit>, w: string, out: string) {
    Scan(ts, t, 0, p, hits) && Laid(hits, p) && out == Interleave(t, hits, Repeated(w, |hits|), p)
  }

  /** Going on without a match at place p ... */
  lemma ReplaceMiss(ts: seq<Token>, t: string, p: nat, hits: seq<Hit>, w: string, out: string)
    requires p < |t| && ReplacedSoFar(ts, t, p, hits, w, out) && !Matchable(ts, t, p)
    ensures ReplacedSoFar(ts, t, p + 1, hits, w, out + [t[p]])
  {}

  /** ... or with a match of length n. */
  lemma ReplaceHit(ts: seq<Token>, t: string, p: nat, hits: seq<Hit>, w: string, out: string, n: nat)
    requires p < |t| && ReplacedSoFar(ts, t, p, hits, w, out) && IsLongest(ts, t, p, n)
    ensures ReplacedSoFar(ts, t, Hit(p, n).Next(), hits + [Hit(p, n)], w, if n == 0 then out + w + [t[p]] else out + w)
  {
    var more := hits + [Hit(p, n)];
    ScanOnHit(ts, t, p, hits, n);
    InterleaveHit(t, hits, Repeated(w, |hits|), p, n, w);
    assert Repeated(w, |hits|) + [w] == Repeated(w, |more|);
    if n == 0 { InterleaveGap(t, more, Repeated(w, |more|), p); }
  }

  // ---------------------------------------------------------------- scanning against searching

  /** Only closures and anchors: such a pattern matches the empty rest at the end of any text. */
  predicate Nullable(ts: seq<Token>) {
    forall x :: x in ts ==> !x.One?
  }

  lemma {:induction false} MatchableAtEnd(ts: seq<Token>, t: string)
    ensures Matchable(ts, t, |t|) <==> Nullable(ts)
  {
    NullableAtEnd(ts, t);
    assert Matchable(ts, t, |t|) <==> InLang(ts, t, |t|, |t|);
  }

  lemma {:induction false} NullableAtEnd(ts: seq<Token>, t: string)
    ensures InLang(ts, t, |t|, |t|) <==> Nullable(ts)
  {
    if ts == [] {
    } else {
      NullableAtEnd(ts[1..], t);
      assert InLang(ts, t, |t|, |t|) <==> Covers(ts[0], t, |t|, |t|) && InLang(ts[1..], t, |t|, |t|);
      assert ts == [ts[0]] + ts[1..];
    }
  }

  lemma ScanFinds(ts: seq<Token>, t: string, hits: seq<Hit>)
    requires Scan(ts, t, 0, |t|, hits)
    ensures hits != [] <==> exists p: nat :: p < |t| && Matchable(ts, t, p)
  {
    if hits != [] {
      LongestMatchable(ts, t, hits[0].start, hits[0].len);
    }
    if p: nat :| p < |t| && Matchable(ts, t, p) {
      assert Covered(hits, p);
    }
  }

  /** For a pattern without '^': the scanners find something exactly when the search does, except
      that they never try the end of the text, where only a nullable pattern can match. */
  lemma SearchAgainstScan(re: string, t: string, hits: seq<Hit>)
    requires re == "" || re[0] != '^'
    requires Scan(Tokens(Stripped(re)), t, 0, |t|, hits)
    ensures Found(re, t) <==> hits != [] || Nullable(Tokens(re))
    ensures (Found(re, t) <==> hits != []) <==> (Nullable(Tokens(re)) ==> hits != [])
  {
    ScanFinds(Tokens(re), t, hits);
    MatchableAtEnd(Tokens(re), t);
  }

  /** After a failed search of such a pattern there are no matches and re_sub changes nothing. */
  lemma FailedSearch(re: string, t: string, hits: seq<Hit>, w: string)
    requires (re == "" || re[0] != '^') && !Found(re, t)
    requires Scan(Tokens(Stripped(re)), t, 0, |t|, hits)
    ensures hits == [] && Interleave(t, hits, Repeated(w, |hits|), |t|) == t
  {
    SearchAgainstScan(re, t, hits);
    assert t[..|t|] == t;
  }

  /** A lone '$' is found by the search in every text and by the scanners in none. */
  lemma DollarOnlySearched(t: string, hits: seq<Hit>)
    requires Scan(Tokens(Stripped("$")), t, 0, |t|, hits)
    ensures Found("$", t) && hits == []
  {
    SearchAgainstScan("$", t, hits);
    forall p: nat | p < |t| ensures !Matchable([End], t, p) {
      forall j: nat | p <= j <= |t| ensures !InLang([End], t, p, j) { EndAlone(t, p, j); }
    }
    ScanFinds([End], t, hits);
  }

  /** With a leading '^' the scanners look everywhere, as if it were not there: on "ab" the pattern
      "^b" is not found by the search but is by the scan. */
  lemma CaretScansEverywhere()
    ensures !Found("^b", "ab") && Scan(Tokens(Stripped("^b")), "ab", 0, 2, [Hit(1, 1)])
  {
    var ts := Tokens("b");
    assert Stripped("^b") == "b" && "^b"[1..] == "b" && "b"[1..] == "";
    assert ts == [One(Exactly('b'))] + [];
    forall i: nat, j: nat | i <= j <= 2 ensures InLang(ts, "ab", i, j) <==> i == 1 && j == 2 {
      OneTail(Exactly('b'), [], "ab", i, j);
    }
    assert InLang(ts, "ab", 1, 2);
    forall j: nat | j <= 2 ensures !InLang(ts, "ab", 0, j) {}
    assert [Hit(1, 1)][0].start <= 1 < [Hit(1, 1)][0].Next();
    assert Covered([Hit(1, 1)], 1);
  }

  /** Place p lies inside the longest match at the start. */
  ghost predicate InsideFirst(ts: seq<Token>, t: string, p: nat) {
    exists n: nat :: IsLongest(ts, t, 0, n) && p < n
  }

  ghost predicate NoneBehindFirst(ts: seq<Token>, t: string) {
    forall p: nat {:trigger Matchable(ts, t, p)} :: 0 < p < |t| && Matchable(ts, t, p) ==> InsideFirst(ts, t, p)
  }

  ghost predicate OnlyAtStart(hits: seq<Hit>) {
    forall h :: 0 <= h < |hits| ==> hits[h].start == 0
  }

  /** The scanners honour '^', reporting at most a match at the very start, exactly when no place
      behind that match is matchable. */
  lemma CaretHonoured(re: string, t: string, hits: seq<Hit>)
    requires re != "" && re[0] == '^' && Scan(Tokens(Stripped(re)), t, 0, |t|, hits)
    ensures OnlyAtStart(hits) <==> NoneBehindFirst(Tokens(re[1..]), t)
  {
    var ts := Tokens(re[1..]);
    if OnlyAtStart(hits) {
      forall p: nat {:trigger Matchable(ts, t, p)} | 0 < p < |t| && Matchable(ts, t, p) ensures InsideFirst(ts, t, p) {
        assert Covered(hits, p);
        var h :| 0 <= h < |hits| && hits[h].start <= p < hits[h].Next();
        assert IsLongest(ts, t, 0, hits[h].len);
      }
    } else {
      var h :| 0 <= h < |hits| && hits[h].start != 0;
      HitBehindFirst(ts, t, hits, h);
    }
  }

  lemma HitBehindFirst(ts: seq<Token>, t: string, hits: seq<Hit>, h: nat)
    requires Scan(ts, t, 0, |t|, hits) && h < |hits| && hits[h].start != 0
    ensures !NoneBehindFirst(ts, t)
  {
    var p := hits[h].start;
    LongestMatchable(ts, t, p, hits[h].len);
    if NoneBehindFirst(ts, t) {
      assert InsideFirst(ts, t, p);
      var n: nat :| IsLongest(ts, t, 0, n) && p < n;
      FirstHit(ts, t, hits, n, h);
    }
  }

  /** Every hit but one at the start lies behind the match at the start. */
  lemma FirstHit(ts: seq<Token>, t: string, hits: seq<Hit>, n: nat, h: nat)
    requires Scan(ts, t, 0, |t|, hits) && IsLongest(ts, t, 0, n) && h < |hits| && hits[h].start != 0
    ensures n <= hits[h].start
  {
    LongestMatchable(ts, t, 0, n);
    ScanTail(ts, t, 0, |t|, hits);
    LongestUnique(ts, t, 0, n, hits[0].len);
  }
}
