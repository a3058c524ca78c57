/** What can be read off a pattern (src/abs_regex.c): when the search of re_match asks for the whole
    text, and when the scanners honour a leading '^'. */
module RegexPatterns {
  import opened Regex

  predicate IsLiteral(x: Token) {
    x.One? && x.a.Exactly?
  }

  predicate NoLiteral(ts: seq<Token>) {
    forall x :: x in ts ==> !IsLiteral(x)
  }

  /** ".*" stands before the first literal character, or anywhere if there is none. */
  predicate StarsOpen(ts: seq<Token>) {
    ts != [] && (ts[0] == Star(Any) || (!IsLiteral(ts[0]) && StarsOpen(ts[1..])))
  }

  /** The last token is the anchor, or ".*" stands behind the last literal character, or anywhere if
      there is none. */
  predicate StarsClose(ts: seq<Token>) {
    ts != [] && (ts == [End] || (ts[0] == Star(Any) && NoLiteral(ts[1..])) || StarsClose(ts[1..]))
  }

  predicate HasCaret(re: string) {
    re != "" && re[0] == '^'
  }

  predicate Opens(re: string) {
    HasCaret(re) || StarsOpen(Tokens(re))
  }

  predicate Closes(re: string) {
    StarsClose(Tokens(Stripped(re)))
  }

  /** A pattern has the anchor at most as its last token. */
  predicate EndLast(ts: seq<Token>) {
    |ts| <= 1 || (ts[0] != End && EndLast(ts[1..]))
  }

  lemma {:induction false} TokensEndLast(re: string)
    ensures EndLast(Tokens(re))
  {
    if re == "" {
    } else if |re| > 1 && re[1] == '*' {
      TokensEndLast(re[2..]);
      assert Tokens(re)[1..] == Tokens(re[2..]);
    } else if re != "$" {
      TokensEndLast(re[1..]);
      assert Tokens(re)[1..] == Tokens(re[1..]);
    }
  }

  // ---------------------------------------------------------------- moving the ends of a match

  /** A match of an opening pattern can start at any earlier place. */
  lemma {:induction false} StretchLeft(ts: seq<Token>, t: string, p: nat, i: nat, j: nat)
    requires EndLast(ts) && StarsOpen(ts) && p <= i <= j <= |t| && InLang(ts, t, i, j)
    ensures InLang(ts, t, p, j)
  {
    var k: nat :| i <= k <= j && Covers(ts[0], t, i, k) && InLang(ts[1..], t, k, j);
    if ts[0] == Star(Any) {
      assert Covers(ts[0], t, p, k);
    } else if ts[0].One? {
      StretchLeft(ts[1..], t, p + 1, k, j);
      assert Covers(ts[0], t, p, p + 1);
    } else {
      StretchLeft(ts[1..], t, p, k, j);
      assert Covers(ts[0], t, p, p);
    }
  }

  /** How many characters the tokens need. */
  function Needs(ts: seq<Token>): nat {
    if ts == [] then 0 else (if ts[0].One? then 1 else 0) + Needs(ts[1..])
  }

  lemma {:induction false} NeedsRoom(ts: seq<Token>, t: string, i: nat, j: nat)
    requires i <= j <= |t| && InLang(ts, t, i, j)
    ensures i + Needs(ts) <= j
  {
    if ts == [] {
    } else {
      var k: nat :| i <= k <= j && Covers(ts[0], t, i, k) && InLang(ts[1..], t, k, j);
      NeedsRoom(ts[1..], t, k, j);
    }
  }

  /** Without literals the last so many characters will do. */
  lemma {:induction false} FitsAtEnd(ts: seq<Token>, t: string)
    requires EndLast(ts) && NoLiteral(ts) && Needs(ts) <= |t|
    ensures InLang(ts, t, |t| - Needs(ts), |t|)
  {
    if ts == [] {
    } else {
      FitsAtEnd(ts[1..], t);
      assert ts[0] in ts && forall x :: x in ts[1..] ==> x in ts;
      assert ts[0] == End ==> ts[1..] == [];
      assert Covers(ts[0], t, |t| - Needs(ts), |t| - Needs(ts[1..]));
    }
  }

  /** A match of a closing pattern can run to the end of the text. */
  lemma {:induction false} StretchRight(ts: seq<Token>, t: string, i: nat, j: nat)
    requires EndLast(ts) && StarsClose(ts) && i <= j <= |t| && InLang(ts, t, i, j)
    ensures InLang(ts, t, i, |t|)
  {
    var k: nat :| i <= k <= j && Covers(ts[0], t, i, k) && InLang(ts[1..], t, k, j);
    if ts == [End] {
      EndAlone(t, i, j);
    } else if StarsClose(ts[1..]) {
      StretchRight(ts[1..], t, k, j);
    } else {
      NeedsRoom(ts[1..], t, k, j);
      FitsAtEnd(ts[1..], t);
      assert Covers(ts[0], t, i, |t| - Needs(ts[1..]));
    }
  }

  // ---------------------------------------------------------------- a text for a pattern

  function Witness(a: Atom): char {
    if a.Any? then 'x' else a.c
  }

  /** A text the tokens describe. */
  function Sample(ts: seq<Token>): string {
    if ts == [] || ts[0] == End then "" else [Witness(ts[0].a)] + Sample(ts[1..])
  }

  /** A sample is matched wherever it stands, in front of more text if there is no anchor. */
  lemma {:induction false} SampleMatches(ts: seq<Token>, before: string, behind: string)
    requires EndLast(ts) && (behind == "" || End !in ts)
    ensures var t := before + Sample(ts) + behind;
            InLang(ts, t, |before|, |before| + |Sample(ts)|)
  {
    var t, i, j := before + Sample(ts) + behind, |before|, |before| + |Sample(ts)|;
    if ts == [] {
    } else if ts[0] == End {
      EndAlone(t, i, j);
    } else {
      var c := Witness(ts[0].a);
      SampleMatches(ts[1..], before + [c], behind);
      assert before + [c] + Sample(ts[1..]) + behind == t;
      assert Covers(ts[0], t, i, i + 1) && InLang(ts[1..], t, i + 1, j);
    }
  }

  // ---------------------------------------------------------------- padding

  /** Two characters in turn. */
  function Pad(u: char, v: char, n: nat): string {
    seq(n, k => if k % 2 == 0 then u else v)
  }

  /** The first literal, if any, is neither of the two. */
  predicate FirstAvoids(ts: seq<Token>, u: char, v: char) {
    ts != [] ==> if IsLiteral(ts[0]) then ts[0].a.c != u && ts[0].a.c != v else FirstAvoids(ts[1..], u, v)
  }

  /** The last literal, if any, is neither of the two. */
  predicate LastAvoids(ts: seq<Token>, u: char, v: char) {
    ts != [] ==>
      && (IsLiteral(ts[0]) && NoLiteral(ts[1..]) ==> ts[0].a.c != u && ts[0].a.c != v)
      && LastAvoids(ts[1..], u, v)
  }

  lemma TwoOthers(c: char) returns (u: char, v: char)
    ensures u != v && u != c && v != c
  {
    u := if c == 'a' then 'c' else 'a';
    v := if c == 'b' then 'c' else 'b';
  }

  lemma {:induction false} PadForFirst(ts: seq<Token>) returns (u: char, v: char)
    ensures u != v && FirstAvoids(ts, u, v)
  {
    if ts == [] {
      u, v := 'a', 'b';
    } else if IsLiteral(ts[0]) {
      u, v := TwoOthers(ts[0].a.c);
    } else {
      u, v := PadForFirst(ts[1..]);
    }
  }

  lemma {:induction false} NoneToAvoid(ts: seq<Token>, u: char, v: char)
    requires NoLiteral(ts)
    ensures LastAvoids(ts, u, v)
  {
    if ts == [] {
    } else {
      assert ts[0] in ts;
      NoneToAvoid(ts[1..], u, v);
    }
  }

  lemma {:induction false} PadForLast(ts: seq<Token>) returns (u: char, v: char)
    ensures u != v && LastAvoids(ts, u, v)
  {
    if ts == [] {
      u, v := 'a', 'b';
    } else if IsLiteral(ts[0]) && NoLiteral(ts[1..]) {
      u, v := TwoOthers(ts[0].a.c);
      NoneToAvoid(ts[1..], u, v);
    } else {
      u, v := PadForLast(ts[1..]);
    }
  }

  /** The text has the padding at places b .. e - 1. */
  ghost predicate Padded(t: string, b: nat, e: nat, u: char, v: char) {
    u != v && e <= |t| && forall k :: b <= k < e ==> t[k] == if (k - b) % 2 == 0 then u else v
  }

  lemma Turns(t: string, b: nat, e: nat, u: char, v: char, k: nat)
    requires Padded(t, b, e, u, v) && b <= k && k + 1 < e
    ensures t[k] != t[k + 1]
  {}

  /** Of a padding a pattern that does not open gets through no more places than it has tokens, and
      past no literal. */
  lemma {:induction false} StuckInFront(ts: seq<Token>, t: string, m: nat, p: nat, j: nat, u: char, v: char)
    requires !StarsOpen(ts) && FirstAvoids(ts, u, v) && Padded(t, 0, m, u, v)
    requires p <= j <= |t| && p + |ts| < m && InLang(ts, t, p, j)
    ensures NoLiteral(ts) && j <= p + |ts|
  {
    if ts == [] {
    } else {
      var k: nat :| p <= k <= j && Covers(ts[0], t, p, k) && InLang(ts[1..], t, k, j);
      Turns(t, 0, m, u, v, p);
      StuckInFront(ts[1..], t, m, k, j, u, v);
      assert ts == [ts[0]] + ts[1..];
    }
  }

  /** The same from behind. */
  lemma {:induction false} StuckBehind(ts: seq<Token>, t: string, b: nat, i: nat, u: char, v: char)
    requires EndLast(ts) && !StarsClose(ts) && LastAvoids(ts, u, v) && Padded(t, b, |t|, u, v)
    requires i <= |t| && b + |ts| < |t| && InLang(ts, t, i, |t|)
    ensures NoLiteral(ts) && |t| <= i + |ts|
  {
    if ts == [] {
    } else {
      var k: nat :| i <= k <= |t| && Covers(ts[0], t, i, k) && InLang(ts[1..], t, k, |t|);
      StuckBehind(ts[1..], t, b, k, u, v);
      Turns(t, b, |t|, u, v, k - 2);
      assert ts == [ts[0]] + ts[1..];
    }
  }

  // ---------------------------------------------------------------- the whole text

  ghost predicate AsksForWholeText(re: string) {
    forall t :: Found(re, t) <==> InLang(Tokens(Stripped(re)), t, 0, |t|)
  }

  /** The search reports that the whole text matches exactly for patterns that open and close. */
  lemma WholeTextExactly(re: string)
    ensures AsksForWholeText(re) <==> Opens(re) && Closes(re)
  {
    TokensEndLast(Stripped(re));
    if !Opens(re) {
      NotOpening(re);
    } else if !Closes(re) {
      NotClosing(re);
    } else {
      forall t ensures Found(re, t) <==> InLang(Tokens(Stripped(re)), t, 0, |t|) { FoundIsWhole(re, t); }
    }
  }

  lemma FoundIsWhole(re: string, t: string)
    requires Opens(re) && Closes(re)
    ensures Found(re, t) <==> InLang(Tokens(Stripped(re)), t, 0, |t|)
  {
    var ts := Tokens(Stripped(re));
    TokensEndLast(Stripped(re));
    if Found(re, t) {
      var i: nat :| i <= |t| && Matchable(ts, t, i) && (HasCaret(re) ==> i == 0);
      var j: nat :| i <= j <= |t| && InLang(ts, t, i, j);
      if !HasCaret(re) { StretchLeft(ts, t, 0, i, j); }
      StretchRight(ts, t, 0, j);
    }
    if InLang(ts, t, 0, |t|) { assert Matchable(ts, t, 0); }
  }

  /** A pattern that does not open is found behind a padding it does not describe. */
  lemma NotOpening(re: string)
    requires !Opens(re)
    ensures !AsksForWholeText(re)
  {
    var ts := Tokens(re);
    TokensEndLast(re);
    var t, m := PaddedInFront(ts, "");
    assert Found(re, t);
    if InLang(ts, t, 0, |t|) {
      var u, v :| FirstAvoids(ts, u, v) && Padded(t, 0, m, u, v);
      StuckInFront(ts, t, m, 0, |t|, u, v);
      assert false;
    }
  }

  /** The sample of a pattern behind a padding longer than the pattern. */
  lemma PaddedInFront(ts: seq<Token>, behind: string) returns (t: string, m: nat)
    requires EndLast(ts) && (behind == "" || End !in ts)
    ensures |ts| < m <= |t| == m + |Sample(ts)| + |behind| && Matchable(ts, t, m)
    ensures exists u, v :: FirstAvoids(ts, u, v) && Padded(t, 0, m, u, v)
  {
    var u, v := PadForFirst(ts);
    m := |ts| + 1;
    t := Pad(u, v, m) + Sample(ts) + behind;
    SampleMatches(ts, Pad(u, v, m), behind);
    assert InLang(ts, t, m, m + |Sample(ts)|);
    assert Padded(t, 0, m, u, v);
  }

  lemma {:induction false} NoAnchor(ts: seq<Token>)
    requires EndLast(ts) && !StarsClose(ts)
    ensures End !in ts
  {
    if ts == [] {
    } else {
      NoAnchor(ts[1..]);
      assert ts == [ts[0]] + ts[1..];
    }
  }

  /** A pattern that does not close is found in front of a padding it does not describe. */
  lemma NotClosing(re: string)
    requires !Closes(re)
    ensures !AsksForWholeText(re)
  {
    var ts := Tokens(Stripped(re));
    TokensEndLast(Stripped(re));
    NoAnchor(ts);
    var u, v := PadForLast(ts);
    var s, pad := Sample(ts), Pad(u, v, |ts| + 1);
    var t := "" + s + pad;
    SampleMatches(ts, "", pad);
    assert InLang(ts, t, 0, |s|);
    assert Matchable(ts, t, 0) && Found(re, t);
    if InLang(ts, t, 0, |t|) {
      StuckBehind(ts, t, |s|, 0, u, v);
      assert false;
    }
  }

  /** The documented reading fails for the plainest pattern: "a" is found in "xay". */
  lemma FoundInside()
    ensures Found("a", "xay") && !InLang(Tokens("a"), "xay", 0, 3) && !Opens("a") && !Closes("a")
  {
    assert "a"[1..] == "" && Tokens("a") == [One(Exactly('a'))] + [];
    OneTail(Exactly('a'), [], "xay", 1, 2);
    OneTail(Exactly('a'), [], "xay", 0, 3);
    assert InLang(Tokens("a"), "xay", 1, 2);
    assert Matchable(Tokens("a"), "xay", 1);
    assert Tokens("a")[1..] == [] && Stripped("a") == "a";
  }

  // ---------------------------------------------------------------- the leading '^' of the scanners

  /** There is a longest match or none. */
  lemma {:induction false} LongestUpTo(ts: seq<Token>, t: string, i: nat, e: nat) returns (n: int)
    requires i <= e <= |t|
    ensures -1 <= n <= e - i && (n >= 0 ==> InLang(ts, t, i, i + n))
    ensures forall j: nat {:trigger InLang(ts, t, i, j)} :: i <= j <= e && InLang(ts, t, i, j) ==> j - i <= n
    decreases e - i
  {
    if InLang(ts, t, i, e) {
      n := e - i;
    } else if i == e {
      n := -1;
    } else {
      n := LongestUpTo(ts, t, i, e - 1);
    }
  }

  /** Every scan can be completed. */
  lemma {:induction false} CompleteScan(ts: seq<Token>, t: string, e: nat, hits: seq<Hit>) returns (all: seq<Hit>)
    requires Scan(ts, t, 0, e, hits)
    ensures Scan(ts, t, 0, |t|, all)
    decreases |t| - e
  {
    if e == |t| {
      all := hits;
    } else {
      var n := LongestUpTo(ts, t, e, |t|);
      if n < 0 {
        ScanOnMiss(ts, t, e, hits);
        all := CompleteScan(ts, t, e + 1, hits);
      } else {
        ScanOnHit(ts, t, e, hits, n);
        all := CompleteScan(ts, t, Hit(e, n).Next(), hits + [Hit(e, n)]);
      }
    }
  }

  /** In every text the scanners report at most a match at the very start. */
  ghost predicate CaretAlwaysHonoured(re: string) {
    forall t, hits :: Scan(Tokens(Stripped(re)), t, 0, |t|, hits) ==> OnlyAtStart(hits)
  }

  /** The scanners honour a leading '^' exactly in "^$" and where ".*" stands before every literal. */
  lemma CaretExactly(re: string)
    requires HasCaret(re)
    ensures CaretAlwaysHonoured(re) <==> re == "^$" || StarsOpen(Tokens(re[1..]))
  {
    var ts := Tokens(re[1..]);
    TokensEndLast(re[1..]);
    if re == "^$" || StarsOpen(ts) {
      forall t, hits | Scan(ts, t, 0, |t|, hits) ensures OnlyAtStart(hits) {
        if re == "^$" {
          assert re[1..] == "$" && Stripped("$") == "$";
          DollarOnlySearched(t, hits);
        } else {
          OpeningHonoured(re, t, hits);
        }
      }
    } else {
      CaretIgnored(re);
    }
  }

  /** An opening pattern that matches the empty text also closes. */
  lemma {:induction false} EmptyOpensAndCloses(ts: seq<Token>, t: string, p: nat)
    requires p < |t| && StarsOpen(ts) && InLang(ts, t, p, p)
    ensures StarsClose(ts)
  {
    assert Covers(ts[0], t, p, p) && InLang(ts[1..], t, p, p);
    if ts[0] == Star(Any) {
      NeedsRoom(ts[1..], t, p, p);
      NeedNothing(ts[1..]);
    } else {
      EmptyOpensAndCloses(ts[1..], t, p);
    }
  }

  lemma {:induction false} NeedNothing(ts: seq<Token>)
    requires Needs(ts) == 0
    ensures NoLiteral(ts)
  {
    if ts == [] {
    } else {
      NeedNothing(ts[1..]);
      assert ts == [ts[0]] + ts[1..];
    }
  }

  lemma OpeningHonoured(re: string, t: string, hits: seq<Hit>)
    requires HasCaret(re) && StarsOpen(Tokens(re[1..])) && Scan(Tokens(re[1..]), t, 0, |t|, hits)
    ensures OnlyAtStart(hits)
  {
    var ts := Tokens(re[1..]);
    TokensEndLast(re[1..]);
    forall p: nat {:trigger Matchable(ts, t, p)} | 0 < p < |t| && Matchable(ts, t, p) ensures InsideFirst(ts, t, p) {
      var j: nat :| p <= j <= |t| && InLang(ts, t, p, j);
      if j == p {
        EmptyOpensAndCloses(ts, t, p);
        StretchRight(ts, t, p, p);
        j := |t|;
      }
      StretchLeft(ts, t, 0, p, j);
      var n := LongestUpTo(ts, t, 0, |t|);
      assert IsLongest(ts, t, 0, n) && p < n;
    }
    CaretHonoured(re, t, hits);
  }

  /** Behind a padding the scanners find any other pattern. */
  lemma CaretIgnored(re: string)
    requires HasCaret(re) && re != "^$" && !StarsOpen(Tokens(re[1..]))
    ensures !CaretAlwaysHonoured(re)
  {
    var ts := Tokens(re[1..]);
    TokensEndLast(re[1..]);
    if ts == [End] { OnlyDollar(re[1..]); }
    var t, m := PaddedInFront(ts, if ts == [] then "a" else "");
    assert |Sample(ts)| > 0 || ts == [];
    assert 0 < m < |t| && Matchable(ts, t, m);
    if InsideFirst(ts, t, m) {
      var n: nat :| IsLongest(ts, t, 0, n) && m < n;
      var u, v :| FirstAvoids(ts, u, v) && Padded(t, 0, m, u, v);
      StuckInFront(ts, t, m, 0, n, u, v);
      assert false;
    }
    var hits := CompleteScan(ts, t, 0, []);
    CaretHonoured(re, t, hits);
  }

  lemma OnlyDollar(re: string)
    requires Tokens(re) == [End]
    ensures re == "$"
  {
    assert Tokens(re)[0] == End;
  }

  // ---------------------------------------------------------------- search and scan

  /** In every text the search succeeds exactly when the scanners find something. */
  ghost predicate SearchIsScan(re: string) {
    forall t, hits :: Scan(Tokens(Stripped(re)), t, 0, |t|, hits) ==> (Found(re, t) <==> hits != [])
  }

  /** Only wildcards and closures: such a pattern matches wherever there is room. */
  predicate MatchesAnywhere(ts: seq<Token>) {
    NoLiteral(ts) && End !in ts
  }

  /** The search and the scanners agree on every text exactly for patterns that need a character and,
      if they start with '^', can be matched at the start whenever they can be matched at all. */
  lemma SearchIsScanExactly(re: string)
    ensures var ts := Tokens(Stripped(re));
            SearchIsScan(re) <==> !Nullable(ts) && (HasCaret(re) ==> StarsOpen(ts) || MatchesAnywhere(ts))
  {
    var ts := Tokens(Stripped(re));
    TokensEndLast(Stripped(re));
    if Nullable(ts) {
      EmptyTextDiffers(re);
    } else if HasCaret(re) && !StarsOpen(ts) && !MatchesAnywhere(ts) {
      PaddedTextDiffers(re);
    } else {
      forall t, hits | Scan(ts, t, 0, |t|, hits) ensures Found(re, t) <==> hits != [] {
        if HasCaret(re) { AtStartOrNowhere(re, t, hits); } else { SearchAgainstScan(re, t, hits); }
      }
    }
  }

  /** A nullable pattern is found in the empty text, where there is nothing to scan. */
  lemma EmptyTextDiffers(re: string)
    requires Nullable(Tokens(Stripped(re)))
    ensures !SearchIsScan(re)
  {
    var ts := Tokens(Stripped(re));
    MatchableAtEnd(ts, "");
    assert Found(re, "");
    assert Scan(ts, "", 0, |""|, []);
  }

  /** Behind a padding the scanners find a pattern that the search misses at the start. */
  lemma PaddedTextDiffers(re: string)
    requires HasCaret(re)
    requires var ts := Tokens(Stripped(re)); !Nullable(ts) && !StarsOpen(ts) && !MatchesAnywhere(ts)
    ensures !SearchIsScan(re)
  {
    var ts := Tokens(Stripped(re));
    TokensEndLast(Stripped(re));
    var t, m := PaddedInFront(ts, "");
    SampleNonempty(ts);
    var hits := CompleteScan(ts, t, 0, []);
    ScanFinds(ts, t, hits);
    if Found(re, t) {
      var j: nat :| j <= |t| && InLang(ts, t, 0, j);
      var u, v :| FirstAvoids(ts, u, v) && Padded(t, 0, m, u, v);
      StuckInFront(ts, t, m, 0, j, u, v);
      AnchorAtEnd(ts, t, 0, j);
      assert false;
    }
  }

  lemma SampleNonempty(ts: seq<Token>)
    requires EndLast(ts) && !Nullable(ts)
    ensures Sample(ts) != ""
  {}

  /** A pattern with the anchor matches up to the end of the text only. */
  lemma {:induction false} AnchorAtEnd(ts: seq<Token>, t: string, i: nat, j: nat)
    requires EndLast(ts) && End in ts && i <= j <= |t| && InLang(ts, t, i, j)
    ensures j == |t|
  {
    var k: nat :| i <= k <= j && Covers(ts[0], t, i, k) && InLang(ts[1..], t, k, j);
    if ts[0] == End {
      assert ts[1..] == [];
    } else {
      assert ts == [ts[0]] + ts[1..];
      AnchorAtEnd(ts[1..], t, k, j);
    }
  }

  /** Without literals and anchor the first so many characters will do. */
  lemma {:induction false} FitsAtStart(ts: seq<Token>, t: string, i: nat)
    requires MatchesAnywhere(ts) && i + Needs(ts) <= |t|
    ensures InLang(ts, t, i, i + Needs(ts))
  {
    if ts == [] {
    } else {
      var k := if ts[0].One? then i + 1 else i;
      assert ts[0] in ts && forall x :: x in ts[1..] ==> x in ts;
      FitsAtStart(ts[1..], t, k);
      assert Covers(ts[0], t, i, k);
    }
  }

  lemma AtStartOrNowhere(re: string, t: string, hits: seq<Hit>)
    requires HasCaret(re) && Scan(Tokens(re[1..]), t, 0, |t|, hits)
    requires var ts := Tokens(re[1..]); !Nullable(ts) && (StarsOpen(ts) || MatchesAnywhere(ts))
    ensures Found(re, t) <==> hits != []
  {
    var ts := Tokens(re[1..]);
    TokensEndLast(re[1..]);
    ScanFinds(ts, t, hits);
    MatchableAtEnd(ts, t);
    if hits != [] {
      var p: nat :| p < |t| && Matchable(ts, t, p);
      var j: nat :| p <= j <= |t| && InLang(ts, t, p, j);
      if StarsOpen(ts) {
        StretchLeft(ts, t, 0, p, j);
      } else {
        NeedsRoom(ts, t, p, j);
        FitsAtStart(ts, t, 0);
      }
      assert Matchable(ts, t, 0);
    }
  }

  /** One of the closures takes the last character. */
  predicate LastTaken(ts: seq<Token>, t: string)
    requires t != ""
  {
    exists x :: x in ts && x.Star? && Accepts(x.a, t[|t| - 1])
  }

  lemma {:induction false} NullableAnywhere(ts: seq<Token>, t: string, p: nat)
    requires Nullable(ts) && End !in ts && p <= |t|
    ensures InLang(ts, t, p, p)
  {
    if ts == [] {
    } else {
      assert ts[0] in ts && forall x :: x in ts[1..] ==> x in ts;
      NullableAnywhere(ts[1..], t, p);
      assert Covers(ts[0], t, p, p);
    }
  }

  lemma {:induction false} LastNeeded(ts: seq<Token>, t: string, i: nat)
    requires Nullable(ts) && i < |t| && InLang(ts, t, i, |t|)
    ensures LastTaken(ts, t)
  {
    if ts == [] {
    } else {
      var k: nat :| i <= k <= |t| && Covers(ts[0], t, i, k) && InLang(ts[1..], t, k, |t|);
      assert ts[0] in ts && forall x :: x in ts[1..] ==> x in ts;
      if k < |t| { LastNeeded(ts[1..], t, k); }
    }
  }

  lemma {:induction false} LastEnough(ts: seq<Token>, t: string, x: Token)
    requires Nullable(ts) && EndLast(ts) && t != "" && x in ts && x.Star? && Accepts(x.a, t[|t| - 1])
    ensures InLang(ts, t, |t| - 1, |t|)
  {
    assert ts == [ts[0]] + ts[1..];
    assert Nullable(ts[1..]) by { assert forall y :: y in ts[1..] ==> y in ts; }
    if ts[0] == x {
      NullableAtEnd(ts[1..], t);
      assert Covers(ts[0], t, |t| - 1, |t|);
    } else {
      LastEnough(ts[1..], t, x);
      assert ts[0] in ts && Covers(ts[0], t, |t| - 1, |t| - 1);
    }
  }

  /** In one text, for a pattern without '^': they agree exactly if the pattern needs a character or
      the text has a last one, which a closure takes if the pattern is anchored. */
  lemma SearchIsScanIn(re: string, t: string, hits: seq<Hit>)
    requires !HasCaret(re) && Scan(Tokens(re), t, 0, |t|, hits)
    ensures var ts := Tokens(re);
            (Found(re, t) <==> hits != []) <==> (Nullable(ts) ==> t != "" && (End !in ts || LastTaken(ts, t)))
  {
    var ts := Tokens(re);
    TokensEndLast(re);
    SearchAgainstScan(re, t, hits);
    ScanFinds(ts, t, hits);
    if Nullable(ts) && t != "" {
      if End !in ts {
        NullableAnywhere(ts, t, 0);
        assert Matchable(ts, t, 0);
      } else if LastTaken(ts, t) {
        var x :| x in ts && x.Star? && Accepts(x.a, t[|t| - 1]);
        LastEnough(ts, t, x);
        assert Matchable(ts, t, |t| - 1);
      } else if hits != [] {
        var p: nat :| p < |t| && Matchable(ts, t, p);
        var j: nat :| p <= j <= |t| && InLang(ts, t, p, j);
        AnchorAtEnd(ts, t, p, j);
        LastNeeded(ts, t, p);
        assert false;
      }
    }
  }

  // ---------------------------------------------------------------- the pattern of the documentation

  /** A backslash is a character like any other. */
  lemma EmailTokens()
    ensures Tokens(".*@.*\\..*") == [Star(Any), One(Exactly('@')), Star(Any), One(Exactly('\\')), One(Any), Star(Any)]
  {
    var re := ".*@.*\\..*";
    assert re[2..] == "@.*\\..*" && re[2..][1..] == ".*\\..*" && re[2..][1..][2..] == "\\..*";
    assert "\\..*"[1..] == "..*" && "..*"[1..] == ".*" && ".*"[2..] == "";
  }

  /** ".*c" in front of a pattern. */
  lemma StarThenOne(c: char, rest: seq<Token>, t: string, p: nat)
    requires p <= |t|
    ensures Matchable([Star(Any)] + ([One(Exactly(c))] + rest), t, p)
            <==> exists i :: p <= i < |t| && t[i] == c && Matchable(rest, t, i + 1)
  {
    var one := [One(Exactly(c))] + rest;
    if Matchable([Star(Any)] + one, t, p) {
      var e: nat :| p <= e <= |t| && InLang([Star(Any)] + one, t, p, e);
      var i := StarHead(Any, one, t, p, e);
      OneTail(Exactly(c), rest, t, i, e);
      assert InLang(rest, t, i + 1, e);
    }
    if i :| p <= i < |t| && t[i] == c && Matchable(rest, t, i + 1) {
      var e: nat :| i + 1 <= e <= |t| && InLang(rest, t, i + 1, e);
      OneTail(Exactly(c), rest, t, i, e);
      StarTail(Any, one, t, p, i, e);
    }
  }

  /** "..*" needs one character. */
  lemma OneThenStar(t: string, p: nat)
    requires p <= |t|
    ensures Matchable([One(Any)] + [Star(Any)], t, p) <==> p < |t|
  {
    OneMatchable(Any, [Star(Any)], t, p);
    if p < |t| {
      assert [Star(Any)] == [Star(Any)] + [] && InLang([], t, p + 1, p + 1);
      StarTail(Any, [], t, p + 1, p + 1, p + 1);
      assert InLang([Star(Any)], t, p + 1, p + 1);
    }
  }

  predicate AtThenBackslash(t: string) {
    exists i, j :: 0 <= i < j && j + 1 < |t| && t[i] == '@' && t[j] == '\\'
  }

  /** So the documented pattern for mail addresses is found exactly in texts with a backslash, and a
      character behind it, after an '@'. */
  lemma EmailExactly(t: string)
    ensures Found(".*@.*\\..*", t) <==> AtThenBackslash(t)
  {
    EmailTokens();
    EmailLike(".*@.*\\..*", t);
  }

  lemma EmailLike(re: string, t: string)
    requires re != "" && re[0] != '^'
    requires Tokens(re) == [Star(Any), One(Exactly('@')), Star(Any), One(Exactly('\\')), One(Any), Star(Any)]
    ensures Found(re, t) <==> AtThenBackslash(t)
  {
    var ts, tail := Tokens(re), [One(Any)] + [Star(Any)];
    var rest := [Star(Any)] + ([One(Exactly('\\'))] + tail);
    assert ts == [Star(Any)] + ([One(Exactly('@'))] + rest);
    if Found(re, t) {
      var p: nat :| p <= |t| && Matchable(ts, t, p);
      StarThenOne('@', rest, t, p);
      var i :| p <= i < |t| && t[i] == '@' && Matchable(rest, t, i + 1);
      BackslashLater(tail, t, i + 1);
    }
    if i, j :| 0 <= i < j && j + 1 < |t| && t[i] == '@' && t[j] == '\\' {
      BackslashLater(tail, t, i + 1);
      assert Matchable(rest, t, i + 1);
      StarThenOne('@', rest, t, 0);
      assert Matchable(ts, t, 0);
    }
  }

  lemma BackslashLater(tail: seq<Token>, t: string, p: nat)
    requires p <= |t| && tail == [One(Any)] + [Star(Any)]
    ensures Matchable([Star(Any)] + ([One(Exactly('\\'))] + tail), t, p)
            <==> exists j :: p <= j && j + 1 < |t| && t[j] == '\\'
  {
    StarThenOne('\\', tail, t, p);
    forall j: nat {:trigger Matchable(tail, t, j + 1)} | j < |t| ensures Matchable(tail, t, j + 1) <==> j + 1 < |t| {
      OneThenStar(t, j + 1);
    }
  }

  /** It is not found in the address of the documentation. */
  lemma EmailNotFound()
    ensures !Found(".*@.*\\..*", "admin@abscom.org")
  {
    EmailExactly("admin@abscom.org");
    NoBackslash();
  }

  lemma NoBackslash()
    ensures !AtThenBackslash("admin@abscom.org")
  {
    assert '\\' !in "admin@abscom.org";
  }
}
