/** How a pattern is read and what its simplest forms mean (src/abs_regex.c): spelling the tokens gives
    the pattern back, plain text finds itself, a dot finds any character, a closure runs as far as
    its characters go. */
module RegexReading {
  import opened Regex

  ghost function SpellAtom(a: Atom): char {
    if a.Any? then '.' else a.c
  }

  ghost function SpellToken(x: Token): string {
    match x
    case One(a) => [SpellAtom(a)]
    case Star(a) => [SpellAtom(a), '*']
    case End => "$"
  }

  /** The pattern the tokens are written as. */
  ghost function Spell(ts: seq<Token>): string {
    if ts == [] then "" else SpellToken(ts[0]) + Spell(ts[1..])
  }

  ghost predicate StarNext(ts: seq<Token>) {
    ts != [] && (ts[0] == One(Exactly('*')) || ts[0] == Star(Exactly('*')))
  }

  /** Tokens that can be told apart in their spelling: a dot always means any character, a character
      with a star behind it is a closure, and a last dollar sign is the anchor. */
  ghost predicate Readable(ts: seq<Token>) {
    ts == [] || (
      && Readable(ts[1..])
      && match ts[0]
         case End => |ts| == 1
         case Star(a) => a != Exactly('.')
         case One(a) => a != Exactly('.') && !StarNext(ts[1..]) && (a == Exactly('$') ==> |ts| > 1))
  }

  lemma {:induction false} TokensReadable(re: string)
    ensures Readable(Tokens(re)) && Spell(Tokens(re)) == re
    decreases |re|
  {
    if re == "" {
    } else if |re| > 1 && re[1] == '*' {
      TokensReadable(re[2..]);
      assert Tokens(re)[1..] == Tokens(re[2..]) && re == [re[0], '*'] + re[2..];
    } else if re == "$" {
      assert [End][1..] == [];
    } else {
      TokensReadable(re[1..]);
      assert Tokens(re)[1..] == Tokens(re[1..]) && re == [re[0]] + re[1..];
      SpellStart(Tokens(re[1..]));
      assert re[1..] == "" ==> Tokens(re[1..]) == [];
    }
  }

  lemma SpellStart(ts: seq<Token>)
    ensures Spell(ts) == "" <==> ts == []
    ensures Readable(ts) && ts != [] ==> (Spell(ts)[0] == '*' <==> StarNext(ts))
  {}

  lemma {:induction false} SpellingRead(ts: seq<Token>)
    requires Readable(ts)
    ensures Tokens(Spell(ts)) == ts
  {
    if ts == [] {
    } else {
      var re, rest := Spell(ts), Spell(ts[1..]);
      SpellingRead(ts[1..]);
      SpellStart(ts[1..]);
      assert ts == [ts[0]] + ts[1..];
      match ts[0] {
        case Star(a) => assert re[2..] == rest && re[1] == '*';
        case End => assert ts[1..] == [] && re == "$";
        case One(a) =>
          assert re[1..] == rest;
          if rest != "" { assert re[1] == rest[0]; }
      }
    }
  }

  /** The tokens of a pattern are the one readable sequence that is spelled like it. */
  lemma TokensExactly(re: string, ts: seq<Token>)
    ensures ts == Tokens(re) <==> Readable(ts) && Spell(ts) == re
  {
    TokensReadable(re);
    if Readable(ts) && Spell(ts) == re { SpellingRead(ts); }
  }

  // ---------------------------------------------------------------- plain text

  /** No character with a meaning of its own. */
  predicate Plain(w: string) {
    forall i :: 0 <= i < |w| ==> w[i] !in {'.', '*', '^', '$'}
  }

  lemma {:induction false} PlainLang(w: string, t: string, i: nat, j: nat)
    requires Plain(w) && i <= j <= |t|
    ensures InLang(Tokens(w), t, i, j) <==> t[i..j] == w
    decreases |w|
  {
    if w == "" {
    } else {
      var rest := w[1..];
      assert Plain(rest) && Tokens(w) == [One(Exactly(w[0]))] + Tokens(rest) by {
        if |w| > 1 { assert w[1] != '*'; }
      }
      OneTail(Exactly(w[0]), Tokens(rest), t, i, j);
      if i < j {
        PlainLang(rest, t, i + 1, j);
        assert t[i..j] == [t[i]] + t[i + 1..j] && w == [w[0]] + rest;
      }
    }
  }

  predicate StandsAt(w: string, t: string, i: nat) {
    i + |w| <= |t| && t[i..i + |w|] == w
  }

  /** Plain text is found exactly where it stands. */
  lemma PlainExactly(w: string, t: string)
    requires Plain(w)
    ensures Found(w, t) <==> exists i: nat :: StandsAt(w, t, i)
  {
    if i: nat :| i <= |t| && Matchable(Tokens(w), t, i) {
      var j: nat :| i <= j <= |t| && InLang(Tokens(w), t, i, j);
      PlainLang(w, t, i, j);
      assert StandsAt(w, t, i);
    }
    if i: nat :| StandsAt(w, t, i) {
      PlainLang(w, t, i, i + |w|);
      assert InLang(Tokens(w), t, i, i + |w|) && Matchable(Tokens(w), t, i);
    }
  }

  // ---------------------------------------------------------------- dots and closures

  function Dots(n: nat): string {
    if n == 0 then "" else "." + Dots(n - 1)
  }

  lemma {:induction false} DotsTokens(n: nat, t: string, i: nat, j: nat)
    requires i <= j <= |t|
    ensures InLang(Tokens(Dots(n)), t, i, j) <==> j == i + n
  {
    if n == 0 {
    } else {
      var w, rest := Dots(n), Dots(n - 1);
      assert w[1..] == rest && (|w| > 1 ==> w[1] == '.');
      OneTail(Any, Tokens(rest), t, i, j);
      if i < j { DotsTokens(n - 1, t, i + 1, j); }
    }
  }

  /** n dots are found exactly in texts of n characters or more. */
  lemma DotsExactly(n: nat, t: string)
    ensures Found(Dots(n), t) <==> |t| >= n
  {
    if n > 0 { assert Dots(n)[0] == '.'; }
    if i: nat :| i <= |t| && Matchable(Tokens(Dots(n)), t, i) {
      var j: nat :| i <= j <= |t| && InLang(Tokens(Dots(n)), t, i, j);
      DotsTokens(n, t, i, j);
    }
    if |t| >= n {
      DotsTokens(n, t, 0, n);
      assert InLang(Tokens(Dots(n)), t, 0, n) && Matchable(Tokens(Dots(n)), t, 0);
    }
  }

  /** The characters i .. j of t are all c. */
  ghost predicate Run(t: string, c: char, i: nat, j: nat)
    requires i <= j <= |t|
  {
    forall k :: i <= k < j ==> t[k] == c
  }

  lemma ClosureLang(c: char, t: string, i: nat, j: nat)
    requires c != '.' && i <= j <= |t|
    ensures Tokens([c, '*']) == [Star(Exactly(c))] && (InLang(Tokens([c, '*']), t, i, j) <==> Run(t, c, i, j))
  {
    var re := [c, '*'];
    assert re[2..] == "" && Tokens(re) == [Star(Exactly(c))] + [];
    if Run(t, c, i, j) { StarTail(Exactly(c), [], t, i, j, j); }
    if InLang(Tokens(re), t, i, j) { var k := StarHead(Exactly(c), [], t, i, j); }
  }

  /** A closure takes the whole run of its character. */
  lemma ClosureExactly(c: char, t: string, i: nat, n: nat)
    requires c != '.' && i + n <= |t|
    ensures IsLongest(Tokens([c, '*']), t, i, n) <==> Run(t, c, i, i + n) && (i + n == |t| || t[i + n] != c)
  {
    var ts := Tokens([c, '*']);
    forall j: nat | i <= j <= |t| ensures InLang(ts, t, i, j) <==> Run(t, c, i, j) { ClosureLang(c, t, i, j); }
    if i + n < |t| && t[i + n] == c && Run(t, c, i, i + n) {
      assert Run(t, c, i, i + n + 1) && InLang(ts, t, i, i + n + 1);
    }
  }
}
