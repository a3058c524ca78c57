/** The grammar of RFC 8259, stricter than what json_parse (src/abs.c) takes: its documents and what
    they are read as. */
module JsonGrammar {
  import opened Common
  import opened Dict
  import opened Json
  import opened JsonDocuments

  // ---------------------------------------------------------------- numbers

  /** How many digits w starts with. */
  function DigitsAhead(w: string): (n: nat)
    ensures n <= |w|
  {
    if w == "" || !IsDigit(w[0]) then 0 else 1 + DigitsAhead(w[1..])
  }

  /** The number grammar of section 6. */
  predicate JsonNumber(w: string) {
    var u := Unsigned(w);
    var n := DigitsAhead(u);
    n > 0 && (u[0] == '0' ==> n == 1) && (Exponent(u[n..]) || Fraction(u[n..]))
  }

  function Unsigned(w: string): string {
    if StartsWith(w, '-') then w[1..] else w
  }

  predicate Fraction(w: string) {
    StartsWith(w, '.') && DigitsAhead(w[1..]) > 0 && Exponent(w[1..][DigitsAhead(w[1..])..])
  }

  predicate Exponent(w: string) {
    w != "" ==>
      && (w[0] == 'e' || w[0] == 'E')
      && var u := if StartsWith(w[1..], '+') || StartsWith(w[1..], '-') then w[2..] else w[1..];
         u != "" && DigitsAhead(u) == |u|
  }

  /** The number is digits and no more. */
  predicate Integral(w: string) {
    DigitsAhead(Unsigned(w)) == |Unsigned(w)|
  }

  /** The sum of the digits, each times the power of ten of its place. */
  function PlaceSum(w: string): int {
    if w == "" then 0 else (w[0] as int - 48) * Power(|w| - 1) + PlaceSum(w[1..])
  }

  function Power(k: nat): nat {
    if k == 0 then 1 else 10 * Power(k - 1)
  }

  predicate AllDigits(w: string) {
    forall i :: 0 <= i < |w| ==> IsDigit(w[i])
  }

  predicate AllNumChars(w: string) {
    forall i :: 0 <= i < |w| ==> IsNumChar(w[i])
  }

  lemma {:induction false} DigitsAheadAre(w: string)
    ensures AllDigits(w[..DigitsAhead(w)])
  {
    if w == "" || !IsDigit(w[0]) {
    } else {
      DigitsAheadAre(w[1..]);
      forall i | 0 <= i < DigitsAhead(w) ensures IsDigit(w[i]) {
        if i > 0 { assert w[i] == w[1..][..DigitsAhead(w[1..])][i - 1]; }
      }
    }
  }

  lemma {:induction false} DigitsSum(w: string, acc: nat)
    requires AllDigits(w)
    ensures Digits(w, acc) == acc * Power(|w|) + PlaceSum(w)
  {
    if w == "" {
    } else {
      var d := w[0] as int - 48;
      DigitsSum(w[1..], 10 * acc + d);
      Distribute(acc, d, Power(|w| - 1));
    }
  }

  lemma Distribute(acc: int, d: int, p: int)
    ensures (10 * acc + d) * p == acc * (10 * p) + d * p
  {}

  lemma ExponentChars(w: string)
    requires Exponent(w)
    ensures AllNumChars(w)
  {
    if w != "" {
      var u := if StartsWith(w[1..], '+') || StartsWith(w[1..], '-') then w[2..] else w[1..];
      DigitsAheadAre(u);
      assert u[..|u|] == u;
      forall i | 0 <= i < |w| ensures IsNumChar(w[i]) {
        if i >= |w| - |u| { assert w[i] == u[i - (|w| - |u|)]; }
      }
    }
  }

  lemma FractionChars(w: string)
    requires Fraction(w)
    ensures AllNumChars(w)
  {
    var n := DigitsAhead(w[1..]);
    DigitsAheadAre(w[1..]);
    ExponentChars(w[1..][n..]);
    forall i | 0 <= i < |w| ensures IsNumChar(w[i]) {
      if i > n { assert w[i] == w[1..][n..][i - 1 - n]; }
      else if i > 0 { assert w[i] == w[1..][..n][i - 1]; }
    }
  }

  lemma NumberChars(w: string)
    requires JsonNumber(w)
    ensures AllNumChars(w) && (w[0] == '-' || IsDigit(w[0]))
    ensures Integral(w) <==> !IsFloatText(w)
  {
    var u := Unsigned(w);
    var n := DigitsAhead(u);
    DigitsAheadAre(u);
    if Exponent(u[n..]) { ExponentChars(u[n..]); } else { FractionChars(u[n..]); }
    var k := |w| - |u|;
    forall i | 0 <= i < |w| ensures IsNumChar(w[i]) && (i < k + n ==> w[i] == '-' || IsDigit(w[i])) {
      if i >= k + n { assert w[i] == u[n..][i - k - n]; }
      else if i >= k { assert w[i] == u[..n][i - k]; }
    }
    if n < |u| {
      assert w[k + n] == u[n..][0] && w[k + n] in w;
    }
  }

  /** A number of the grammar that fits the buffer is read as a float exactly when a fraction or an
      exponent follows the integer digits, and as the signed sum of its digits otherwise. */
  lemma NumberMeaning(w: string, libc: Libc)
    requires JsonNumber(w) && |w| <= 63
    ensures Parse(w, libc) == if !Integral(w) then JFloat(libc.atof(w))
                              else JInt(if StartsWith(w, '-') then 0 - PlaceSum(w[1..]) else PlaceSum(w))
  {
    NumberChars(w);
    ParseNumber(w, libc);
    if Integral(w) {
      IntegralValue(w);
    }
  }

  /** The same for any run of number characters the parser takes for a number: a dot or an exponent
      sign anywhere makes a float of it, and otherwise the digits behind an optional minus sign count,
      up to the first other character. */
  lemma NumberTextMeaning(w: string, libc: Libc)
    requires NumberText(w)
    ensures Parse(w, libc) == if exists i :: 0 <= i < |w| && w[i] in {'.', 'e', 'E'} then JFloat(libc.atof(w))
                              else var n := PlaceSum(Unsigned(w)[..DigitsAhead(Unsigned(w))]);
                                   JInt(if w[0] == '-' then 0 - n else n)
  {
    ParseNumber(w, libc);
    assert IsFloatText(w) <==> exists i :: 0 <= i < |w| && w[i] in {'.', 'e', 'E'};
    var u := Unsigned(w);
    DigitsCut(u, 0);
    DigitsAheadAre(u);
    DigitsSum(u[..DigitsAhead(u)], 0);
  }

  lemma {:induction false} DigitsCut(u: string, acc: nat)
    ensures Digits(u, acc) == Digits(u[..DigitsAhead(u)], acc)
  {
    if u == "" || !IsDigit(u[0]) {
    } else {
      DigitsCut(u[1..], 10 * acc + (u[0] as int - 48));
      assert u[..DigitsAhead(u)][1..] == u[1..][..DigitsAhead(u[1..])];
    }
  }

  lemma ParseNumber(w: string, libc: Libc)
    requires NumberText(w)
    ensures Parse(w, libc) == NumberOf(w, libc)
  {
    ReadNumberText(w, "", libc);
    assert w + "" == w;
  }

  lemma IntegralValue(w: string)
    requires Integral(w) && w != "" && (w[0] == '-' || IsDigit(w[0]))
    ensures Atol(w) == if StartsWith(w, '-') then 0 - PlaceSum(w[1..]) else PlaceSum(w)
  {
    var u := Unsigned(w);
    DigitsAheadAre(u);
    assert u[..|u|] == u;
    DigitsSum(u, 0);
  }

  // ---------------------------------------------------------------- documents

  ghost predicate StrictSpaces(s: string) {
    forall i :: 0 <= i < |s| ==> s[i] as int in {0x20, 0x09, 0x0A, 0x0D}
  }

  predicate IsHex(c: char) {
    IsDigit(c) || 'a' <= c <= 'f' || 'A' <= c <= 'F'
  }

  ghost predicate HexPiece(p: Piece) {
    p.Plain? && IsHex(p.c)
  }

  /** The characters of a literal by section 7: no control character, quote or backslash as it is,
      and behind a backslash one of eight characters, or u and four hexadecimal digits. */
  ghost predicate StrictPieces(ps: seq<Piece>) {
    ps == [] ||
    if ps[0].Plain? then ps[0].c as int >= 0x20 && ps[0].c != '"' && ps[0].c != '\\' && StrictPieces(ps[1..])
    else if ps[0].c == 'u' then
      && |ps| >= 5 && HexPiece(ps[1]) && HexPiece(ps[2]) && HexPiece(ps[3]) && HexPiece(ps[4])
      && StrictPieces(ps[5..])
    else ps[0].c in {'"', '\\', '/', 'b', 'f', 'n', 'r', 't'} && StrictPieces(ps[1..])
  }

  ghost predicate Strict(t: Tree)
    decreases t
  {
    match t
    case NumberT(w) => JsonNumber(w)
    case StringT(ps, close) => StrictPieces(ps) && close == "\""
    case ListT(inner, items) => StrictSpaces(inner) && StrictItems(items)
    case DictT(inner, members) => StrictSpaces(inner) && StrictMembers(members)
    case _ => true
  }

  ghost predicate StrictItems(items: Items)
    decreases items
  {
    items.Item? ==>
      StrictSpaces(items.before) && Strict(items.tree) && StrictSpaces(items.after) && StrictItems(items.more)
  }

  ghost predicate StrictMembers(ms: Members)
    decreases ms
  {
    ms.Entry? ==>
      && StrictSpaces(ms.before) && StrictPieces(ms.key) && StrictSpaces(ms.gap) && StrictSpaces(ms.space)
      && Strict(ms.tree) && StrictSpaces(ms.after) && StrictMembers(ms.more)
  }

  /** No number is longer than the parser's buffer. */
  ghost predicate NumbersFit(t: Tree)
    decreases t
  {
    match t
    case NumberT(w) => |w| <= 63
    case ListT(_, items) => ItemNumbersFit(items)
    case DictT(_, members) => MemberNumbersFit(members)
    case _ => true
  }

  ghost predicate ItemNumbersFit(items: Items)
    decreases items
  {
    items.Item? ==> NumbersFit(items.tree) && ItemNumbersFit(items.more)
  }

  ghost predicate MemberNumbersFit(ms: Members)
    decreases ms
  {
    ms.Entry? ==> NumbersFit(ms.tree) && MemberNumbersFit(ms.more)
  }

  lemma {:induction false} StrictPiecesAre(ps: seq<Piece>)
    requires StrictPieces(ps)
    ensures Pieces(ps)
    decreases |ps|
  {
    if ps == [] {
    } else if ps[0].Escaped? && ps[0].c == 'u' {
      StrictPiecesAre(ps[5..]);
      forall i | 0 <= i < |ps| && ps[i].Plain? ensures ps[i].c != '"' && ps[i].c != '\\' {
        if i >= 5 { assert ps[i] == ps[5..][i - 5]; } else { assert i in {1, 2, 3, 4}; }
      }
    } else {
      StrictPiecesAre(ps[1..]);
      forall i | 0 <= i < |ps| && ps[i].Plain? ensures ps[i].c != '"' && ps[i].c != '\\' {
        if i >= 1 { assert ps[i] == ps[1..][i - 1]; }
      }
    }
  }

  lemma StrictSpacesAre(s: string)
    requires StrictSpaces(s)
    ensures Spaces(s)
  {}

  /** json_parse takes every document of the grammar whose numbers fit. */
  lemma {:induction false} StrictIsLenient(t: Tree)
    requires Strict(t) && NumbersFit(t)
    ensures Lenient(t)
    decreases t
  {
    match t
    case NumberT(w) => NumberChars(w);
    case StringT(ps, _) => StrictPiecesAre(ps);
    case ListT(inner, items) =>
      StrictSpacesAre(inner);
      StrictItemsAre(items);
    case DictT(inner, members) =>
      StrictSpacesAre(inner);
      StrictMembersAre(members);
    case _ =>
  }

  lemma {:induction false} StrictItemsAre(items: Items)
    requires StrictItems(items) && ItemNumbersFit(items)
    ensures LenientItems(items)
    decreases items
  {
    if items.NoItems? {
    } else {
      StrictSpacesAre(items.before);
      StrictSpacesAre(items.after);
      StrictIsLenient(items.tree);
      StrictItemsAre(items.more);
    }
  }

  lemma {:induction false} StrictMembersAre(ms: Members)
    requires StrictMembers(ms) && MemberNumbersFit(ms)
    ensures LenientMembers(ms)
    decreases ms
  {
    if ms.NoMembers? {
    } else {
      StrictSpacesAre(ms.before);
      StrictSpacesAre(ms.gap);
      StrictSpacesAre(ms.space);
      StrictSpacesAre(ms.after);
      StrictPiecesAre(ms.key);
      StrictIsLenient(ms.tree);
      StrictMembersAre(ms.more);
    }
  }

  /** Every document of RFC 8259 whose numbers fit is read as the value it stands for. */
  lemma GrammarParses(a: string, t: Tree, b: string, libc: Libc)
    requires StrictSpaces(a) && Strict(t) && NumbersFit(t) && StrictSpaces(b)
    ensures Parse(a + (Render(t) + b), libc) == ValueOf(t, libc)
  {
    StrictIsLenient(t);
    StrictSpacesAre(a);
    StrictSpacesAre(b);
    ParseLenient(a, t, b, libc);
  }
}
