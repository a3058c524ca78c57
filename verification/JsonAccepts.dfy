/** What json_parse (src/abs.c) takes for a string or a number although it is none: where it reports an
    error as documented and where it does not. */
module JsonAccepts {
  import opened Common
  import opened Dict
  import opened Json
  import opened JsonDocuments
  import opened JsonGrammar

  // ---------------------------------------------------------------- string literals

  /** An odd number of backslashes stands directly before place i. */
  predicate Escaped(w: string, i: nat)
    requires i <= |w|
  {
    i > 0 && w[i - 1] == '\\' && !Escaped(w, i - 1)
  }

  /** A quote that ends a literal. */
  predicate Closes(w: string, i: nat) {
    i < |w| && w[i] == '"' && !Escaped(w, i)
  }

  predicate ClosesFirst(w: string, i: nat) {
    Closes(w, i) && forall j :: 0 <= j < i ==> !Closes(w, j)
  }

  /** The literal that starts before w is closed. */
  predicate Terminated(w: string) {
    exists i :: 0 <= i < |w| && Closes(w, i)
  }

  /** ... and only white space follows. */
  predicate WholeLiteral(w: string) {
    exists i :: 0 <= i < |w| && ClosesFirst(w, i) && Skip(w[i + 1..]) == ""
  }

  /** From an unescaped place on, the scan of a string body goes to the first closing quote or to the
      end of the text. */
  lemma {:induction false} BodyEnds(w: string, p: nat) returns (q: nat)
    requires p <= |w| && !Escaped(w, p) && forall j :: 0 <= j < p ==> !Closes(w, j)
    ensures q <= |w| && StringBody(w[p..]).rest == w[q..]
    ensures if q < |w| then ClosesFirst(w, q) else !Terminated(w)
    decreases |w| - p
  {
    if p == |w| || w[p] == '"' {
      q := p;
    } else if w[p] != '\\' {
      assert w[p..][1..] == w[p + 1..];
      q := BodyEnds(w, p + 1);
    } else if p + 1 == |w| {
      q := |w|;
    } else {
      assert Escaped(w, p + 1) && w[p..][2..] == w[p + 2..];
      q := BodyEnds(w, p + 2);
    }
  }

  /** json_parse reports an error exactly for what is no string literal, as documented, if and only if
      the literal is terminated. */
  lemma StringsExactly(w: string, libc: Libc)
    ensures (Parse("\"" + w, libc).JError? <==> !WholeLiteral(w)) <==> Terminated(w)
  {
    var t := "\"" + w;
    assert t[1..] == w && w[0..] == w && Skip(t) == t;
    var q := BodyEnds(w, 0);
    if q == |w| {
      UnterminatedAccepted(w, libc);
    } else {
      assert StringBody(w).rest[1..] == w[q + 1..];
      assert Read(t, libc).rest == w[q + 1..];
      assert WholeLiteral(w) <==> Skip(w[q + 1..]) == "";
    }
  }

  /** A literal that is not terminated is read to the end of the text. */
  lemma UnterminatedAccepted(w: string, libc: Libc)
    requires !Terminated(w)
    ensures Parse("\"" + w, libc) == JStr(StringBody(w).chars) && !WholeLiteral(w)
  {
    var t := "\"" + w;
    assert t[1..] == w && w[0..] == w && Skip(t) == t;
    var q := BodyEnds(w, 0);
    assert StringBody(w).rest == "";
  }

  /** An input: "abc without its closing quote is read as abc. */
  lemma OpenQuoteAccepted(libc: Libc)
    ensures Parse("\"abc", libc) == JStr("abc") && !WholeLiteral("abc")
  {
    var w := "abc";
    assert "\"" + w == "\"abc";
    UnterminatedAccepted(w, libc);
    var bc, c := w[1..], w[1..][1..];
    assert bc == "bc" && c == "c" && c[1..] == "";
    assert StringBody(c) == Body("c", "") && StringBody(bc) == Body("bc", "") && StringBody(w) == Body("abc", "");
  }

  // ---------------------------------------------------------------- numbers

  /** Whatever number characters are run together after a minus sign or a digit, up to 63 of them, are
      read as a number: on such a text the promised error is missing exactly if it is none. */
  lemma NumbersExactly(w: string, libc: Libc)
    requires NumberText(w)
    ensures Parse(w, libc) == NumberOf(w, libc)
    ensures (Parse(w, libc).JError? <==> !JsonNumber(w)) <==> JsonNumber(w)
  {
    ParseNumber(w, libc);
  }

  /** An input: 1-2 is read as 1. */
  lemma DifferenceAccepted(libc: Libc)
    ensures Parse("1-2", libc) == JInt(1) && !JsonNumber("1-2")
  {
    var w := "1-2";
    assert w[1..] == "-2";
    assert DigitsAhead("-2") == 0 && DigitsAhead(w) == 1;
    assert Digits("-2", 1) == 1 && Digits(w, 0) == 1;
    NumbersExactly(w, libc);
  }

  /** Inputs: a dot makes a float, digits alone an integer. */
  lemma DecimalIsFloat(libc: Libc)
    ensures Parse("2.5", libc) == JFloat(libc.atof("2.5"))
  {
    assert ".5"[1..] == "5" && "5"[1..] == "" && DigitsAhead("5") == 1;
    NumberInput("2.5", "2", ".5", libc);
  }

  lemma DigitsAreInteger(libc: Libc)
    ensures Parse("-12", libc) == JInt(-12)
  {
    NumberInput("-12", "12", "", libc);
    assert "12"[1..] == "2" && "2"[1..] == "" && PlaceSum("2") == 2 && Power(1) == 10 * Power(0);
  }

  lemma NumberInput(w: string, digits: string, tail: string, libc: Libc)
    requires 0 < |w| <= 63 && Unsigned(w) == digits + tail && digits != "" && digits[0] != '0'
    requires AllDigits(digits) && (tail == "" || !IsDigit(tail[0])) && (Exponent(tail) || Fraction(tail))
    ensures Parse(w, libc) == if tail != "" then JFloat(libc.atof(w))
                              else JInt(if StartsWith(w, '-') then 0 - PlaceSum(digits) else PlaceSum(digits))
  {
    AheadOf(digits, tail);
    assert (digits + tail)[|digits|..] == tail;
    NumberMeaning(w, libc);
    assert digits + "" == digits;
  }

  lemma {:induction false} AheadOf(digits: string, tail: string)
    requires AllDigits(digits) && (tail == "" || !IsDigit(tail[0]))
    ensures DigitsAhead(digits + tail) == |digits|
  {
    if digits == "" {
      assert digits + tail == tail;
    } else {
      assert (digits + tail)[1..] == digits[1..] + tail;
      AheadOf(digits[1..], tail);
    }
  }

  /** Behind a digit exactly these characters and white space are taken. */
  lemma NumberCharsExactly(c: char, libc: Libc)
    ensures !Parse(['1', c], libc).JError? <==>
              '0' <= c <= '9' || c in {'+', '-', '.', 'e', 'E'} || c as int in {9, 10, 11, 12, 13, 32}
  {
    var w := ['1', c];
    if IsNumChar(c) {
      ParseNumber(w, libc);
    } else {
      assert w == ['1'] + [c];
      ReadNumberText(['1'], [c], libc);
      assert [c][1..] == "";
    }
  }

  // ---------------------------------------------------------------- white space

  /** The characters that may stand before a value are those of isspace. */
  lemma SpacesExactly(c: char, libc: Libc)
    ensures Parse([c] + "null", libc) == JNull <==> c as int in {9, 10, 11, 12, 13, 32}
  {
    var s := [c] + "null";
    ReadWord("null", "", libc);
    assert "null" + "" == "null" && s[1..] == "null" && Skip("null") == "null";
    if IsSpace(c) {
      ReadOver([c], "null", libc);
    } else if c == '[' {
      ListHead("null", libc);
      OneItem("", "null", JNull, "", [], libc);
      assert "" + ("null" + "") == "null";
    } else if c == '{' {
      DictHead("null", libc);
      assert ReadMember("null", libc).value.JError?;
    } else {
      OtherStart(s, libc);
    }
  }

  lemma OtherStart(s: string, libc: Libc)
    requires |s| == 5 && !IsSpace(s[0]) && s[0] != '[' && s[0] != '{' && s[1..] == "null"
    ensures Parse(s, libc) != JNull
  {
    assert s[1] == "null"[0] && s[2] == "null"[1] && s[3] == "null"[2];
  }

  // ---------------------------------------------------------------- errors

  /** Text behind a document. */
  lemma TrailingText(t: Tree, rest: string, libc: Libc)
    requires Lenient(t) && EndsNumber(rest) && Skip(rest) != ""
    ensures Parse(Render(t) + rest, libc) == JError("Trailing characters after JSON value")
  {
    ReadTree(t, rest, libc);
  }

  /** An element of a list that neither a comma nor the bracket follows. */
  lemma ListNotContinued(t: Tree, rest: string, libc: Libc)
    requires Lenient(t) && EndsNumber(rest) && !StartsWith(Skip(rest), ']') && !StartsWith(Skip(rest), ',')
    ensures Parse("[" + (Render(t) + rest), libc) == JError("Expected ',' or ']' in list")
  {
    var u := Render(t) + rest;
    ReadTree(t, rest, libc);
    RenderStart(t);
    assert Skip(u) == u;
    ListHead(u, libc);
    OneItem("", Render(t), ValueOf(t, libc), rest, [], libc);
    NotContinued(u, rest, [] + [ValueOf(t, libc)], libc);
  }

  lemma NotContinued(u: string, rest: string, acc: seq<Json>, libc: Libc)
    requires ReadItems("" + u, [], libc) == AfterItem(rest, acc, libc) && Read("[" + u, libc) == ReadItems(u, [], libc)
    requires !StartsWith(Skip(rest), ']') && !StartsWith(Skip(rest), ',')
    ensures Parse("[" + u, libc) == JError("Expected ',' or ']' in list")
  {
    assert "" + u == u;
  }

  /** Nothing but white space. */
  lemma NoText(s: string, libc: Libc)
    requires Skip(s) == ""
    ensures Parse(s, libc) == JError("Unexpected end of JSON")
  {}

  /** A start no value has. */
  lemma UnknownStart(s: string, libc: Libc)
    requires s != "" && !IsSpace(s[0]) && !IsDigit(s[0]) && s[0] !in {'"', '[', '{', '-'}
    requires !("true" <= s) && !("false" <= s) && !("null" <= s)
    ensures Parse(s, libc) == JError("Invalid JSON value")
  {}

  /** A member that does not start with a key. */
  lemma KeyMissing(u: string, libc: Libc)
    requires !StartsWith(Skip(u), '}') && !StartsWith(Skip(u), '"')
    ensures Parse("{" + u, libc) == JError("Expected string")
  {
    DictHead(u, libc);
    assert ReadMember(u, libc).value == JError("Expected string");
  }

  /** A key without its colon. */
  lemma ColonMissing(key: seq<Piece>, rest: string, libc: Libc)
    requires Pieces(key) && !StartsWith(Skip(rest), ':')
    ensures Parse("{" + (RenderString(key, "\"") + rest), libc) == JError("Expected ':' in object")
  {
    var u := RenderString(key, "\"") + rest;
    assert Skip(u) == u;
    DictHead(u, libc);
    ReadLiteral(key, rest);
    assert ReadMember(u, libc).value == JError("Expected ':' in object");
  }

  /** A member that neither a comma nor the brace follows. */
  lemma DictNotContinued(key: seq<Piece>, t: Tree, rest: string, libc: Libc)
    requires Pieces(key) && Lenient(t) && EndsNumber(rest)
    requires !StartsWith(Skip(rest), '}') && !StartsWith(Skip(rest), ',')
    ensures Parse("{" + (RenderString(key, "\"") + (":" + (Render(t) + rest))), libc)
            == JError("Expected ',' or '}' in object")
  {
    var u, x := RenderString(key, "\"") + (":" + (Render(t) + rest)), ValueOf(t, libc);
    NoSpaces(RenderString(key, "\""), Render(t) + rest);
    ReadTree(t, rest, libc);
    OneMember(Entry("", key, "", "", t, "", NoMembers), u, x, rest, Empty(), libc);
    QuotedHead(u, libc);
    DictError(u, rest, DSet(Empty(), Meaning(key), x), libc);
  }

  lemma NoSpaces(h: string, v: string)
    ensures h + (":" + v) == "" + (h + ("" + (":" + ("" + v))))
  {}

  lemma QuotedHead(u: string, libc: Libc)
    requires StartsWith(u, '"')
    ensures Read("{" + u, libc) == ReadMembers(u, Empty(), libc)
  {
    assert Skip(u) == u;
    DictHead(u, libc);
  }

  lemma DictError(u: string, rest: string, bs: seq<Chain<Json>>, libc: Libc)
    requires |bs| == CAPACITY && Read("{" + u, libc) == AfterMember(rest, bs, libc)
    requires !StartsWith(Skip(rest), '}') && !StartsWith(Skip(rest), ',')
    ensures Parse("{" + u, libc) == JError("Expected ',' or '}' in object")
  {}
}
