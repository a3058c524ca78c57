/** What json_dump prints: the text of a document of RFC 8259, and what json_parse makes of it
    (src/abs.c), for every value x. */
module JsonRoundTrip {
  import opened Common
  import opened Dict
  import opened Json
  import opened JsonDocuments
  import opened JsonGrammar

  // ---------------------------------------------------------------- what comes back

  /** What a string becomes: the parser does not decode the \u00.. form the printer uses for the
      remaining control characters. */
  function Norm(s: string): string {
    if s == "" then "" else (if IsRawControl(s[0]) then EscapeChar(s[0]) else [s[0]]) + Norm(s[1..])
  }

  /** What a value becomes. A number comes back as its text reads, a set as a list, a value without
      a text form of its own as null, and a dictionary as its members are set one by one. */
  function Rebuild(x: Json, libc: Libc): Json
    decreases x
  {
    match x
    case JBool(_) => x
    case JInt(_) => x
    case JFloat(f) => NumberOf(libc.format(f), libc)
    case JStr(s) => JStr(Norm(s))
    case JList(items) => JList(RebuildItems(items, libc))
    case JSet(items) => JList(RebuildItems(items, libc))
    case JDict(buckets) => JDict(RebuildBuckets(buckets, Empty(), libc))
    case _ => JNull
  }

  function RebuildItems(items: seq<Json>, libc: Libc): (r: seq<Json>)
    ensures |r| == |items|
    decreases items
  {
    if items == [] then [] else [Rebuild(items[0], libc)] + RebuildItems(items[1..], libc)
  }

  function RebuildChain(c: Chain<Json>, acc: seq<Chain<Json>>, libc: Libc): (r: seq<Chain<Json>>)
    requires |acc| == CAPACITY
    ensures |r| == CAPACITY
    decreases c
  {
    if c.Nil? then acc else RebuildChain(c.next, DSet(acc, Norm(c.key), Rebuild(c.value, libc)), libc)
  }

  function RebuildBuckets(bs: seq<Chain<Json>>, acc: seq<Chain<Json>>, libc: Libc): (r: seq<Chain<Json>>)
    requires |acc| == CAPACITY
    ensures |r| == CAPACITY
    decreases bs
  {
    if bs == [] then acc else RebuildBuckets(bs[1..], RebuildChain(bs[0], acc, libc), libc)
  }

  // ---------------------------------------------------------------- well-formed values

  /** A long. */
  predicate IsLong(i: int) {
    -0x8000_0000_0000_0000 <= i < 0x8000_0000_0000_0000
  }

  ghost predicate WellFormed(x: Json)
    decreases x
  {
    match x
    case JInt(i) => IsLong(i)
    case JList(items) => WellFormedItems(items)
    case JSet(items) => WellFormedItems(items)
    case JDict(buckets) => Proper(buckets) && WellFormedBuckets(buckets)
    case _ => true
  }

  ghost predicate WellFormedItems(items: seq<Json>)
    decreases items
  {
    items != [] ==> WellFormed(items[0]) && WellFormedItems(items[1..])
  }

  ghost predicate WellFormedChain(c: Chain<Json>)
    decreases c
  {
    c.Link? ==> WellFormed(c.value) && WellFormedChain(c.next)
  }

  ghost predicate WellFormedBuckets(bs: seq<Chain<Json>>)
    decreases bs
  {
    bs != [] ==> WellFormedChain(bs[0]) && WellFormedBuckets(bs[1..])
  }

  /** "%.17g" prints a finite double as such a text. */
  ghost predicate PrintsNumbers(libc: Libc) {
    forall f :: NumberText(libc.format(f))
  }

  /** ... and as a number of the grammar. */
  ghost predicate PrintsJsonNumbers(libc: Libc) {
    forall f :: JsonNumber(libc.format(f)) && |libc.format(f)| <= 63
  }

  // ---------------------------------------------------------------- strings

  /** A digit of the four-digit form, lower case. */
  ghost function Hex(n: nat): char
    requires n < 16
  {
    "0123456789abcdef"[n]
  }

  /** How a character is printed, by its code: seven have a short form, the other control characters
      the form with four digits. */
  ghost function PiecesOfChar(c: char): seq<Piece> {
    var n := c as int;
    if n == 0x08 then [Escaped('b')]
    else if n == 0x09 then [Escaped('t')]
    else if n == 0x0A then [Escaped('n')]
    else if n == 0x0C then [Escaped('f')]
    else if n == 0x0D then [Escaped('r')]
    else if n == 0x22 || n == 0x5C then [Escaped(c)]
    else if n < 0x20 then [Escaped('u'), Plain('0'), Plain('0'), Plain(Hex(n / 16)), Plain(Hex(n % 16))]
    else [Plain(c)]
  }

  ghost function PiecesOf(s: string): seq<Piece> {
    if s == "" then [] else PiecesOfChar(s[0]) + PiecesOf(s[1..])
  }

  lemma RenderOne(p: Piece)
    ensures RenderPieces([p]) == RenderPiece(p)
  {
    assert [p][1..] == [];
  }

  lemma {:induction false} RenderAppend(ps: seq<Piece>, qs: seq<Piece>)
    ensures RenderPieces(ps + qs) == RenderPieces(ps) + RenderPieces(qs)
  {
    if ps == [] {
      assert ps + qs == qs;
    } else {
      assert (ps + qs)[1..] == ps[1..] + qs;
      RenderAppend(ps[1..], qs);
    }
  }

  lemma {:induction false} MeaningAppend(ps: seq<Piece>, qs: seq<Piece>)
    ensures Meaning(ps + qs) == Meaning(ps) + Meaning(qs)
  {
    if ps == [] {
      assert ps + qs == qs;
    } else {
      assert (ps + qs)[1..] == ps[1..] + qs;
      MeaningAppend(ps[1..], qs);
    }
  }

  lemma {:induction false} StrictAppend(ps: seq<Piece>, qs: seq<Piece>)
    requires StrictPieces(ps) && StrictPieces(qs)
    ensures StrictPieces(ps + qs)
    decreases |ps|
  {
    if ps == [] {
      assert ps + qs == qs;
    } else if ps[0].Escaped? && ps[0].c == 'u' {
      assert (ps + qs)[5..] == ps[5..] + qs;
      StrictAppend(ps[5..], qs);
    } else {
      assert (ps + qs)[1..] == ps[1..] + qs;
      StrictAppend(ps[1..], qs);
    }
  }

  lemma CharPieces(c: char)
    ensures RenderPieces(PiecesOfChar(c)) == EscapeChar(c) && StrictPieces(PiecesOfChar(c))
    ensures Meaning(PiecesOfChar(c)) == if IsRawControl(c) then EscapeChar(c) else [c]
  {
    if IsRawControl(c) {
      ControlPieces(c, c as int / 16, c as int % 16);
    } else {
      var p := PiecesOfChar(c)[0];
      assert PiecesOfChar(c) == [p] && [p][1..] == [];
      RenderOne(p);
    }
  }

  lemma ControlPieces(c: char, h: nat, l: nat)
    requires IsRawControl(c) && h == c as int / 16 && l == c as int % 16
    ensures RenderPieces(PiecesOfChar(c)) == EscapeChar(c) && StrictPieces(PiecesOfChar(c))
    ensures Meaning(PiecesOfChar(c)) == EscapeChar(c)
  {
    assert h in {0, 1};
    assert Hex(l) == HexDigit(l) && Hex(h) == HexDigit(h) && IsHex(Hex(l)) && IsHex(Hex(h));
    var ps := PiecesOfChar(c);
    assert ps[5..] == [];
    FivePieces('u', '0', '0', Hex(h), Hex(l));
  }

  lemma FivePieces(a: char, b: char, c: char, d: char, e: char)
    requires EscapeMeaning(a) == ['\\', a]
    ensures var ps := [Escaped(a), Plain(b), Plain(c), Plain(d), Plain(e)];
            RenderPieces(ps) == ['\\', a, b, c, d, e] == Meaning(ps)
  {
    PlainFirst(e, []);
    PlainFirst(d, [Plain(e)]);
    PlainFirst(c, [Plain(d), Plain(e)]);
    PlainFirst(b, [Plain(c), Plain(d), Plain(e)]);
    var rest := [Plain(b), Plain(c), Plain(d), Plain(e)];
    assert [Plain(b)] + [Plain(c), Plain(d), Plain(e)] == rest;
    assert [Plain(c)] + [Plain(d), Plain(e)] == [Plain(c), Plain(d), Plain(e)];
    assert [Escaped(a), Plain(b), Plain(c), Plain(d), Plain(e)][1..] == rest;
  }

  lemma PlainFirst(c: char, ps: seq<Piece>)
    ensures RenderPieces([Plain(c)] + ps) == [c] + RenderPieces(ps) && Meaning([Plain(c)] + ps) == [c] + Meaning(ps)
  {
    assert ([Plain(c)] + ps)[1..] == ps;
  }

  /** An escaped string is the text of a literal of the grammar, and what the literal means is the
      string, but for raw control characters. */
  lemma {:induction false} EscapedPieces(s: string)
    ensures Escape(s) == RenderPieces(PiecesOf(s)) && StrictPieces(PiecesOf(s)) && Meaning(PiecesOf(s)) == Norm(s)
  {
    if s == "" {
    } else {
      EscapedPieces(s[1..]);
      CharPieces(s[0]);
      RenderAppend(PiecesOfChar(s[0]), PiecesOf(s[1..]));
      MeaningAppend(PiecesOfChar(s[0]), PiecesOf(s[1..]));
      StrictAppend(PiecesOfChar(s[0]), PiecesOf(s[1..]));
    }
  }

  // ---------------------------------------------------------------- numbers

  lemma {:induction false} DecimalText(n: nat, k: nat)
    requires k > 0 && n < Power10(k)
    ensures |Decimal(n)| <= k && forall i :: 0 <= i < |Decimal(n)| ==> IsDigit(Decimal(n)[i])
  {
    if n < 10 {
    } else {
      assert k > 1 by { assert Power10(1) == 10 * Power10(0); }
      DecimalText(n / 10, k - 1);
    }
  }

  function Power10(k: nat): nat {
    if k == 0 then 1 else 10 * Power10(k - 1)
  }

  lemma {:induction false} DigitsAppend(s: string, c: char, acc: nat)
    requires IsDigit(c) && forall i :: 0 <= i < |s| ==> IsDigit(s[i])
    ensures Digits(s + [c], acc) == 10 * Digits(s, acc) + (c as int - '0' as int)
  {
    if s == "" {
      assert s + [c] == [c] && [c][1..] == "";
    } else {
      assert (s + [c])[1..] == s[1..] + [c];
      DigitsAppend(s[1..], c, 10 * acc + (s[0] as int - '0' as int));
    }
  }

  /** Reading the digits of a number gives the number. */
  lemma {:induction false} DigitsOfDecimal(n: nat, k: nat)
    requires k > 0 && n < Power10(k)
    ensures Digits(Decimal(n), 0) == n
  {
    var c := ('0' as int + n % 10) as char;
    if n < 10 {
      assert Decimal(n) == [c] && [c][1..] == "";
    } else {
      assert k > 1 by { assert Power10(1) == 10 * Power10(0); }
      DigitsOfDecimal(n / 10, k - 1);
      DecimalText(n / 10, k - 1);
      DigitsAppend(Decimal(n / 10), c, 0);
    }
  }

  lemma LongFits(n: nat)
    requires n <= 0x8000_0000_0000_0000
    ensures n < Power10(19)
  {
    assert Power10(4) == 10000;
    assert Power10(8) == 10000 * Power10(4);
    assert Power10(12) == 10000 * Power10(8);
    assert Power10(16) == 10000 * Power10(12);
  }

  lemma IntTextReads(i: int, libc: Libc)
    requires IsLong(i)
    ensures NumberText(IntText(i)) && NumberOf(IntText(i), libc) == JInt(i)
  {
    var n := if i < 0 then -i else i;
    LongFits(n);
    DecimalText(n, 19);
    DigitsOfDecimal(n, 19);
    SignedText(Decimal(n), i < 0);
  }

  /** An optional minus sign and digits are the text of an integer. */
  lemma SignedText(w: string, minus: bool)
    requires 0 < |w| <= 19 && forall k :: 0 <= k < |w| ==> IsDigit(w[k])
    ensures var t := (if minus then "-" + w else w);
            NumberText(t) && !IsFloatText(t) && Atol(t) == (if minus then 0 - Digits(w, 0) else Digits(w, 0))
  {
    var t := if minus then "-" + w else w;
    if minus { assert t[1..] == w; }
    assert forall k :: 0 <= k < |t| ==> t[k] == '-' || IsDigit(t[k]);
  }

  /** The text of an integer is a number of the grammar. */
  lemma {:induction false} DecimalStart(n: nat)
    ensures Decimal(n)[0] == '0' ==> n == 0 && |Decimal(n)| == 1
    decreases n
  {
    if n < 10 {
    } else {
      DecimalStart(n / 10);
      assert Decimal(n)[0] == Decimal(n / 10)[0];
    }
  }

  lemma {:induction false} AllAhead(w: string)
    requires AllDigits(w)
    ensures DigitsAhead(w) == |w|
  {
    if w == "" {
    } else {
      AllAhead(w[1..]);
    }
  }

  lemma IntTextNumber(i: int)
    requires IsLong(i)
    ensures JsonNumber(IntText(i))
  {
    var n := if i < 0 then -i else i;
    LongFits(n);
    DecimalText(n, 19);
    AllAhead(Decimal(n));
    DecimalStart(n);
    assert Unsigned(IntText(i)) == Decimal(n);
  }

  // ---------------------------------------------------------------- the document of a value

  ghost function TreeOf(x: Json, libc: Libc): Tree
    decreases Size(x), 1
  {
    match x
    case JBool(b) => if b then TrueT else FalseT
    case JInt(i) => NumberT(IntText(i))
    case JFloat(f) => NumberT(libc.format(f))
    case JStr(s) => StringT(PiecesOf(s), "\"")
    case JList(items) => ListT("", ItemsOf(items, "", libc))
    case JSet(items) => ListT("", ItemsOf(items, "", libc))
    case JDict(buckets) => DictT("", MembersOf(Nil, buckets, "", libc))
    case _ => NullT
  }

  /** The items; the first stands behind the given white space, the others behind a space. */
  ghost function ItemsOf(items: seq<Json>, before: string, libc: Libc): Items
    decreases ItemsSize(items), 0
  {
    if items == [] then NoItems
    else Item(before, TreeOf(items[0], libc), "", ItemsOf(items[1..], " ", libc))
  }

  /** The members of the chain c and of the buckets bs. */
  ghost function MembersOf(c: Chain<Json>, bs: seq<Chain<Json>>, before: string, libc: Libc): Members
    decreases ChainSize(c) + BucketsSize(bs), 0
  {
    if c.Link? then
      Entry(before, PiecesOf(c.key), "", " ", TreeOf(c.value, libc), "", MembersOf(c.next, bs, " ", libc))
    else if bs != [] then MembersOf(bs[0], bs[1..], before, libc)
    else NoMembers
  }

  lemma QuoteIs(s: string)
    ensures RenderString(PiecesOf(s), "\"") == Quote(s)
  {
    EscapedPieces(s);
  }

  /** The printed text is the text of the document. */
  lemma {:induction false} TextIsDocument(x: Json, libc: Libc)
    ensures Render(TreeOf(x, libc)) == Text(x, libc)
    decreases Size(x), 1
  {
    match x
    case JStr(s) => QuoteIs(s);
    case JList(items) =>
      ItemsAreDocument(items, false, libc);
      Enclosed('[', ItemsText(items, false, libc), ']');
    case JSet(items) =>
      ItemsAreDocument(items, false, libc);
      Enclosed('[', ItemsText(items, false, libc), ']');
    case JDict(buckets) =>
      MembersAreDocument(Nil, buckets, false, libc);
      Enclosed('{', BucketsText(buckets, false, libc), '}');
    case _ =>
  }

  lemma Enclosed(open: char, s: string, close: char)
    ensures [open] + s + [close] == [open] + (s + [close]) && "" + s == s
  {}

  lemma {:induction false} ItemsAreDocument(items: seq<Json>, more: bool, libc: Libc)
    ensures var t := ItemsOf(items, if more then " " else "", libc);
            ItemsText(items, more, libc) == if more then MoreItems(t) else RenderItems(t)
    decreases ItemsSize(items), 0
  {
    if items == [] {
    } else {
      TextIsDocument(items[0], libc);
      ItemsAreDocument(items[1..], true, libc);
      ItemParts(more, Text(items[0], libc), ItemsText(items[1..], true, libc));
    }
  }

  lemma ItemParts(more: bool, x: string, tail: string)
    ensures Separator(more) + x + tail
            == if more then "," + (" " + (x + ("" + tail))) else "" + (x + ("" + tail))
  {
    assert ", " == "," + " ";
  }

  lemma {:induction false} MembersAreDocument(c: Chain<Json>, bs: seq<Chain<Json>>, more: bool, libc: Libc)
    ensures var t := MembersOf(c, bs, if more then " " else "", libc);
            ChainText(c, more, libc) + BucketsText(bs, more || c.Link?, libc)
            == if more then MoreMembers(t) else RenderMembers(t)
    decreases ChainSize(c) + BucketsSize(bs), 0
  {
    if c.Link? {
      TextIsDocument(c.value, libc);
      MembersAreDocument(c.next, bs, true, libc);
      QuoteIs(c.key);
      MemberParts(c, more, ChainText(c.next, true, libc), BucketsText(bs, true, libc), libc);
    } else if bs != [] {
      MembersAreDocument(bs[0], bs[1..], more, libc);
    }
  }

  lemma MemberParts(c: Chain<Json>, more: bool, next: string, tail: string, libc: Libc)
    requires c.Link?
    ensures MemberText(c, more, libc) + next + tail
            == (if more then ", " else "") + (Quote(c.key) + ("" + (":" + (" " + (Text(c.value, libc)
               + ("" + (next + tail)))))))
  {
    assert ": " == ":" + " ";
  }

  // ---------------------------------------------------------------- reading it back

  /** The parser takes the document, and its value is what x becomes. */
  lemma {:induction false} TreeValue(x: Json, libc: Libc)
    requires WellFormed(x) && PrintsNumbers(libc)
    ensures Lenient(TreeOf(x, libc)) && ValueOf(TreeOf(x, libc), libc) == Rebuild(x, libc)
    decreases Size(x), 1
  {
    match x
    case JInt(i) => IntTextReads(i, libc);
    case JStr(s) =>
      EscapedPieces(s);
      StrictPiecesAre(PiecesOf(s));
    case JList(items) => ItemsValue(items, "", libc);
    case JSet(items) => ItemsValue(items, "", libc);
    case JDict(buckets) => MembersValue(Nil, buckets, "", Empty(), libc);
    case _ =>
  }

  lemma {:induction false} ItemsValue(items: seq<Json>, before: string, libc: Libc)
    requires WellFormedItems(items) && PrintsNumbers(libc) && Spaces(before)
    ensures LenientItems(ItemsOf(items, before, libc))
    ensures ItemValues(ItemsOf(items, before, libc), libc) == RebuildItems(items, libc)
    decreases ItemsSize(items), 0
  {
    if items == [] {
    } else {
      TreeValue(items[0], libc);
      ItemsValue(items[1..], " ", libc);
    }
  }

  lemma {:induction false} MembersValue(c: Chain<Json>, bs: seq<Chain<Json>>, before: string, acc: seq<Chain<Json>>,
                                        libc: Libc)
    requires WellFormedChain(c) && WellFormedBuckets(bs) && PrintsNumbers(libc) && Spaces(before) && |acc| == CAPACITY
    ensures LenientMembers(MembersOf(c, bs, before, libc))
    ensures SetMembers(MembersOf(c, bs, before, libc), acc, libc)
            == RebuildBuckets(bs, RebuildChain(c, acc, libc), libc)
    decreases ChainSize(c) + BucketsSize(bs), 0
  {
    if c.Link? {
      TreeValue(c.value, libc);
      EscapedPieces(c.key);
      StrictPiecesAre(PiecesOf(c.key));
      MembersValue(c.next, bs, " ", DSet(acc, Norm(c.key), Rebuild(c.value, libc)), libc);
    } else if bs != [] {
      MembersValue(bs[0], bs[1..], before, acc, libc);
    }
  }

  /** The heart of the round trip: reading the text of x in front of any text that does not
      continue a number gives what x becomes and leaves exactly that text. */
  lemma ReadText(x: Json, rest: string, libc: Libc)
    requires WellFormed(x) && PrintsNumbers(libc) && EndsNumber(rest)
    ensures Read(Text(x, libc) + rest, libc) == Parsed(Rebuild(x, libc), rest)
  {
    TextIsDocument(x, libc);
    TreeValue(x, libc);
    ReadTree(TreeOf(x, libc), rest, libc);
  }

  /** Parsing a printed value gives what the value becomes, never an error. */
  lemma ParseText(x: Json, libc: Libc)
    requires WellFormed(x) && PrintsNumbers(libc)
    ensures Parse(Text(x, libc), libc) == Rebuild(x, libc)
  {
    ReadText(x, "", libc);
    assert Text(x, libc) + "" == Text(x, libc);
  }

  // ---------------------------------------------------------------- what is printed is JSON

  /** With floats printed as numbers, the document of every value is one of RFC 8259. */
  lemma {:induction false} TreeStrict(x: Json, libc: Libc)
    requires WellFormed(x) && PrintsJsonNumbers(libc)
    ensures Strict(TreeOf(x, libc)) && NumbersFit(TreeOf(x, libc))
    decreases Size(x), 1
  {
    match x
    case JInt(i) =>
      IntTextNumber(i);
      IntTextReads(i, libc);
    case JStr(s) => EscapedPieces(s);
    case JList(items) => ItemsStrict(items, "", libc);
    case JSet(items) => ItemsStrict(items, "", libc);
    case JDict(buckets) => MembersStrict(Nil, buckets, "", libc);
    case _ =>
  }

  lemma {:induction false} ItemsStrict(items: seq<Json>, before: string, libc: Libc)
    requires WellFormedItems(items) && PrintsJsonNumbers(libc) && StrictSpaces(before)
    ensures StrictItems(ItemsOf(items, before, libc)) && ItemNumbersFit(ItemsOf(items, before, libc))
    decreases ItemsSize(items), 0
  {
    if items == [] {
    } else {
      TreeStrict(items[0], libc);
      ItemsStrict(items[1..], " ", libc);
    }
  }

  lemma {:induction false} MembersStrict(c: Chain<Json>, bs: seq<Chain<Json>>, before: string, libc: Libc)
    requires WellFormedChain(c) && WellFormedBuckets(bs) && PrintsJsonNumbers(libc) && StrictSpaces(before)
    ensures StrictMembers(MembersOf(c, bs, before, libc)) && MemberNumbersFit(MembersOf(c, bs, before, libc))
    decreases ChainSize(c) + BucketsSize(bs), 0
  {
    if c.Link? {
      TreeStrict(c.value, libc);
      EscapedPieces(c.key);
      MembersStrict(c.next, bs, " ", libc);
    } else if bs != [] {
      MembersStrict(bs[0], bs[1..], before, libc);
    }
  }

  /** What json_dump prints is the text of a document of RFC 8259. */
  lemma TextIsJson(x: Json, libc: Libc)
    requires WellFormed(x) && PrintsJsonNumbers(libc)
    ensures exists t :: Strict(t) && Text(x, libc) == Render(t)
  {
    TextIsDocument(x, libc);
    TreeStrict(x, libc);
  }

  ghost predicate Printable(s: string) {
    forall i :: 0 <= i < |s| ==> s[i] as int >= 0x20
  }

  lemma {:induction false} PiecesPrintable(ps: seq<Piece>)
    requires StrictPieces(ps)
    ensures Printable(RenderPieces(ps))
    decreases |ps|
  {
    if ps == [] {
    } else if ps[0].Escaped? && ps[0].c == 'u' {
      PiecesPrintable(ps[5..]);
      assert ps == ps[..5] + ps[5..];
      RenderAppend(ps[..5], ps[5..]);
      assert ps[..5] == [Escaped('u'), Plain(ps[1].c), Plain(ps[2].c), Plain(ps[3].c), Plain(ps[4].c)];
      FivePieces('u', ps[1].c, ps[2].c, ps[3].c, ps[4].c);
    } else {
      PiecesPrintable(ps[1..]);
    }
  }

  /** No control character is printed, whatever the value. */
  lemma {:induction false} TextPrintable(x: Json, libc: Libc)
    requires WellFormed(x) && PrintsNumbers(libc)
    ensures Printable(Text(x, libc))
    decreases Size(x), 1
  {
    match x
    case JInt(i) =>
      IntTextReads(i, libc);
      NumberPrintable(IntText(i));
    case JFloat(f) => NumberPrintable(libc.format(f));
    case JStr(s) => QuotePrintable(s);
    case JList(items) =>
      ItemsPrintable(items, false, libc);
      EnclosedPrintable("[", ItemsText(items, false, libc), "]");
    case JSet(items) =>
      ItemsPrintable(items, false, libc);
      EnclosedPrintable("[", ItemsText(items, false, libc), "]");
    case JDict(buckets) =>
      BucketsPrintable(buckets, false, libc);
      EnclosedPrintable("{", BucketsText(buckets, false, libc), "}");
    case _ =>
  }

  lemma NumberPrintable(w: string)
    requires NumberText(w)
    ensures Printable(w)
  {}

  lemma EnclosedPrintable(open: string, s: string, close: string)
    requires Printable(open) && Printable(s) && Printable(close)
    ensures Printable(open + s + close)
  {}

  lemma QuotePrintable(s: string)
    ensures Printable(Quote(s))
  {
    EscapedPieces(s);
    PiecesPrintable(PiecesOf(s));
  }

  lemma {:induction false} ItemsPrintable(items: seq<Json>, more: bool, libc: Libc)
    requires WellFormedItems(items) && PrintsNumbers(libc)
    ensures Printable(ItemsText(items, more, libc))
    decreases ItemsSize(items), 0
  {
    if items == [] {
    } else {
      TextPrintable(items[0], libc);
      ItemsPrintable(items[1..], true, libc);
    }
  }

  lemma {:induction false} ChainPrintable(c: Chain<Json>, more: bool, libc: Libc)
    requires WellFormedChain(c) && PrintsNumbers(libc)
    ensures Printable(ChainText(c, more, libc))
    decreases ChainSize(c), 0
  {
    if c.Nil? {
    } else {
      QuotePrintable(c.key);
      TextPrintable(c.value, libc);
      ChainPrintable(c.next, true, libc);
      EnclosedPrintable(Separator(more), Quote(c.key), ": ");
    }
  }

  lemma {:induction false} BucketsPrintable(bs: seq<Chain<Json>>, more: bool, libc: Libc)
    requires WellFormedBuckets(bs) && PrintsNumbers(libc)
    ensures Printable(BucketsText(bs, more, libc))
    decreases BucketsSize(bs), 0
  {
    if bs == [] {
    } else {
      ChainPrintable(bs[0], more, libc);
      BucketsPrintable(bs[1..], more || bs[0].Link?, libc);
    }
  }

  /** An input: a, a line feed, b. */
  lemma NewlinePrinted(libc: Libc)
    ensures Text(JStr("a\nb"), libc) == "\"a\\nb\""
  {
    var s := "a\nb";
    assert s[1..] == "\nb" && s[1..][1..] == "b" && s[1..][1..][1..] == "";
    assert Escape(s[1..][1..]) == "b" && Escape(s[1..]) == "\\nb" && Escape(s) == "a\\nb";
  }
}
