/** Which texts json_parse (src/abs.c) takes, and as what: documents as trees with the white space that
    may stand in them, their text by the grammar of RFC 8259, and the value each of them stands for. */
module JsonDocuments {
  import opened Common
  import opened Dict
  import opened Json

  /** A character of a string literal: as it is, or behind a backslash. */
  datatype Piece = Plain(c: char) | Escaped(c: char)

  /** A document. `close` ends a string literal; `inner` is the white space in empty brackets. */
  datatype Tree =
    | TrueT
    | FalseT
    | NullT
    | NumberT(w: string)
    | StringT(ps: seq<Piece>, close: string)
    | ListT(inner: string, items: Items)
    | DictT(inner: string, members: Members)

  datatype Items = NoItems | Item(before: string, tree: Tree, after: string, more: Items)

  /** The white space of a member: before its key, behind it, behind the colon and behind its value. */
  datatype Members =
    | NoMembers
    | Entry(before: string, key: seq<Piece>, gap: string, space: string, tree: Tree, after: string, more: Members)

  // ---------------------------------------------------------------- text

  ghost function RenderPiece(p: Piece): string {
    if p.Plain? then [p.c] else ['\\', p.c]
  }

  ghost function RenderPieces(ps: seq<Piece>): string {
    if ps == [] then "" else RenderPiece(ps[0]) + RenderPieces(ps[1..])
  }

  ghost function RenderString(ps: seq<Piece>, close: string): string {
    "\"" + (RenderPieces(ps) + close)
  }

  ghost function Render(t: Tree): string
    decreases t
  {
    match t
    case TrueT => "true"
    case FalseT => "false"
    case NullT => "null"
    case NumberT(w) => w
    case StringT(ps, close) => RenderString(ps, close)
    case ListT(inner, items) => "[" + ((if items.NoItems? then inner else RenderItems(items)) + "]")
    case DictT(inner, members) => "{" + ((if members.NoMembers? then inner else RenderMembers(members)) + "}")
  }

  ghost function RenderItems(items: Items): string
    decreases items, 0
  {
    if items.NoItems? then ""
    else items.before + (Render(items.tree) + (items.after + MoreItems(items.more)))
  }

  ghost function MoreItems(items: Items): string
    decreases items, 1
  {
    if items.NoItems? then "" else "," + RenderItems(items)
  }

  ghost function RenderMembers(ms: Members): string
    decreases ms, 0
  {
    if ms.NoMembers? then ""
    else ms.before + (RenderString(ms.key, "\"") + (ms.gap + (":" + (ms.space + (Render(ms.tree)
         + (ms.after + MoreMembers(ms.more)))))))
  }

  ghost function MoreMembers(ms: Members): string
    decreases ms, 1
  {
    if ms.NoMembers? then "" else "," + RenderMembers(ms)
  }

  // ---------------------------------------------------------------- value

  /** What a backslash and c stand for by section 7 of RFC 8259; whatever has no meaning there stays
      as it is, and so does the u of a code point. */
  ghost function EscapeMeaning(c: char): string {
    if c == 'b' then [8 as char]
    else if c == 't' then [9 as char]
    else if c == 'n' then [10 as char]
    else if c == 'f' then [12 as char]
    else if c == 'r' then [13 as char]
    else if c in {'"', '/', '\\'} then [c]
    else ['\\', c]
  }

  ghost function Meaning(ps: seq<Piece>): string {
    if ps == [] then ""
    else (if ps[0].Plain? then [ps[0].c] else EscapeMeaning(ps[0].c)) + Meaning(ps[1..])
  }

  ghost function ValueOf(t: Tree, libc: Libc): Json
    decreases t
  {
    match t
    case TrueT => JBool(true)
    case FalseT => JBool(false)
    case NullT => JNull
    case NumberT(w) => NumberOf(w, libc)
    case StringT(ps, _) => JStr(Meaning(ps))
    case ListT(_, items) => JList(ItemValues(items, libc))
    case DictT(_, members) => JDict(SetMembers(members, Empty(), libc))
  }

  ghost function ItemValues(items: Items, libc: Libc): seq<Json>
    decreases items
  {
    if items.NoItems? then [] else [ValueOf(items.tree, libc)] + ItemValues(items.more, libc)
  }

  /** The members are set one by one: of two with the same key the later one counts. */
  ghost function SetMembers(ms: Members, bs: seq<Chain<Json>>, libc: Libc): (r: seq<Chain<Json>>)
    requires |bs| == CAPACITY
    ensures |r| == CAPACITY
    decreases ms
  {
    if ms.NoMembers? then bs
    else SetMembers(ms.more, DSet(bs, Meaning(ms.key), ValueOf(ms.tree, libc)), libc)
  }

  // ---------------------------------------------------------------- what the parser asks of a document

  ghost predicate Spaces(s: string) {
    forall i :: 0 <= i < |s| ==> IsSpace(s[i])
  }

  ghost predicate Pieces(ps: seq<Piece>) {
    forall i :: 0 <= i < |ps| && ps[i].Plain? ==> ps[i].c != '"' && ps[i].c != '\\'
  }

  /** The text of a number: it fits the parser's buffer and starts like a number. */
  ghost predicate NumberText(w: string) {
    && 0 < |w| <= 63 && (w[0] == '-' || IsDigit(w[0]))
    && forall i :: 0 <= i < |w| ==> IsNumChar(w[i])
  }

  /** White space between the tokens, any character behind a backslash, any run of number characters
      for a number, and every string literal closed. */
  ghost predicate Lenient(t: Tree)
    decreases t
  {
    match t
    case NumberT(w) => NumberText(w)
    case StringT(ps, close) => Pieces(ps) && close == "\""
    case ListT(inner, items) => Spaces(inner) && LenientItems(items)
    case DictT(inner, members) => Spaces(inner) && LenientMembers(members)
    case _ => true
  }

  ghost predicate LenientItems(items: Items)
    decreases items
  {
    items.Item? ==> Spaces(items.before) && Lenient(items.tree) && Spaces(items.after) && LenientItems(items.more)
  }

  ghost predicate LenientMembers(ms: Members)
    decreases ms
  {
    ms.Entry? ==>
      && Spaces(ms.before) && Pieces(ms.key) && Spaces(ms.gap) && Spaces(ms.space) && Lenient(ms.tree)
      && Spaces(ms.after) && LenientMembers(ms.more)
  }

  /** A literal at the end of the text that nothing, or a lone backslash, closes. */
  ghost predicate Open(t: Tree) {
    t.StringT? && Pieces(t.ps) && (t.close == "" || t.close == "\\")
  }

  /** The text that follows does not continue a number. */
  predicate EndsNumber(rest: string) {
    rest == "" || !IsNumChar(rest[0])
  }

  // ---------------------------------------------------------------- white space

  lemma {:induction false} SkipOver(a: string, s: string)
    requires Spaces(a)
    ensures Skip(a + s) == Skip(s)
  {
    if a == "" {
      assert a + s == s;
    } else {
      assert (a + s)[1..] == a[1..] + s;
      SkipOver(a[1..], s);
    }
  }

  lemma ReadOver(a: string, s: string, libc: Libc)
    requires Spaces(a)
    ensures Read(a + s, libc) == Read(s, libc)
  {
    SkipOver(a, s);
  }

  lemma {:induction false} Skipped(s: string) returns (a: string)
    ensures Spaces(a) && s == a + Skip(s)
  {
    if s != "" && IsSpace(s[0]) {
      var b := Skipped(s[1..]);
      a := [s[0]] + b;
      Regroup([s[0]], b, Skip(s));
    } else {
      a := "";
    }
  }

  lemma SpacesEnd(a: string, s: string)
    requires Spaces(a) && s != "" && !IsNumChar(s[0])
    ensures EndsNumber(a + s) && a + s != ""
  {}

  // ---------------------------------------------------------------- strings

  lemma UnescapeMeans(c: char)
    ensures Unescape(c) == EscapeMeaning(c)
  {}

  lemma {:induction false} ReadPieces(ps: seq<Piece>, rest: string)
    requires Pieces(ps)
    ensures StringBody(RenderPieces(ps) + ("\"" + rest)) == Body(Meaning(ps), "\"" + rest)
  {
    if ps == [] {
      assert RenderPieces(ps) + ("\"" + rest) == "\"" + rest;
    } else {
      ReadPieces(ps[1..], rest);
      var tail := RenderPieces(ps[1..]) + ("\"" + rest);
      Regroup(RenderPiece(ps[0]), RenderPieces(ps[1..]), "\"" + rest);
      PieceBody(ps[0], tail);
    }
  }

  lemma Regroup(a: string, b: string, c: string)
    ensures a + b + c == a + (b + c)
  {}

  lemma PieceBody(p: Piece, tail: string)
    requires p.Plain? ==> p.c != '"' && p.c != '\\'
    ensures StringBody(RenderPiece(p) + tail)
            == Body((if p.Plain? then [p.c] else EscapeMeaning(p.c)) + StringBody(tail).chars, StringBody(tail).rest)
  {
    var s := RenderPiece(p) + tail;
    if p.Plain? {
      assert s[1..] == tail;
    } else {
      UnescapeMeans(p.c);
      assert s[2..] == tail;
    }
  }

  lemma ReadLiteral(ps: seq<Piece>, rest: string)
    requires Pieces(ps)
    ensures ReadString(RenderString(ps, "\"") + rest) == Parsed(JStr(Meaning(ps)), rest)
  {
    ReadPieces(ps, rest);
    var u := RenderPieces(ps) + ("\"" + rest);
    assert RenderString(ps, "\"") + rest == "\"" + u;
    LiteralIs(u, Meaning(ps), rest);
  }

  lemma LiteralIs(u: string, chars: string, rest: string)
    requires StringBody(u) == Body(chars, "\"" + rest)
    ensures ReadString("\"" + u) == Parsed(JStr(chars), rest)
  {
    assert ("\"" + u)[1..] == u && ("\"" + rest)[1..] == rest;
  }

  // ---------------------------------------------------------------- numbers

  lemma {:induction false} NumberLengthOf(w: string, rest: string, n: nat)
    requires |w| <= n && EndsNumber(rest) && forall i :: 0 <= i < |w| ==> IsNumChar(w[i])
    ensures NumberLength(w + rest, n) == |w|
  {
    if w == "" {
      assert w + rest == rest;
    } else {
      assert (w + rest)[1..] == w[1..] + rest;
      NumberLengthOf(w[1..], rest, n - 1);
    }
  }

  lemma ReadNumberText(w: string, rest: string, libc: Libc)
    requires NumberText(w) && EndsNumber(rest)
    ensures Read(w + rest, libc) == Parsed(NumberOf(w, libc), rest)
  {
    var t := w + rest;
    NumberLengthOf(w, rest, NUMBER_MAX);
    assert t[0] == w[0] && Skip(t) == t;
    assert t[..|w|] == w && t[|w|..] == rest;
  }

  lemma ReadWord(w: string, rest: string, libc: Libc)
    requires w == "true" || w == "false" || w == "null"
    ensures Read(w + rest, libc)
            == Parsed(if w == "true" then JBool(true) else if w == "false" then JBool(false) else JNull, rest)
  {}

  // ---------------------------------------------------------------- reading a document

  /** How a document starts. */
  lemma RenderStart(t: Tree)
    requires Lenient(t)
    ensures Render(t) != "" && !IsSpace(Render(t)[0]) && Render(t)[0] !in {',', ']', '}'}
  {}

  /** Reading a document in front of any text that does not continue a number gives its value and
      leaves exactly that text. */
  lemma {:induction false} ReadTree(t: Tree, rest: string, libc: Libc)
    requires Lenient(t) && EndsNumber(rest)
    ensures Read(Render(t) + rest, libc) == Parsed(ValueOf(t, libc), rest)
    decreases t, 1
  {
    match t
    case TrueT => ReadWord("true", rest, libc);
    case FalseT => ReadWord("false", rest, libc);
    case NullT => ReadWord("null", rest, libc);
    case NumberT(w) => ReadNumberText(w, rest, libc);
    case StringT(ps, _) =>
      ReadLiteral(ps, rest);
      var s := Render(t) + rest;
      assert s[0] == '"' && Skip(s) == s;
    case ListT(inner, items) => ReadListTree(inner, items, rest, libc);
    case DictT(inner, members) => ReadDictTree(inner, members, rest, libc);
  }

  lemma Bracketed(open: char, s: string, close: char, rest: string) returns (u: string)
    ensures u == s + ([close] + rest) && [open] + (s + [close]) + rest == [open] + u && ([open] + u)[1..] == u
  {
    u := s + ([close] + rest);
    assert [open] + (s + [close]) + rest == [open] + u;
  }

  lemma {:induction false} ReadListTree(inner: string, items: Items, rest: string, libc: Libc)
    requires Spaces(inner) && LenientItems(items)
    ensures Read(Render(ListT(inner, items)) + rest, libc) == Parsed(JList(ItemValues(items, libc)), rest)
    decreases items, 3
  {
    var u := Bracketed('[', if items.NoItems? then inner else RenderItems(items), ']', rest);
    ListHead(u, libc);
    if items.NoItems? {
      SkipOver(inner, "]" + rest);
      assert ("]" + rest)[1..] == rest;
    } else {
      ItemsStart(items, "]" + rest);
      ReadItemsTree(items, [], rest, libc);
      assert [] + ItemValues(items, libc) == ItemValues(items, libc);
    }
  }

  lemma ListHead(u: string, libc: Libc)
    ensures Read("[" + u, libc) == if StartsWith(Skip(u), ']') then Parsed(JList([]), Skip(u)[1..])
                                   else ReadItems(u, [], libc)
  {
    var s := "[" + u;
    assert Skip(s) == s && s[1..] == u;
    ReadItemsOver(u, [], libc);
  }

  /** The loops do not mind white space that is skipped before. */
  lemma ReadItemsOver(u: string, acc: seq<Json>, libc: Libc)
    ensures ReadItems(Skip(u), acc, libc) == ReadItems(u, acc, libc)
  {
    var a := Skipped(u);
    SkipTwice(u);
    assert Read(Skip(u), libc) == Read(u, libc);
  }

  lemma {:induction false} SkipTwice(s: string)
    ensures Skip(Skip(s)) == Skip(s)
  {
    var a := Skipped(s);
    SkipOver(a, Skip(s));
  }

  lemma ItemsStart(items: Items, tail: string)
    requires items.Item? && LenientItems(items)
    ensures var t := Skip(RenderItems(items) + tail); t != "" && t[0] !in {',', ']', '}'}
  {
    var rest := items.after + MoreItems(items.more);
    RenderStart(items.tree);
    Regroup(items.before, Render(items.tree) + rest, tail);
    SkipOver(items.before, Render(items.tree) + rest + tail);
  }

  lemma OneItem(before: string, r: string, x: Json, tail: string, acc: seq<Json>, libc: Libc)
    requires Spaces(before) && Read(r + tail, libc) == Parsed(x, tail) && !x.JError?
    ensures ReadItems(before + (r + tail), acc, libc) == AfterItem(tail, acc + [x], libc)
  {
    ReadOver(before, r + tail, libc);
  }

  lemma ItemsEnd(after: string, items: seq<Json>, rest: string, libc: Libc)
    requires Spaces(after)
    ensures AfterItem(after + ("]" + rest), items, libc) == Parsed(JList(items), rest)
  {
    SkipOver(after, "]" + rest);
    assert ("]" + rest)[1..] == rest;
  }

  lemma ItemsGoOn(after: string, u: string, items: seq<Json>, libc: Libc)
    requires Spaces(after)
    ensures AfterItem(after + ("," + u), items, libc) == ReadItems(u, items, libc)
  {
    SkipOver(after, "," + u);
    assert ("," + u)[1..] == u;
    ReadItemsOver(u, items, libc);
  }

  lemma {:induction false} ReadItemsTree(items: Items, acc: seq<Json>, rest: string, libc: Libc)
    requires items.Item? && LenientItems(items)
    ensures ReadItems(RenderItems(items) + ("]" + rest), acc, libc)
            == Parsed(JList(acc + ItemValues(items, libc)), rest)
    decreases items, 2
  {
    var x, tail := ValueOf(items.tree, libc), ItemTail(items, rest);
    ItemText(items, rest);
    ReadTree(items.tree, tail, libc);
    OneItem(items.before, Render(items.tree), x, tail, acc, libc);
    ReadItemTail(items, acc + [x], rest, libc);
    Snoc(acc, x, ItemValues(items.more, libc));
  }

  lemma Snoc(acc: seq<Json>, x: Json, more: seq<Json>)
    ensures acc + [x] + more == acc + ([x] + more)
  {}

  /** The text behind the first item. */
  ghost function ItemTail(items: Items, rest: string): string
    requires items.Item?
  {
    items.after + (MoreItems(items.more) + ("]" + rest))
  }

  lemma {:induction false} ReadItemTail(items: Items, acc: seq<Json>, rest: string, libc: Libc)
    requires items.Item? && LenientItems(items)
    ensures AfterItem(ItemTail(items, rest), acc, libc)
            == Parsed(JList(acc + ItemValues(items.more, libc)), rest)
    decreases items, 1
  {
    if items.more.NoItems? {
      ItemsEnd(items.after, acc, rest, libc);
      assert MoreItems(items.more) + ("]" + rest) == "]" + rest && acc + [] == acc;
    } else {
      var u := RenderItems(items.more) + ("]" + rest);
      ItemsGoOn(items.after, u, acc, libc);
      ReadItemsTree(items.more, acc, rest, libc);
      assert MoreItems(items.more) + ("]" + rest) == "," + u;
    }
  }

  lemma ItemText(items: Items, rest: string)
    requires items.Item? && LenientItems(items)
    ensures RenderItems(items) + ("]" + rest) == items.before + (Render(items.tree) + ItemTail(items, rest))
    ensures EndsNumber(ItemTail(items, rest))
  {
    Nested(items.before, Render(items.tree), items.after, MoreItems(items.more), "]" + rest);
    SpacesEnd(items.after, MoreItems(items.more) + ("]" + rest));
  }

  lemma Nested(a: string, b: string, c: string, d: string, e: string)
    ensures a + (b + (c + d)) + e == a + (b + (c + (d + e)))
  {}

  lemma {:induction false} ReadDictTree(inner: string, members: Members, rest: string, libc: Libc)
    requires Spaces(inner) && LenientMembers(members)
    ensures Read(Render(DictT(inner, members)) + rest, libc)
            == Parsed(JDict(SetMembers(members, Empty(), libc)), rest)
    decreases members, 3
  {
    var u := Bracketed('{', if members.NoMembers? then inner else RenderMembers(members), '}', rest);
    DictHead(u, libc);
    if members.NoMembers? {
      SkipOver(inner, "}" + rest);
      assert ("}" + rest)[1..] == rest;
    } else {
      MembersStart(members, "}" + rest);
      ReadMembersTree(members, Empty(), rest, libc);
    }
  }

  lemma DictHead(u: string, libc: Libc)
    ensures Read("{" + u, libc) == if StartsWith(Skip(u), '}') then Parsed(JDict(Empty()), Skip(u)[1..])
                                   else ReadMembers(u, Empty(), libc)
  {
    var s := "{" + u;
    assert Skip(s) == s && s[1..] == u;
    ReadMembersOver(u, Empty(), libc);
  }

  lemma ReadMembersOver(u: string, bs: seq<Chain<Json>>, libc: Libc)
    requires |bs| == CAPACITY
    ensures ReadMembers(Skip(u), bs, libc) == ReadMembers(u, bs, libc)
  {
    SkipTwice(u);
    assert ReadMember(Skip(u), libc) == ReadMember(u, libc);
  }

  lemma MembersStart(ms: Members, tail: string)
    requires ms.Entry? && LenientMembers(ms)
    ensures var t := Skip(RenderMembers(ms) + tail); t != "" && t[0] == '"'
  {
    var rest := ms.gap + (":" + (ms.space + (Render(ms.tree) + (ms.after + MoreMembers(ms.more)))));
    var s := RenderString(ms.key, "\"") + rest;
    Regroup(ms.before, s, tail);
    SkipOver(ms.before, s + tail);
  }

  lemma MembersEnd(after: string, bs: seq<Chain<Json>>, rest: string, libc: Libc)
    requires Spaces(after) && |bs| == CAPACITY
    ensures AfterMember(after + ("}" + rest), bs, libc) == Parsed(JDict(bs), rest)
  {
    SkipOver(after, "}" + rest);
    assert ("}" + rest)[1..] == rest;
  }

  lemma MembersGoOn(after: string, u: string, bs: seq<Chain<Json>>, libc: Libc)
    requires Spaces(after) && |bs| == CAPACITY
    ensures AfterMember(after + ("," + u), bs, libc) == ReadMembers(u, bs, libc)
  {
    SkipOver(after, "," + u);
    assert ("," + u)[1..] == u;
    ReadMembersOver(u, bs, libc);
  }

  lemma {:induction false} ReadMembersTree(ms: Members, bs: seq<Chain<Json>>, rest: string, libc: Libc)
    requires ms.Entry? && LenientMembers(ms) && |bs| == CAPACITY
    ensures ReadMembers(RenderMembers(ms) + ("}" + rest), bs, libc)
            == Parsed(JDict(SetMembers(ms, bs, libc)), rest)
    decreases ms, 2
  {
    var x, tail := ValueOf(ms.tree, libc), MemberTail(ms, rest);
    EntryText(ms, rest);
    ReadTree(ms.tree, tail, libc);
    OneMember(ms, RenderMembers(ms) + ("}" + rest), x, tail, bs, libc);
    ReadMemberTail(ms, DSet(bs, Meaning(ms.key), x), rest, libc);
  }

  /** The text behind the value of the first member. */
  ghost function MemberTail(ms: Members, rest: string): string
    requires ms.Entry?
  {
    ms.after + (MoreMembers(ms.more) + ("}" + rest))
  }

  lemma {:induction false} ReadMemberTail(ms: Members, bs: seq<Chain<Json>>, rest: string, libc: Libc)
    requires ms.Entry? && LenientMembers(ms) && |bs| == CAPACITY
    ensures AfterMember(MemberTail(ms, rest), bs, libc) == Parsed(JDict(SetMembers(ms.more, bs, libc)), rest)
    decreases ms, 1
  {
    MemberTailIs(ms, rest);
    if ms.more.NoMembers? {
      MembersEnd(ms.after, bs, rest, libc);
    } else {
      MembersGoOn(ms.after, RenderMembers(ms.more) + ("}" + rest), bs, libc);
      ReadMembersTree(ms.more, bs, rest, libc);
    }
  }

  lemma MemberTailIs(ms: Members, rest: string)
    requires ms.Entry?
    ensures MemberTail(ms, rest)
            == ms.after + (if ms.more.NoMembers? then "}" + rest else "," + (RenderMembers(ms.more) + ("}" + rest)))
  {
    Regroup(",", RenderMembers(ms.more), "}" + rest);
  }

  lemma OneMember(ms: Members, s: string, x: Json, tail: string, bs: seq<Chain<Json>>, libc: Libc)
    requires ms.Entry? && Spaces(ms.before) && Pieces(ms.key) && Spaces(ms.gap) && Spaces(ms.space)
    requires |bs| == CAPACITY && Read(Render(ms.tree) + tail, libc) == Parsed(x, tail) && !x.JError?
    requires s == ms.before + (RenderString(ms.key, "\"") + (ms.gap + (":" + (ms.space + (Render(ms.tree) + tail)))))
    ensures ReadMembers(s, bs, libc) == AfterMember(tail, DSet(bs, Meaning(ms.key), x), libc)
  {
    ReadEntry(ms, Render(ms.tree) + tail, libc);
  }

  lemma EntryText(ms: Members, rest: string)
    requires ms.Entry?
    ensures RenderMembers(ms) + ("}" + rest)
            == ms.before + (RenderString(ms.key, "\"") + (ms.gap + (":" + (ms.space
               + (Render(ms.tree) + MemberTail(ms, rest))))))
    ensures Spaces(ms.after) ==> EndsNumber(MemberTail(ms, rest))
  {
    var end := "}" + rest;
    var v := Render(ms.tree) + (ms.after + MoreMembers(ms.more));
    Nested(ms.before, RenderString(ms.key, "\""), ms.gap, ":" + (ms.space + v), end);
    Nested(":", ms.space, Render(ms.tree), ms.after + MoreMembers(ms.more), end);
    Regroup(ms.after, MoreMembers(ms.more), end);
    if Spaces(ms.after) { SpacesEnd(ms.after, MoreMembers(ms.more) + end); }
  }

  /** Key, colon and whatever value follows. */
  lemma ReadEntry(ms: Members, v: string, libc: Libc)
    requires ms.Entry? && Spaces(ms.before) && Pieces(ms.key) && Spaces(ms.gap) && Spaces(ms.space)
    ensures ReadMember(ms.before + (RenderString(ms.key, "\"") + (ms.gap + (":" + (ms.space + v)))), libc)
            == Member(Meaning(ms.key), Read(v, libc).value, Read(v, libc).rest)
  {
    var t := ":" + (ms.space + v);
    var s := RenderString(ms.key, "\"") + (ms.gap + t);
    SkipOver(ms.before, s);
    assert Skip(s) == s;
    ReadLiteral(ms.key, ms.gap + t);
    SkipOver(ms.gap, t);
    assert Skip(t) == t && t[1..] == ms.space + v;
    ReadOver(ms.space, v, libc);
  }

  /** Parsing a document, white space around it, gives its value. */
  lemma ParseLenient(a: string, t: Tree, b: string, libc: Libc)
    requires Spaces(a) && Lenient(t) && Spaces(b)
    ensures Parse(a + (Render(t) + b), libc) == ValueOf(t, libc)
  {
    ReadOver(a, Render(t) + b, libc);
    assert EndsNumber(b);
    ReadTree(t, b, libc);
    SkipOver(b, "");
    assert b + "" == b;
  }

  // ---------------------------------------------------------------- objects as maps

  /** The members as a map: of two with the same key the later one counts. */
  ghost function MembersMap(ms: Members, m: map<string, Json>, libc: Libc): map<string, Json>
    decreases ms
  {
    if ms.NoMembers? then m else MembersMap(ms.more, m[Meaning(ms.key) := ValueOf(ms.tree, libc)], libc)
  }

  /** An object holds exactly its members. */
  lemma {:induction false} ObjectMeaning(ms: Members, bs: seq<Chain<Json>>, libc: Libc)
    requires Proper(bs)
    ensures Proper(SetMembers(ms, bs, libc)) && Contents(SetMembers(ms, bs, libc)) == MembersMap(ms, Contents(bs), libc)
    decreases ms
  {
    if ms.NoMembers? {
    } else {
      DSetContents(bs, Meaning(ms.key), ValueOf(ms.tree, libc));
      ObjectMeaning(ms.more, DSet(bs, Meaning(ms.key), ValueOf(ms.tree, libc)), libc);
    }
  }
}
