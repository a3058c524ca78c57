/** The other direction: every text json_parse (src/abs.c) takes is a document, and what it gives is the
    value of that document. */
module JsonTaken {
  import opened Common
  import opened Dict
  import opened Json
  import opened JsonDocuments

  lemma {:induction false} PiecesRead(s: string) returns (ps: seq<Piece>, close: string)
    ensures Pieces(ps) && StringBody(s).chars == Meaning(ps)
    ensures s == RenderPieces(ps) + (close + StringBody(s).rest)
    ensures close == "" || (close == "\\" && StringBody(s).rest == "")
    ensures StringBody(s).rest == "" || StartsWith(StringBody(s).rest, '"')
    decreases |s|
  {
    if s == "" || s[0] == '"' {
      ps, close := [], "";
    } else if s[0] == '\\' && |s| == 1 {
      ps, close := [], "\\";
    } else {
      var p := if s[0] == '\\' then Escaped(s[1]) else Plain(s[0]);
      var u := if s[0] == '\\' then s[2..] else s[1..];
      assert s == RenderPiece(p) + u;
      ps, close := PiecesRead(u);
      UnescapeMeans(p.c);
      PrependPiece(p, ps, close + StringBody(u).rest);
      ps := [p] + ps;
    }
  }

  lemma PrependPiece(p: Piece, ps: seq<Piece>, tail: string)
    ensures ([p] + ps)[1..] == ps && RenderPieces([p] + ps) + tail == RenderPiece(p) + (RenderPieces(ps) + tail)
  {
    assert ([p] + ps)[1..] == ps;
  }

  lemma LiteralRead(s: string) returns (ps: seq<Piece>, close: string)
    requires StartsWith(s, '"')
    ensures Pieces(ps) && ReadString(s).value == JStr(Meaning(ps)) && s == RenderString(ps, close) + ReadString(s).rest
    ensures close == "\"" || ((close == "" || close == "\\") && ReadString(s).rest == "")
  {
    ps, close := PiecesRead(s[1..]);
    var b := StringBody(s[1..]);
    ReadStringIs(s, b);
    close := LiteralClosed(s, ps, close, b.rest);
  }

  lemma ReadStringIs(s: string, b: Body)
    requires StartsWith(s, '"') && b == StringBody(s[1..])
    ensures ReadString(s) == Parsed(JStr(b.chars), if StartsWith(b.rest, '"') then b.rest[1..] else b.rest)
  {}

  lemma LiteralClosed(s: string, ps: seq<Piece>, c: string, rest: string) returns (close: string)
    requires StartsWith(s, '"') && s[1..] == RenderPieces(ps) + (c + rest)
    requires (rest == "" || StartsWith(rest, '"')) && (c == "" || (c == "\\" && rest == ""))
    ensures s == RenderString(ps, close) + (if StartsWith(rest, '"') then rest[1..] else rest)
    ensures close == "\"" || ((close == "" || close == "\\") && rest == "")
  {
    if rest == "" {
      close := c;
      LiteralText(s, ps, close, "");
    } else {
      close := "\"";
      assert c + rest == "\"" + rest[1..];
      LiteralText(s, ps, close, rest[1..]);
    }
  }

  lemma LiteralText(s: string, ps: seq<Piece>, close: string, rest: string)
    requires StartsWith(s, '"') && s[1..] == RenderPieces(ps) + (close + rest)
    ensures s == RenderString(ps, close) + rest
  {
    assert s == "\"" + s[1..];
  }

  lemma {:induction false} NumberRead(s: string, n: nat)
    ensures forall i :: 0 <= i < NumberLength(s, n) ==> IsNumChar(s[i])
  {
    if n == 0 || s == "" || !IsNumChar(s[0]) {
    } else {
      NumberRead(s[1..], n - 1);
      forall i | 0 <= i < NumberLength(s, n) ensures IsNumChar(s[i]) {
        if i > 0 { assert s[i] == s[1..][i - 1]; }
      }
    }
  }

  /** The text is a, the document t and the rest that is left. */
  ghost predicate Taken(s: string, r: Parsed, a: string, t: Tree, libc: Libc) {
    && Spaces(a) && s == a + (Render(t) + r.rest) && r.value == ValueOf(t, libc)
    && (Lenient(t) || (Open(t) && r.rest == ""))
  }

  /** What is read is the text of a document and its value. */
  lemma {:induction false} TreeRead(s: string, libc: Libc) returns (a: string, t: Tree)
    requires !Read(s, libc).value.JError?
    ensures Taken(s, Read(s, libc), a, t, libc)
    decreases |s|, 1
  {
    a := Skipped(s);
    var u, r := Skip(s), Read(s, libc);
    SkipTwice(s);
    if u[0] == '[' {
      t := ListRead(u, libc);
      assert r == ReadList(u, libc);
    } else if u[0] == '{' {
      t := DictRead(u, libc);
      assert r == ReadDict(u, libc);
    } else {
      t := AtomRead(u, libc);
      assert r == Read(u, libc);
    }
    TakenBehind(s, u, r, a, t, libc);
  }

  lemma TakenBehind(s: string, u: string, r: Parsed, a: string, t: Tree, libc: Libc)
    requires Taken(u, r, "", t, libc) && Spaces(a) && s == a + u
    ensures Taken(s, r, a, t, libc)
  {}

  lemma AtomRead(u: string, libc: Libc) returns (t: Tree)
    requires Skip(u) == u && !Read(u, libc).value.JError? && u[0] != '[' && u[0] != '{'
    ensures Taken(u, Read(u, libc), "", t, libc)
  {
    if u[0] == '"' {
      var ps, close := LiteralRead(u);
      t := StringT(ps, close);
    } else if u[0] == '-' || IsDigit(u[0]) {
      t := NumberT(u[..NumberLength(u, NUMBER_MAX)]);
      NumberRead(u, NUMBER_MAX);
    } else {
      t := if "true" <= u then TrueT else if "false" <= u then FalseT else NullT;
    }
  }

  lemma {:induction false} ListRead(s: string, libc: Libc) returns (t: Tree)
    requires StartsWith(s, '[') && !ReadList(s, libc).value.JError?
    ensures Taken(s, ReadList(s, libc), "", t, libc) && Lenient(t)
    decreases |s|, 0
  {
    var u, r := s[1..], ReadList(s, libc);
    if StartsWith(Skip(u), ']') {
      var inner := Skipped(u);
      t := ListT(inner, NoItems);
      Closed('[', inner, ']', r.rest, s);
    } else {
      ReadItemsOver(u, [], libc);
      var items := ItemsRead(u, [], libc);
      t := ListTaken(s, items, r, libc);
    }
  }

  lemma ListTaken(s: string, items: Items, r: Parsed, libc: Libc) returns (t: Tree)
    requires StartsWith(s, '[') && ItemsTaken(s[1..], [], r, items, libc)
    ensures Taken(s, r, "", t, libc) && Lenient(t)
  {
    t := ListT("", items);
    assert [] + ItemValues(items, libc) == ItemValues(items, libc);
    Closed('[', RenderItems(items), ']', r.rest, s);
  }

  lemma Closed(open: char, u: string, close: char, rest: string, s: string)
    requires StartsWith(s, open) && s[1..] == u + ([close] + rest)
    ensures s == [open] + (u + [close]) + rest
  {}

  /** What the loop of a list does with the next item. */
  lemma ItemsStep(s: string, acc: seq<Json>, read: Parsed, v: string, r: Parsed, libc: Libc)
    requires r == ReadItems(s, acc, libc) && !r.value.JError? && read == Read(s, libc) && v == Skip(read.rest)
    ensures !read.value.JError?
    ensures if StartsWith(v, ']') then r == Parsed(JList(acc + [read.value]), v[1..])
            else StartsWith(v, ',') && r == ReadItems(v[1..], acc + [read.value], libc)
  {
    if StartsWith(v, ',') { ReadItemsOver(v[1..], acc + [read.value], libc); }
  }

  ghost predicate ItemsTaken(s: string, acc: seq<Json>, r: Parsed, items: Items, libc: Libc) {
    && items.Item? && LenientItems(items) && s == RenderItems(items) + ("]" + r.rest)
    && r.value == JList(acc + ItemValues(items, libc))
  }

  lemma {:induction false} ItemsRead(s: string, acc: seq<Json>, libc: Libc) returns (items: Items)
    requires !ReadItems(s, acc, libc).value.JError?
    ensures ItemsTaken(s, acc, ReadItems(s, acc, libc), items, libc)
    decreases |s|, 4
  {
    var read, r := Read(s, libc), ReadItems(s, acc, libc);
    var v := Skip(read.rest);
    ItemsStep(s, acc, read, v, r, libc);
    var before, t := TreeRead(s, libc);
    var after := Skipped(read.rest);
    var more := ItemsMore(v, acc + [read.value], r, libc);
    items := ItemsJoined(before, t, after, more, v, s, acc, read, r, libc);
  }

  lemma {:induction false} ItemsMore(v: string, acc: seq<Json>, r: Parsed, libc: Libc) returns (more: Items)
    requires !r.value.JError?
    requires if StartsWith(v, ']') then r == Parsed(JList(acc), v[1..])
             else StartsWith(v, ',') && r == ReadItems(v[1..], acc, libc)
    ensures if more.NoItems? then v == "]" + r.rest && r.value == JList(acc)
            else StartsWith(v, ',') && ItemsTaken(v[1..], acc, r, more, libc)
    decreases |v|, 3
  {
    if StartsWith(v, ']') {
      more := NoItems;
      assert v == [']'] + v[1..];
    } else {
      more := ItemsRead(v[1..], acc, libc);
    }
  }

  lemma ItemsJoined(before: string, t: Tree, after: string, more: Items, v: string, s: string, acc: seq<Json>,
                    read: Parsed, r: Parsed, libc: Libc) returns (items: Items)
    requires Taken(s, read, before, t, libc) && v != "" && read.rest == after + v && Spaces(after)
    requires if more.NoItems? then v == "]" + r.rest && r.value == JList(acc + [read.value])
             else StartsWith(v, ',') && ItemsTaken(v[1..], acc + [read.value], r, more, libc)
    ensures ItemsTaken(s, acc, r, items, libc)
  {
    items := Item(before, t, after, more);
    assert v == [v[0]] + v[1..];
    Snoc(acc, read.value, ItemValues(more, libc));
    assert [read.value] + [] == [read.value];
    Assembled(items, s, v, r.rest);
  }

  lemma Assembled(items: Items, s: string, v: string, rest: string)
    requires items.Item? && s == items.before + (Render(items.tree) + (items.after + v))
    requires v == if items.more.NoItems? then "]" + rest else "," + (RenderItems(items.more) + ("]" + rest))
    ensures s == RenderItems(items) + ("]" + rest)
  {
    if items.more.Item? { Regroup(",", RenderItems(items.more), "]" + rest); }
    assert v == MoreItems(items.more) + ("]" + rest);
    Nested(items.before, Render(items.tree), items.after, MoreItems(items.more), "]" + rest);
  }

  lemma {:induction false} DictRead(s: string, libc: Libc) returns (t: Tree)
    requires StartsWith(s, '{') && !ReadDict(s, libc).value.JError?
    ensures Taken(s, ReadDict(s, libc), "", t, libc) && Lenient(t)
    decreases |s|, 0
  {
    var u, r := s[1..], ReadDict(s, libc);
    if StartsWith(Skip(u), '}') {
      var inner := Skipped(u);
      t := DictT(inner, NoMembers);
      Closed('{', inner, '}', r.rest, s);
    } else {
      ReadMembersOver(u, Empty(), libc);
      var members := MembersRead(u, Empty(), libc);
      t := DictTaken(s, members, r, libc);
    }
  }

  lemma DictTaken(s: string, ms: Members, r: Parsed, libc: Libc) returns (t: Tree)
    requires StartsWith(s, '{') && MembersTaken(s[1..], Empty(), r, ms, libc)
    ensures Taken(s, r, "", t, libc) && Lenient(t)
  {
    t := DictT("", ms);
    Closed('{', RenderMembers(ms), '}', r.rest, s);
  }

  lemma MembersStep(s: string, bs: seq<Chain<Json>>, m: Member, v: string, next: seq<Chain<Json>>, r: Parsed,
                    libc: Libc)
    requires |bs| == CAPACITY && r == ReadMembers(s, bs, libc) && !r.value.JError?
    requires m == ReadMember(s, libc) && v == Skip(m.rest) && next == DSet(bs, m.key, m.value)
    ensures !m.value.JError? && |next| == CAPACITY
    ensures if StartsWith(v, '}') then r == Parsed(JDict(next), v[1..])
            else StartsWith(v, ',') && r == ReadMembers(v[1..], next, libc)
  {
    if StartsWith(v, ',') { ReadMembersOver(v[1..], next, libc); }
  }

  lemma MemberStep(s: string, m: Member, k: Parsed, v: string, libc: Libc)
    requires m == ReadMember(s, libc) && !m.value.JError? && k == ReadString(Skip(s)) && v == Skip(k.rest)
    ensures k.value == JStr(m.key) && StartsWith(v, ':') && Read(v[1..], libc) == Parsed(m.value, m.rest)
  {}

  lemma KeyStarts(s: string, k: Parsed, v: string)
    requires k == ReadString(s) && k.value.JStr? && v == Skip(k.rest)
    ensures StartsWith(s, '"') && |v| < |s|
  {}

  /** e is the member m, with nothing behind its value yet. */
  ghost predicate MemberTaken(s: string, m: Member, e: Members, libc: Libc) {
    && e.Entry? && e.after == "" && e.more.NoMembers? && (Skip(m.rest) != "" ==> LenientMembers(e))
    && m.key == Meaning(e.key) && m.value == ValueOf(e.tree, libc)
    && s == e.before + (RenderString(e.key, "\"") + (e.gap + (":" + (e.space + (Render(e.tree) + m.rest)))))
  }

  lemma {:induction false} MemberRead(s: string, m: Member, libc: Libc) returns (e: Members)
    requires m == ReadMember(s, libc) && !m.value.JError?
    ensures MemberTaken(s, m, e, libc)
    decreases |s|, 2
  {
    var before := Skipped(s);
    var k := ReadString(Skip(s));
    var v := Skip(k.rest);
    MemberStep(s, m, k, v, libc);
    KeyStarts(Skip(s), k, v);
    var key, close := LiteralRead(Skip(s));
    var gap := Skipped(k.rest);
    var space, t := TreeRead(v[1..], libc);
    e := MemberJoined(s, m, before, key, close, k.rest, gap, v, space, t, libc);
  }

  lemma MemberJoined(s: string, m: Member, before: string, key: seq<Piece>, close: string, u: string, gap: string,
                     v: string, space: string, t: Tree, libc: Libc) returns (e: Members)
    requires s == before + (RenderString(key, close) + u) && Spaces(before) && Pieces(key) && m.key == Meaning(key)
    requires close == "\"" || u == ""
    requires u == gap + v && Spaces(gap) && StartsWith(v, ':') && Taken(v[1..], Parsed(m.value, m.rest), space, t, libc)
    ensures MemberTaken(s, m, e, libc)
  {
    e := Entry(before, key, gap, space, t, "", NoMembers);
    assert v == ":" + v[1..];
  }

  ghost predicate MembersTaken(s: string, bs: seq<Chain<Json>>, r: Parsed, ms: Members, libc: Libc) {
    && |bs| == CAPACITY && ms.Entry? && LenientMembers(ms) && s == RenderMembers(ms) + ("}" + r.rest)
    && r.value == JDict(SetMembers(ms, bs, libc))
  }

  lemma {:induction false} MembersRead(s: string, bs: seq<Chain<Json>>, libc: Libc) returns (ms: Members)
    requires |bs| == CAPACITY && !ReadMembers(s, bs, libc).value.JError?
    ensures MembersTaken(s, bs, ReadMembers(s, bs, libc), ms, libc)
    decreases |s|, 4
  {
    var read, r := ReadMember(s, libc), ReadMembers(s, bs, libc);
    var v, next := Skip(read.rest), DSet(bs, read.key, read.value);
    MembersStep(s, bs, read, v, next, r, libc);
    var m := MemberRead(s, read, libc);
    var after := Skipped(read.rest);
    var more := MembersMore(v, next, r, libc);
    ms := MembersJoined(read, m, after, more, v, s, bs, next, r, libc);
  }

  lemma {:induction false} MembersMore(v: string, next: seq<Chain<Json>>, r: Parsed, libc: Libc) returns (more: Members)
    requires |next| == CAPACITY && !r.value.JError?
    requires if StartsWith(v, '}') then r == Parsed(JDict(next), v[1..])
             else StartsWith(v, ',') && r == ReadMembers(v[1..], next, libc)
    ensures if more.NoMembers? then v == "}" + r.rest && r.value == JDict(next)
            else StartsWith(v, ',') && MembersTaken(v[1..], next, r, more, libc)
    decreases |v|, 3
  {
    if StartsWith(v, '}') {
      more := NoMembers;
      assert v == ['}'] + v[1..];
    } else {
      more := MembersRead(v[1..], next, libc);
    }
  }

  lemma MembersJoined(read: Member, m: Members, after: string, more: Members, v: string, s: string,
                      bs: seq<Chain<Json>>, next: seq<Chain<Json>>, r: Parsed, libc: Libc) returns (ms: Members)
    requires |bs| == CAPACITY && MemberTaken(s, read, m, libc) && Spaces(after)
    requires read.rest == after + v && v == Skip(read.rest) && next == DSet(bs, read.key, read.value)
    requires if more.NoMembers? then v == "}" + r.rest && r.value == JDict(next)
             else StartsWith(v, ',') && MembersTaken(v[1..], next, r, more, libc)
    ensures MembersTaken(s, bs, r, ms, libc)
  {
    ms := m.(after := after, more := more);
    assert v == [v[0]] + v[1..];
    MembersAssembled(ms, s, v, r.rest);
  }

  lemma MembersAssembled(ms: Members, s: string, v: string, rest: string)
    requires ms.Entry?
    requires s == ms.before + (RenderString(ms.key, "\"") + (ms.gap + (":" + (ms.space
                  + (Render(ms.tree) + (ms.after + v))))))
    requires v == if ms.more.NoMembers? then "}" + rest else "," + (RenderMembers(ms.more) + ("}" + rest))
    ensures s == RenderMembers(ms) + ("}" + rest)
  {
    MemberTailIs(ms, rest);
    EntryText(ms, rest);
  }

  // ---------------------------------------------------------------- json_parse

  /** The text is a document between white space; a last literal may be open. */
  ghost predicate IsDocument(s: string, a: string, t: Tree, b: string) {
    s == a + (Render(t) + b) && Spaces(a) && Spaces(b) && (Lenient(t) || (Open(t) && b == ""))
  }

  lemma {:induction false} ReadOpen(ps: seq<Piece>, close: string)
    requires Pieces(ps) && (close == "" || close == "\\")
    ensures StringBody(RenderPieces(ps) + close) == Body(Meaning(ps), "")
  {
    if ps == [] {
      assert RenderPieces(ps) + close == close;
    } else {
      ReadOpen(ps[1..], close);
      Regroup(RenderPiece(ps[0]), RenderPieces(ps[1..]), close);
      PieceBody(ps[0], RenderPieces(ps[1..]) + close);
    }
  }

  lemma ReadDocument(t: Tree, b: string, libc: Libc)
    requires Spaces(b) && (Lenient(t) || (Open(t) && b == ""))
    ensures Read(Render(t) + b, libc) == Parsed(ValueOf(t, libc), b)
  {
    if Lenient(t) {
      assert EndsNumber(b);
      ReadTree(t, b, libc);
    } else {
      var u := RenderPieces(t.ps) + t.close;
      ReadOpen(t.ps, t.close);
      assert Render(t) + b == "\"" + u && ("\"" + u)[1..] == u && Skip("\"" + u) == "\"" + u;
    }
  }

  /** Parsing a document gives its value. */
  lemma ParseDocument(s: string, a: string, t: Tree, b: string, libc: Libc)
    requires IsDocument(s, a, t, b)
    ensures Parse(s, libc) == ValueOf(t, libc) && !Parse(s, libc).JError?
  {
    ReadOver(a, Render(t) + b, libc);
    ReadDocument(t, b, libc);
    SkipOver(b, "");
    assert b + "" == b;
  }

  /** json_parse reports no error exactly for the documents. */
  lemma AcceptedExactly(s: string, libc: Libc)
    ensures !Parse(s, libc).JError? <==> exists a, t, b :: IsDocument(s, a, t, b)
  {
    if !Parse(s, libc).JError? {
      var a, t := TreeRead(s, libc);
      var b := Skipped(Read(s, libc).rest);
      assert Read(s, libc).rest == b;
      assert IsDocument(s, a, t, b);
    }
    if a, t, b :| IsDocument(s, a, t, b) {
      ParseDocument(s, a, t, b, libc);
    }
  }
}
