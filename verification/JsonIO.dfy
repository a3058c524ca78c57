/** json_parse and json_dump in their imperative form (src/abs.c): the parser moves a cursor over
    the text and builds dictionaries with dset, the printer appends to a growing buffer. */
module JsonIO {
  import opened Common
  import opened Dict
  import opened Json

  datatype Next = Closed | Comma | Neither

  class Parser {
    const text: string
    const libc: Libc
    /** json_cur. */
    var cur: nat

    constructor (text: string, libc: Libc)
      ensures this.text == text && this.libc == libc && cur == 0
    {
      this.text := text;
      this.libc := libc;
      cur := 0;
    }

    ghost predicate Valid()
      reads this
    {
      cur <= |text|
    }

    /** The text from the cursor on. */
    ghost function Rest(): string
      requires Valid()
      reads this
    {
      text[cur..]
    }

    predicate At(c: char)
      requires Valid()
      reads this
      ensures At(c) <==> StartsWith(Rest(), c)
    {
      cur < |text| && text[cur] == c
    }

    method Advance()
      requires Valid() && cur < |text|
      modifies this
      ensures Valid() && cur == old(cur) + 1 && Rest() == old(Rest())[1..]
    {
      cur := cur + 1;
    }

    method SkipSpaces()
      requires Valid()
      modifies this
      ensures Valid() && Rest() == Skip(old(Rest())) && cur >= old(cur)
    {
      while cur < |text| && IsSpace(text[cur])
        invariant Valid() && cur >= old(cur) && Skip(Rest()) == Skip(old(Rest()))
      {
        Advance();
      }
    }

    method ParseString() returns (r: Json)
      requires Valid()
      modifies this
      ensures Valid() && Parsed(r, Rest()) == ReadString(old(Rest())) && cur >= old(cur)
      ensures r.JStr? || r.JError?
    {
      if !At('"') {
        return JError("Expected string");
      }
      Advance();
      var s := ParseBody();
      if At('"') { Advance(); }
      r := JStr(s);
    }

    /** The loop of parse_json_string. */
    method ParseBody() returns (s: string)
      requires Valid()
      modifies this
      ensures Valid() && Body(s, Rest()) == StringBody(old(Rest())) && cur >= old(cur)
    {
      s := "";
      while cur < |text| && text[cur] != '"'
        invariant Valid() && cur >= old(cur) && InBody(old(Rest()), s, Rest())
      {
        if text[cur] == '\\' {
          ghost var here := Rest();
          Advance();
          if cur == |text| {
            LoneBackslash(old(Rest()), s, here);
            return;
          }
          BodyEscapePiece(old(Rest()), s, here);
          s := s + Unescape(text[cur]);
        } else {
          BodyPlainPiece(old(Rest()), s, Rest());
          s := s + [text[cur]];
        }
        Advance();
      }
      assert s + "" == s;
    }

    method ParseNumber() returns (r: Json)
      requires Valid()
      modifies this
      ensures Valid() && Parsed(r, Rest()) == ReadNumber(old(Rest()), libc) && cur >= old(cur)
    {
      var buf := "";
      ghost var start := Rest();
      while |buf| < NUMBER_MAX && cur < |text| && IsNumChar(text[cur])
        invariant Valid() && |buf| <= NUMBER_MAX && cur == old(cur) + |buf| && buf == start[..|buf|]
        invariant NumberLength(start, NUMBER_MAX) == |buf| + NumberLength(Rest(), NUMBER_MAX - |buf|)
      {
        assert start[|buf|] == text[cur];
        buf := buf + [text[cur]];
        Advance();
      }
      assert NumberLength(start, NUMBER_MAX) == |buf| && start[|buf|..] == Rest();
      if buf == "" {
        return JError("Invalid number");
      }
      r := NumberOf(buf, libc);
    }

    method ParseKeyword() returns (r: Json)
      requires Valid()
      modifies this
      ensures Valid() && Parsed(r, Rest()) == ReadKeyword(old(Rest())) && cur >= old(cur)
    {
      ghost var s := Rest();
      if "true" <= text[cur..] {
        assert s[4..] == text[cur + 4..];
        cur := cur + 4;
        return JBool(true);
      }
      if "false" <= text[cur..] {
        assert s[5..] == text[cur + 5..];
        cur := cur + 5;
        return JBool(false);
      }
      if "null" <= text[cur..] {
        assert s[4..] == text[cur + 4..];
        cur := cur + 4;
        return JNull;
      }
      r := JError("Invalid JSON value");
    }

    method ParseValue() returns (r: Json)
      requires Valid()
      modifies this
      ensures Valid() && Parsed(r, Rest()) == Read(old(Rest()), libc) && cur >= old(cur)
      decreases |text| - cur, 1
    {
      SkipSpaces();
      if cur == |text| {
        return JError("Unexpected end of JSON");
      }
      if At('"') {
        r := ParseString();
      } else if At('[') {
        r := ParseList();
      } else if At('{') {
        r := ParseDict();
      } else if text[cur] == '-' || IsDigit(text[cur]) {
        r := ParseNumber();
      } else {
        r := ParseKeyword();
      }
    }

    method ParseList() returns (r: Json)
      requires Valid() && At('[')
      modifies this
      ensures Valid() && cur >= old(cur)
      ensures Parsed(r, Rest()) == ReadList(old(Rest()), libc)
      decreases |text| - cur, 0
    {
      Advance();
      SkipSpaces();
      ghost var u := Rest();
      if At(']') {
        Advance();
        return JList([]);
      }
      var items := [];
      while true
        invariant Valid() && cur > old(cur) && ReadItems(u, [], libc) == ReadItems(Rest(), items, libc)
        decreases |text| - cur
      {
        var item := ParseValue();
        if item.JError? {
          return item;
        }
        items := items + [item];
        var after := Continue(']');
        if after == Closed {
          return JList(items);
        }
        if after == Neither {
          return JError("Expected ',' or ']' in list");
        }
      }
    }

    /** What the list and the member loop do behind an element: the closing bracket ends the loop, a
        comma and spaces are skipped. */
    method Continue(close: char) returns (r: Next)
      requires Valid() && close != ','
      modifies this
      ensures Valid() && cur >= old(cur)
      ensures r == if StartsWith(Skip(old(Rest())), close) then Closed
                   else if StartsWith(Skip(old(Rest())), ',') then Comma else Neither
      ensures Rest() == var t := Skip(old(Rest()));
                        if r == Closed then t[1..] else if r == Comma then Skip(t[1..]) else t
      ensures r == Comma ==> cur > old(cur)
    {
      SkipSpaces();
      if At(close) {
        Advance();
        return Closed;
      }
      if !At(',') {
        return Neither;
      }
      Advance();
      SkipSpaces();
      return Comma;
    }

    method ParseDict() returns (r: Json)
      requires Valid() && At('{')
      modifies this
      ensures Valid() && cur >= old(cur)
      ensures Parsed(r, Rest()) == ReadDict(old(Rest()), libc)
      decreases |text| - cur, 0
    {
      Advance();
      SkipSpaces();
      if At('}') {
        Advance();
        return JDict(Empty());
      }
      var d := new Dict<Json>();
      r := ParseMembers(d);
    }

    /** The loop of parse_json_dict. */
    method ParseMembers(d: Dict<Json>) returns (r: Json)
      requires Valid() && d.Valid()
      modifies this, d, d.buckets, d.Repr
      ensures Valid() && cur >= old(cur)
      ensures Parsed(r, Rest()) == ReadMembers(old(Rest()), old(d.chains), libc)
      decreases |text| - cur, 4
    {
      var more := true;
      r := JNull;
      while more
        invariant Valid() && cur >= old(cur) && d.Valid() && fresh(d.Repr - old(d.Repr))
        invariant ReadMembers(old(Rest()), old(d.chains), libc)
                  == if more then ReadMembers(Rest(), d.chains, libc) else Parsed(r, Rest())
        decreases more, |text| - cur
      {
        more, r := ParseRound(d);
      }
    }

    /** One round: a member is read and stored; more says that another one follows. */
    method ParseRound(d: Dict<Json>) returns (more: bool, r: Json)
      requires Valid() && d.Valid()
      modifies this, d, d.buckets, d.Repr
      ensures Valid() && cur >= old(cur) && (more ==> cur > old(cur)) && d.Valid() && fresh(d.Repr - old(d.Repr))
      ensures ReadMembers(old(Rest()), old(d.chains), libc)
              == if more then ReadMembers(Rest(), d.chains, libc) else Parsed(r, Rest())
      decreases |text| - cur, 3
    {
      var key, val := StoreMember(d);
      if val.JError? {
        return false, val;
      }
      var after := Continue('}');
      if after == Neither {
        return false, JError("Expected ',' or '}' in object");
      }
      return after == Comma, JDict(d.Chains());
    }

    /** A member is read and, unless it is erroneous, stored. */
    method StoreMember(d: Dict<Json>) returns (ghost key: string, val: Json)
      requires Valid() && d.Valid()
      modifies this, d, d.buckets, d.Repr
      ensures Valid() && cur >= old(cur) && d.Valid() && fresh(d.Repr - old(d.Repr))
      ensures ReadMember(old(Rest()), libc) == Member(key, val, Rest())
      ensures d.chains == if val.JError? then old(d.chains) else DSet(old(d.chains), key, val)
      decreases |text| - cur, 2
    {
      var k;
      k, val := ParseMember();
      key := k;
      if !val.JError? { d.Store(k, val); }
    }

    /** A key, a colon and a value. */
    method ParseMember() returns (key: string, val: Json)
      requires Valid()
      modifies this
      ensures Valid() && cur >= old(cur)
      ensures ReadMember(old(Rest()), libc) == Member(key, val, Rest())
      decreases |text| - cur, 1
    {
      SkipSpaces();
      var k := ParseString();
      if k.JError? {
        return "", k;
      }
      SkipSpaces();
      if !At(':') {
        return "", JError("Expected ':' in object");
      }
      Advance();
      val := ParseValue();
      key := k.s;
    }
  }

  /** The characters s have been read of the literal start, and rest is left of it. */
  ghost predicate InBody(start: string, s: string, rest: string) {
    StringBody(start) == Body(s + StringBody(rest).chars, StringBody(rest).rest)
  }

  lemma BodyPlainPiece(start: string, s: string, rest: string)
    requires InBody(start, s, rest) && rest != "" && rest[0] != '"' && rest[0] != '\\'
    ensures InBody(start, s + [rest[0]], rest[1..])
  {}

  lemma BodyEscapePiece(start: string, s: string, rest: string)
    requires InBody(start, s, rest) && |rest| > 1 && rest[0] == '\\'
    ensures InBody(start, s + Unescape(rest[1]), rest[1..][1..])
  {}

  lemma LoneBackslash(start: string, s: string, rest: string)
    requires InBody(start, s, rest) && |rest| == 1 && rest[0] == '\\'
    ensures StringBody(start) == Body(s, rest[1..])
  {}

  /** json_parse. */
  method JsonParse(s: string, libc: Libc) returns (r: Json)
    ensures r == Parse(s, libc)
  {
    var p := new Parser(s, libc);
    assert s[0..] == s;
    r := p.ParseValue();
    p.SkipSpaces();
    if p.cur < |s| && !r.JError? {
      r := JError("Trailing characters after JSON value");
    }
  }

  class Printer {
    const libc: Libc
    /** The growing buffer. */
    var out: string

    constructor (libc: Libc)
      ensures this.libc == libc && out == ""
    {
      this.libc := libc;
      out := "";
    }

    method Append(s: string)
      modifies this
      ensures out == old(out) + s
    {
      out := out + s;
    }

    /** json_escape. */
    method EscapeText(s: string)
      modifies this
      ensures out == old(out) + Escape(s)
    {
      for i := 0 to |s|
        invariant out + Escape(s[i..]) == old(out) + Escape(s)
      {
        assert s[i..][1..] == s[i + 1..];
        Assoc(out, EscapeChar(s[i]), Escape(s[i + 1..]));
        Append(EscapeChar(s[i]));
      }
    }

    /** json_dump_rec. */
    method Dump(x: Json)
      modifies this
      ensures out == old(out) + Text(x, libc)
      decreases Size(x), 1
    {
      match x
      case JBool(b) => Append(if b then "true" else "false");
      case JInt(i) => Append(IntText(i));
      case JFloat(f) => Append(libc.format(f));
      case JStr(s) => DumpString(s);
      case JList(items) => DumpList(items);
      case JSet(items) => DumpList(items);
      case JDict(buckets) => DumpDict(buckets);
      case _ => Append("null");
    }

    method DumpString(s: string)
      modifies this
      ensures out == old(out) + Quote(s)
    {
      Append("\"");
      EscapeText(s);
      Append("\"");
    }

    method DumpList(items: seq<Json>)
      modifies this
      ensures out == old(out) + ("[" + ItemsText(items, false, libc) + "]")
      decreases ItemsSize(items), 3
    {
      Append("[");
      DumpItems(items);
      Append("]");
    }

    method DumpDict(buckets: seq<Chain<Json>>)
      modifies this
      ensures out == old(out) + ("{" + BucketsText(buckets, false, libc) + "}")
      decreases BucketsSize(buckets), 4
    {
      Append("{");
      DumpBuckets(buckets);
      Append("}");
    }

    method DumpItems(items: seq<Json>)
      modifies this
      ensures out == old(out) + ItemsText(items, false, libc)
      decreases ItemsSize(items), 2
    {
      for i := 0 to |items|
        invariant out + ItemsText(items[i..], i > 0, libc) == old(out) + ItemsText(items, false, libc)
        invariant ItemsSize(items[i..]) <= ItemsSize(items)
      {
        assert items[i..][1..] == items[i + 1..];
        Assoc(out, Separator(i > 0) + Text(items[i], libc), ItemsText(items[i + 1..], true, libc));
        Assoc(out, Separator(i > 0), Text(items[i], libc));
        Append(Separator(i > 0));
        Dump(items[i]);
      }
    }

    method DumpBuckets(buckets: seq<Chain<Json>>)
      modifies this
      ensures out == old(out) + BucketsText(buckets, false, libc)
      decreases BucketsSize(buckets), 3
    {
      var more := false;
      for i := 0 to |buckets|
        invariant out + BucketsText(buckets[i..], more, libc) == old(out) + BucketsText(buckets, false, libc)
        invariant BucketsSize(buckets[i..]) <= BucketsSize(buckets)
      {
        assert buckets[i..][1..] == buckets[i + 1..];
        Assoc(out, ChainText(buckets[i], more, libc), BucketsText(buckets[i + 1..], more || buckets[i].Link?, libc));
        more := DumpChain(buckets[i], more);
      }
    }

    /** The inner loop over the nodes of a bucket; more says that a member has been printed. */
    method DumpChain(c: Chain<Json>, more: bool) returns (more': bool)
      modifies this
      ensures out == old(out) + ChainText(c, more, libc) && more' == (more || c.Link?)
      decreases ChainSize(c), 2
    {
      more' := more;
      var node := c;
      while node.Link?
        invariant out + ChainText(node, more', libc) == old(out) + ChainText(c, more, libc)
        invariant ChainSize(node) <= ChainSize(c) && (more' || node.Link? <==> more || c.Link?)
        decreases node
      {
        Assoc(out, MemberText(node, more', libc), ChainText(node.next, true, libc));
        DumpMember(node, more');
        more' := true;
        node := node.next;
      }
    }

    method DumpMember(node: Chain<Json>, more: bool)
      requires node.Link?
      modifies this
      ensures out == old(out) + MemberText(node, more, libc)
      decreases ChainSize(node), 1
    {
      Append(Separator(more));
      DumpString(node.key);
      Append(": ");
      Dump(node.value);
      assert out == old(out) + Separator(more) + Quote(node.key) + ": " + Text(node.value, libc);
    }
  }

  lemma Assoc(a: string, b: string, c: string)
    ensures a + (b + c) == a + b + c
  {}

  /** json_dump. */
  method JsonDump(x: Json, libc: Libc) returns (r: string)
    ensures r == Text(x, libc)
  {
    var p := new Printer(libc);
    p.Dump(x);
    r := p.out;
  }
}
