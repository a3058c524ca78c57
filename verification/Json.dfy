/** JSON values and their text (json_escape, json_dump_rec in src/abs.c), and the reading of text
    (json_parse and its helpers) as functions; the imperative forms are in JsonIO.dfy. Characters
    stand for bytes; the end of a string plays the part of the terminating NUL. */
module Json {
  import opened Common
  import opened Dict

  /** A value, as a tree. JNull is None or a null pointer, JOther any type json_dump_rec has no
      case for. */
  datatype Json =
    | JNull
    | JBool(b: bool)
    | JInt(i: int)
    | JFloat(f: real)
    | JStr(s: string)
    | JList(items: seq<Json>)
    | JSet(items: seq<Json>)
    | JDict(buckets: seq<Chain<Json>>)
    | JError(message: string)
    | JOther

  /** What the C library does with doubles: printf's "%.17g" and atof. */
  datatype Libc = Libc(format: real -> string, atof: string -> real)

  // ---------------------------------------------------------------- printing

  const BACKSPACE := 8 as char
  const FORMFEED := 12 as char
  const VTAB := 11 as char

  /** Control characters without an escape of their own. */
  predicate IsRawControl(c: char) {
    c < ' ' && c != '\n' && c != '\r' && c != '\t' && c != BACKSPACE && c != FORMFEED
  }

  function HexDigit(n: nat): char
    requires n < 16
  {
    if n < 10 then ('0' as int + n) as char else ('a' as int + n - 10) as char
  }

  function EscapeChar(c: char): string {
    if c == '"' then "\\\""
    else if c == '\\' then "\\\\"
    else if c == '\n' then "\\n"
    else if c == '\r' then "\\r"
    else if c == '\t' then "\\t"
    else if c == BACKSPACE then "\\b"
    else if c == FORMFEED then "\\f"
    else if c < ' ' then "\\u00" + [HexDigit(c as int / 16), HexDigit(c as int % 16)]
    else [c]
  }

  function Escape(s: string): string {
    if s == "" then "" else EscapeChar(s[0]) + Escape(s[1..])
  }

  function Quote(s: string): string {
    "\"" + Escape(s) + "\""
  }

  /** printf's "%ld". */
  function Decimal(n: nat): (r: string)
    ensures r != ""
  {
    (if n < 10 then "" else Decimal(n / 10)) + [('0' as int + n % 10) as char]
  }

  function IntText(i: int): string {
    if i < 0 then "-" + Decimal(-i) else Decimal(i)
  }

  /** The text of a value. */
  function Text(x: Json, libc: Libc): string
    decreases x
  {
    match x
    case JBool(b) => if b then "true" else "false"
    case JInt(i) => IntText(i)
    case JFloat(f) => libc.format(f)
    case JStr(s) => Quote(s)
    case JList(items) => "[" + ItemsText(items, false, libc) + "]"
    case JSet(items) => "[" + ItemsText(items, false, libc) + "]"
    case JDict(buckets) => "{" + BucketsText(buckets, false, libc) + "}"
    case _ => "null"
  }

  function Separator(more: bool): string {
    if more then ", " else ""
  }

  /** The items, separated; more says that others came before. */
  function ItemsText(items: seq<Json>, more: bool, libc: Libc): string
    decreases items
  {
    if items == [] then "" else Separator(more) + Text(items[0], libc) + ItemsText(items[1..], true, libc)
  }

  function ChainText(c: Chain<Json>, more: bool, libc: Libc): string
    decreases c, 1
  {
    if c.Nil? then ""
    else MemberText(c, more, libc) + ChainText(c.next, true, libc)
  }

  /** The first member of a chain. */
  function MemberText(c: Chain<Json>, more: bool, libc: Libc): string
    requires c.Link?
    decreases c, 0
  {
    Separator(more) + Quote(c.key) + ": " + Text(c.value, libc)
  }

  /** The members of all buckets, in bucket order. */
  function BucketsText(bs: seq<Chain<Json>>, more: bool, libc: Libc): string
    decreases bs
  {
    if bs == [] then "" else ChainText(bs[0], more, libc) + BucketsText(bs[1..], more || bs[0].Link?, libc)
  }

  ghost function Size(x: Json): nat
    decreases x
  {
    match x
    case JList(items) => 1 + ItemsSize(items)
    case JSet(items) => 1 + ItemsSize(items)
    case JDict(buckets) => 1 + BucketsSize(buckets)
    case _ => 1
  }

  ghost function ItemsSize(items: seq<Json>): nat
    decreases items
  {
    if items == [] then 0 else 1 + Size(items[0]) + ItemsSize(items[1..])
  }

  ghost function ChainSize(c: Chain<Json>): nat
    decreases c
  {
    if c.Nil? then 0 else 1 + Size(c.value) + ChainSize(c.next)
  }

  ghost function BucketsSize(bs: seq<Chain<Json>>): nat
    decreases bs
  {
    if bs == [] then 0 else 1 + ChainSize(bs[0]) + BucketsSize(bs[1..])
  }

  // ---------------------------------------------------------------- reading

  /** A value read and the text behind it. */
  datatype Parsed = Parsed(value: Json, rest: string)

  predicate IsSpace(c: char) {
    c == ' ' || c == '\n' || c == '\t' || c == '\r' || c == VTAB || c == FORMFEED
  }

  function Skip(s: string): (r: string)
    ensures |r| <= |s| && (r == "" || !IsSpace(r[0]))
  {
    if s != "" && IsSpace(s[0]) then Skip(s[1..]) else s
  }

  predicate StartsWith(s: string, c: char) {
    s != "" && s[0] == c
  }

  predicate IsDigit(c: char) {
    '0' <= c <= '9'
  }

  /** The character after a backslash. */
  function Unescape(c: char): string {
    if c == 'n' then "\n"
    else if c == 't' then "\t"
    else if c == 'r' then "\r"
    else if c == 'b' then [BACKSPACE]
    else if c == 'f' then [FORMFEED]
    else if c == '"' || c == '\\' || c == '/' then [c]
    else "\\" + [c]
  }

  /** The characters of a string literal up to its closing quote or the end of the text. */
  datatype Body = Body(chars: string, rest: string)

  function StringBody(s: string): (r: Body)
    ensures |r.rest| <= |s|
  {
    if s == "" || s[0] == '"' then Body("", s)
    else if s[0] == '\\' && |s| == 1 then Body("", "")
    else
      var tail := StringBody(if s[0] == '\\' then s[2..] else s[1..]);
      Body((if s[0] == '\\' then Unescape(s[1]) else [s[0]]) + tail.chars, tail.rest)
  }

  function ReadString(s: string): (r: Parsed)
    ensures |r.rest| <= |s| && (r.value.JStr? ==> |r.rest| < |s|)
    ensures r.value.JStr? || r.value.JError?
  {
    if !StartsWith(s, '"') then Parsed(JError("Expected string"), s)
    else
      var body := StringBody(s[1..]);
      Parsed(JStr(body.chars), if StartsWith(body.rest, '"') then body.rest[1..] else body.rest)
  }

  predicate IsNumChar(c: char) {
    c == '-' || c == '+' || IsDigit(c) || c == '.' || c == 'e' || c == 'E'
  }

  const NUMBER_MAX := 63

  /** How many of the first n characters of s make up the number there. */
  function NumberLength(s: string, n: nat): (k: nat)
    ensures k <= |s| && k <= n
  {
    if n == 0 || s == "" || !IsNumChar(s[0]) then 0 else 1 + NumberLength(s[1..], n - 1)
  }

  /** atol: an optional sign and the digits after it. */
  function Atol(s: string): int {
    if StartsWith(s, '-') then 0 - Digits(s[1..], 0)
    else Digits(if StartsWith(s, '+') then s[1..] else s, 0)
  }

  function Digits(s: string, acc: nat): nat {
    if s == "" || !IsDigit(s[0]) then acc else Digits(s[1..], 10 * acc + (s[0] as int - '0' as int))
  }

  predicate IsFloatText(w: string) {
    '.' in w || 'e' in w || 'E' in w
  }

  function NumberOf(w: string, libc: Libc): (r: Json)
    ensures r.JInt? || r.JFloat?
  {
    if IsFloatText(w) then JFloat(libc.atof(w)) else JInt(Atol(w))
  }

  function ReadNumber(s: string, libc: Libc): (r: Parsed)
    ensures |r.rest| <= |s|
  {
    var k := NumberLength(s, NUMBER_MAX);
    if k == 0 then Parsed(JError("Invalid number"), s) else Parsed(NumberOf(s[..k], libc), s[k..])
  }

  function ReadKeyword(s: string): (r: Parsed)
    ensures |r.rest| <= |s|
  {
    if "true" <= s then Parsed(JBool(true), s[4..])
    else if "false" <= s then Parsed(JBool(false), s[5..])
    else if "null" <= s then Parsed(JNull, s[4..])
    else Parsed(JError("Invalid JSON value"), s)
  }

  /** parse_json_value. */
  function Read(s: string, libc: Libc): (r: Parsed)
    ensures |r.rest| <= |s|
    decreases |s|, 1
  {
    var t := Skip(s);
    if t == "" then Parsed(JError("Unexpected end of JSON"), t)
    else if t[0] == '"' then ReadString(t)
    else if t[0] == '[' then ReadList(t, libc)
    else if t[0] == '{' then ReadDict(t, libc)
    else if t[0] == '-' || IsDigit(t[0]) then ReadNumber(t, libc)
    else ReadKeyword(t)
  }

  function ReadList(s: string, libc: Libc): (r: Parsed)
    requires StartsWith(s, '[')
    ensures |r.rest| <= |s|
    decreases |s|, 0
  {
    var t := Skip(s[1..]);
    if StartsWith(t, ']') then Parsed(JList([]), t[1..]) else ReadItems(t, [], libc)
  }

  function ReadDict(s: string, libc: Libc): (r: Parsed)
    requires StartsWith(s, '{')
    ensures |r.rest| <= |s|
    decreases |s|, 0
  {
    var t := Skip(s[1..]);
    if StartsWith(t, '}') then Parsed(JDict(Empty()), t[1..]) else ReadMembers(t, Empty(), libc)
  }

  /** The loop of parse_json_list, with the items read so far. */
  function ReadItems(s: string, items: seq<Json>, libc: Libc): (r: Parsed)
    ensures |r.rest| <= |s|
    decreases |s|, 2
  {
    var item := Read(s, libc);
    if item.value.JError? then item else AfterItem(item.rest, items + [item.value], libc)
  }

  function AfterItem(s: string, items: seq<Json>, libc: Libc): (r: Parsed)
    ensures |r.rest| <= |s|
    decreases |s|, 0
  {
    var t := Skip(s);
    if StartsWith(t, ']') then Parsed(JList(items), t[1..])
    else if StartsWith(t, ',') then ReadItems(Skip(t[1..]), items, libc)
    else Parsed(JError("Expected ',' or ']' in list"), t)
  }

  /** A member read: its key and value, or an error in place of the value. */
  datatype Member = Member(key: string, value: Json, rest: string)

  function ReadMember(s: string, libc: Libc): (r: Member)
    ensures |r.rest| <= |s|
    decreases |s|, 2
  {
    var key := ReadString(Skip(s));
    if key.value.JError? then Member("", key.value, key.rest)
    else
      var t := Skip(key.rest);
      if !StartsWith(t, ':') then Member("", JError("Expected ':' in object"), t)
      else var val := Read(t[1..], libc); Member(key.value.s, val.value, val.rest)
  }

  /** The loop of parse_json_dict, with the dictionary built so far. */
  function ReadMembers(s: string, bs: seq<Chain<Json>>, libc: Libc): (r: Parsed)
    requires |bs| == CAPACITY
    ensures |r.rest| <= |s|
    decreases |s|, 3
  {
    var m := ReadMember(s, libc);
    if m.value.JError? then Parsed(m.value, m.rest) else AfterMember(m.rest, DSet(bs, m.key, m.value), libc)
  }

  function AfterMember(s: string, bs: seq<Chain<Json>>, libc: Libc): (r: Parsed)
    requires |bs| == CAPACITY
    ensures |r.rest| <= |s|
    decreases |s|, 0
  {
    var t := Skip(s);
    if StartsWith(t, '}') then Parsed(JDict(bs), t[1..])
    else if StartsWith(t, ',') then ReadMembers(Skip(t[1..]), bs, libc)
    else Parsed(JError("Expected ',' or '}' in object"), t)
  }

  /** json_parse. */
  function Parse(s: string, libc: Libc): Json {
    var r := Read(s, libc);
    if Skip(r.rest) != "" && !r.value.JError? then JError("Trailing characters after JSON value") else r.value
  }
}
