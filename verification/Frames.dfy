/** WebSocket frames: the wire format of sections 5.2 and 5.3 of RFC 6455 as an independent
    definition, and the encoder and decoder of src/abs_ws.c proved against it. */
module Frames {
  import opened Common
  import opened Numerals

  /** Exclusive or of the k low bits of a and b. */
  function XorBits(a: nat, b: nat, k: nat): (r: nat)
    ensures r < Power2(k)
  {
    if k == 0 then 0 else 2 * XorBits(a / 2, b / 2, k - 1) + (a % 2 + b % 2) % 2
  }

  function Power2(k: nat): nat {
    if k == 0 then 1 else 2 * Power2(k - 1)
  }

  function Xor(a: Byte, b: Byte): Byte {
    assert Power2(8) == 256 by { assert Power2(4) == 16; assert Power2(6) == 64; }
    XorBits(a, b, 8)
  }

  lemma {:induction false} XorBitsTwice(a: nat, b: nat, k: nat)
    requires a < Power2(k)
    ensures XorBits(XorBits(a, b, k), b, k) == a
  {
    if k == 0 {
    } else {
      Halves(a, Power2(k - 1));
      XorBitsTwice(a / 2, b / 2, k - 1);
      var r := XorBits(a / 2, b / 2, k - 1);
      var x := 2 * r + (a % 2 + b % 2) % 2;
      XorBitTwice(a, b, r);
      XorBitsStep(x, b, k, r);
      assert XorBits(a, b, k) == x && XorBits(x, b, k) == 2 * (a / 2) + a % 2;
    }
  }

  lemma Halves(a: nat, p: nat)
    ensures a < 2 * p ==> a / 2 < p
    ensures a == 2 * (a / 2) + a % 2
  {}

  lemma XorBitsStep(x: nat, b: nat, k: nat, r: nat)
    requires k > 0 && x / 2 == r
    ensures XorBits(x, b, k) == 2 * XorBits(r, b / 2, k - 1) + (x % 2 + b % 2) % 2
  {}

  /** The last bit. */
  lemma XorBitTwice(a: nat, b: nat, r: nat)
    ensures var x := 2 * r + (a % 2 + b % 2) % 2;
            x / 2 == r && (x % 2 + b % 2) % 2 == a % 2
  {
    LowBit(a % 2, b % 2);
  }

  lemma LowBit(a: int, b: int)
    requires 0 <= a < 2 && 0 <= b < 2
    ensures ((a + b) % 2 + b) % 2 == a
  {}

  lemma XorTwice(a: Byte, b: Byte)
    ensures Xor(Xor(a, b), b) == a
  {
    assert Power2(8) == 256 by { assert Power2(4) == 16; assert Power2(6) == 64; }
    XorBitsTwice(a, b, 8);
  }

  /** The bit of weight 2^i. */
  function Bit(x: nat, i: nat): nat {
    if i == 0 then x % 2 else Bit(x / 2, i - 1)
  }

  lemma {:induction false} XorBitsAt(a: nat, b: nat, k: nat, i: nat)
    requires i < k
    ensures Bit(XorBits(a, b, k), i) == 1 <==> Bit(a, i) != Bit(b, i)
  {
    if i == 0 {
      LowBit(a % 2, b % 2);
    } else {
      XorBitsAt(a / 2, b / 2, k - 1, i - 1);
      XorBitTwice(a, b, XorBits(a / 2, b / 2, k - 1));
    }
  }

  /** A bit of the combination is set where exactly one of the two is. */
  lemma XorExactly(a: Byte, b: Byte, i: nat)
    requires i < 8
    ensures Bit(Xor(a, b), i) == 1 <==> Bit(a, i) != Bit(b, i)
  {
    XorBitsAt(a, b, 8, i);
  }

  // ---------------------------------------------------------------- the format of RFC 6455

  /** The number k bytes in network order stand for. */
  function FromBig(s: seq<Byte>): nat {
    if s == [] then 0 else FromBig(s[..|s| - 1]) * 256 + s[|s| - 1]
  }

  /** Section 5.3: octet i is combined with octet i modulo 4 of the key. */
  function Masked(data: seq<Byte>, key: seq<Byte>): (r: seq<Byte>)
    requires |key| == 4
    ensures |r| == |data|
  {
    seq(|data|, i requires 0 <= i < |data| => Xor(data[i], key[i % 4]))
  }

  type Key = k: Option<seq<Byte>> | k.Some? ==> |k.value| == 4 witness None

  /** Data combined with the key, if there is one: masking and unmasking are the same. */
  function WithKey(data: seq<Byte>, key: Key): (r: seq<Byte>)
    ensures |r| == |data|
  {
    if key.Some? then Masked(data, key.value) else data
  }

  /** The size of a header for n bytes of payload. */
  function HeaderSize(n: nat, key: Key): nat {
    (if n <= 125 then 2 else if n <= 65535 then 4 else 10) + if key.Some? then 4 else 0
  }

  /** Section 5.2: FIN and the text opcode, the mask bit with the shortest of the three forms of the
      payload length, and the masking key, if any. */
  function HeaderBytes(n: nat, key: Key): (r: seq<Byte>)
    requires n < 0x1_0000_0000_0000_0000
    ensures |r| == HeaderSize(n, key)
  {
    var bit := if key.Some? then 128 else 0;
    var length :=
      if n <= 125 then [bit + n]
      else if n <= 65535 then [bit + 126] + BigEndian(n, 2)
      else [bit + 127] + BigEndian(n, 8);
    [0x81] + length + (if key.Some? then key.value else [])
  }

  /** A final text frame: the header and the payload, masked if there is a key. */
  function Frame(payload: seq<Byte>, key: Key): seq<Byte>
    requires |payload| < 0x1_0000_0000_0000_0000
  {
    HeaderBytes(|payload|, key) + WithKey(payload, key)
  }

  lemma {:induction false} FromBigEndian(n: nat, k: nat)
    requires n < Power256(k)
    ensures FromBig(BigEndian(n, k)) == n
  {
    if k == 0 {
    } else {
      FromBigEndian(n / 256, k - 1);
      assert BigEndian(n, k)[..k - 1] == BigEndian(n / 256, k - 1);
    }
  }

  function Power256(k: nat): nat {
    if k == 0 then 1 else 256 * Power256(k - 1)
  }

  lemma LengthFits(n: nat)
    ensures n <= 65535 ==> n < Power256(2)
    ensures n < 0x1_0000_0000_0000_0000 ==> n < Power256(8)
  {}

  lemma MaskedTwice(data: seq<Byte>, key: seq<Byte>)
    requires |key| == 4
    ensures Masked(Masked(data, key), key) == data
  {
    forall i | 0 <= i < |data| ensures Masked(Masked(data, key), key)[i] == data[i] {
      XorTwice(data[i], key[i % 4]);
    }
  }

  /** The first byte counts most. */
  lemma {:induction false} FromBigValue(s: seq<Byte>)
    requires s != []
    ensures FromBig(s) == s[0] * Power256(|s| - 1) + FromBig(s[1..])
  {
    var n := |s| - 1;
    if n == 0 {
      assert s[..0] == [] && s[1..] == [];
    } else {
      FromBigValue(s[..n]);
      assert s[..n][1..] == s[1..][..n - 1] && s[1..][n - 1] == s[n];
      Scaled(s[0], Power256(n - 1), FromBig(s[1..n]));
    }
  }

  lemma Scaled(a: nat, p: nat, b: nat)
    ensures (a * p + b) * 256 == a * (256 * p) + b * 256
  {}

  /** The first two examples of section 5.7: "Hello" without and with a mask. */
  lemma HelloFrames()
    ensures Frame([0x48, 0x65, 0x6c, 0x6c, 0x6f], None) == [0x81, 0x05, 0x48, 0x65, 0x6c, 0x6c, 0x6f]
    ensures Frame([0x48, 0x65, 0x6c, 0x6c, 0x6f], Some([0x37, 0xfa, 0x21, 0x3d]))
            == [0x81, 0x85, 0x37, 0xfa, 0x21, 0x3d, Xor(0x48, 0x37), Xor(0x65, 0xfa), Xor(0x6c, 0x21),
                Xor(0x6c, 0x3d), Xor(0x6f, 0x37)]
  {
    var hello: seq<Byte>, key: seq<Byte> := [0x48, 0x65, 0x6c, 0x6c, 0x6f], [0x37, 0xfa, 0x21, 0x3d];
    FrameOf(hello, None, [0x81, 0x05], hello);
    MaskedFive(hello, key);
    FrameOf(hello, Some(key), [0x81, 0x85, 0x37, 0xfa, 0x21, 0x3d], Masked(hello, key));
  }

  lemma FrameOf(payload: seq<Byte>, key: Key, head: seq<Byte>, body: seq<Byte>)
    requires |payload| == 5 && body == WithKey(payload, key)
    requires head == [0x81, if key.Some? then 0x85 else 0x05] + if key.Some? then key.value else []
    ensures Frame(payload, key) == head + body
  {}

  lemma MaskedFive(d: seq<Byte>, key: seq<Byte>)
    requires |d| == 5 && |key| == 4
    ensures Masked(d, key)
            == [Xor(d[0], key[0]), Xor(d[1], key[1]), Xor(d[2], key[2]), Xor(d[3], key[3]), Xor(d[4], key[0])]
  {}

  /** The headers at the ends of the three ranges, and that of 256 bytes as in section 5.7. */
  lemma HeaderForms()
    ensures HeaderBytes(125, None) == [0x81, 125] && HeaderBytes(126, None) == [0x81, 126, 0, 126]
    ensures HeaderBytes(256, None) == [0x81, 126, 1, 0] && HeaderBytes(65535, None) == [0x81, 126, 255, 255]
    ensures HeaderBytes(65536, None) == [0x81, 127, 0, 0, 0, 0, 0, 1, 0, 0]
  {
    TwoByteForm(126, 0, 126);
    TwoByteForm(256, 1, 0);
    TwoByteForm(65535, 255, 255);
    EightByteForm();
  }

  lemma TwoByteForm(n: nat, hi: Byte, lo: Byte)
    requires 125 < n <= 65535 && n == 256 * hi + lo
    ensures HeaderBytes(n, None) == [0x81, 126, hi, lo]
  {
    assert BigEndian(hi, 1) == [hi] && BigEndian(n, 2) == BigEndian(hi, 1) + [lo];
  }

  lemma EightByteForm()
    ensures HeaderBytes(65536, None) == [0x81, 127, 0, 0, 0, 0, 0, 1, 0, 0]
  {
    assert BigEndian(1, 6) == [0, 0, 0, 0, 0, 1];
    assert BigEndian(256, 7) == BigEndian(1, 6) + [0] && BigEndian(65536, 8) == BigEndian(256, 7) + [0];
  }

  // ---------------------------------------------------------------- how the code reads a header

  /** The payload length, the masking key and the size of a header; Short if it is incomplete. */
  datatype Header = Short | Header(len: nat, key: Key, size: nat)

  function LengthBytes(b1: Byte): nat {
    if b1 % 128 == 126 then 2 else if b1 % 128 == 127 then 8 else 0
  }

  function ReadHeader(b: seq<Byte>): (h: Header)
    ensures h.Header? ==> h.size <= |b|
  {
    if |b| < 2 then Short
    else
      var ext := LengthBytes(b[1]);
      var off := 2 + ext + if b[1] >= 128 then 4 else 0;
      if |b| < off then Short
      else
        Header(if ext == 0 then b[1] % 128 else FromBig(b[2..2 + ext]),
               if b[1] >= 128 then Some(b[2 + ext..off]) else None,
               off)
  }

  /** What ws_decode_frame makes of a buffer: the payload, or nothing. */
  function Decode(b: seq<Byte>, cap: nat): Option<seq<Byte>> {
    var h := ReadHeader(b);
    if h.Short? || h.len > cap || |b| < h.size + h.len then None
    else Some(WithKey(b[h.size..h.size + h.len], h.key))
  }

  /** What the header bytes say. */
  lemma HeaderParts(n: nat, key: Key)
    requires n < 0x1_0000_0000_0000_0000
    ensures var h := HeaderBytes(n, key);
            var ext := LengthBytes(h[1]);
            && (h[1] >= 128 <==> key.Some?) && |h| == 2 + ext + (if key.Some? then 4 else 0)
            && n == (if ext == 0 then h[1] % 128 else FromBig(h[2..2 + ext]))
            && (key.Some? ==> h[2 + ext..] == key.value)
  {
    var h := HeaderBytes(n, key);
    if n > 125 {
      LengthFits(n);
      LengthPart(n, key, if n <= 65535 then 2 else 8);
    }
  }

  /** A header with an extended length. */
  lemma LengthPart(n: nat, key: Key, ext: nat)
    requires 125 < n < 0x1_0000_0000_0000_0000 && ext == (if n <= 65535 then 2 else 8) && n < Power256(ext)
    ensures var h := HeaderBytes(n, key);
            && h[1] == (if key.Some? then 128 else 0) + (if ext == 2 then 126 else 127)
            && |h| == 2 + ext + (if key.Some? then 4 else 0)
            && FromBig(h[2..2 + ext]) == n && (key.Some? ==> h[2 + ext..] == key.value)
  {
    var h := HeaderBytes(n, key);
    FromBigEndian(n, ext);
    assert h[2..2 + ext] == BigEndian(n, ext);
  }

  /** A header is read back whatever follows it. */
  lemma ReadHeaderBack(n: nat, key: Key, rest: seq<Byte>)
    requires n < 0x1_0000_0000_0000_0000
    ensures ReadHeader(HeaderBytes(n, key) + rest) == Header(n, key, HeaderSize(n, key))
  {
    var h := HeaderBytes(n, key);
    var b, ext := h + rest, LengthBytes(h[1]);
    HeaderParts(n, key);
    assert b[1] == h[1] && b[2..2 + ext] == h[2..2 + ext] && b[2 + ext..|h|] == h[2 + ext..];
  }

  /** A header cut short is not. */
  lemma CutHeader(n: nat, key: Key, k: nat)
    requires n < 0x1_0000_0000_0000_0000 && k < HeaderSize(n, key)
    ensures ReadHeader(HeaderBytes(n, key)[..k]) == Short
  {
    HeaderParts(n, key);
    if k >= 2 { assert HeaderBytes(n, key)[..k][1] == HeaderBytes(n, key)[1]; }
  }

  lemma WithKeyTwice(payload: seq<Byte>, key: Key)
    ensures WithKey(WithKey(payload, key), key) == payload
  {
    if key.Some? { MaskedTwice(payload, key.value); }
  }

  /** A frame and what follows it, as the code takes them apart. */
  lemma TakeFrame(payload: seq<Byte>, key: Key, rest: seq<Byte>)
    requires |payload| < 0x1_0000_0000_0000_0000
    ensures var b, n, hs := Frame(payload, key) + rest, |payload|, HeaderSize(|payload|, key);
            && ReadHeader(b) == Header(n, key, hs) && |b| == hs + n + |rest|
            && b[hs..hs + n] == WithKey(payload, key) && b[hs + n..] == rest && b[hs..] == WithKey(payload, key) + rest
  {
    var h, body := HeaderBytes(|payload|, key), WithKey(payload, key);
    assert Frame(payload, key) + rest == h + (body + rest);
    ReadHeaderBack(|payload|, key, body + rest);
  }

  /** Decoding inverts a whole frame, whatever follows it, given enough room, and nothing else. */
  lemma DecodeFrameInverts(payload: seq<Byte>, key: Key, rest: seq<Byte>, cap: nat)
    requires |payload| < 0x1_0000_0000_0000_0000
    ensures Decode(Frame(payload, key) + rest, cap) == if |payload| <= cap then Some(payload) else None
  {
    TakeFrame(payload, key, rest);
    WithKeyTwice(payload, key);
  }

  /** The header read from a strict prefix of a frame. */
  lemma CutFrame(payload: seq<Byte>, key: Key, k: nat)
    requires |payload| < 0x1_0000_0000_0000_0000 && k < |Frame(payload, key)|
    ensures |Frame(payload, key)| == HeaderSize(|payload|, key) + |payload|
    ensures ReadHeader(Frame(payload, key)[..k])
            == if k < HeaderSize(|payload|, key) then Short else Header(|payload|, key, HeaderSize(|payload|, key))
  {
    var h, body := HeaderBytes(|payload|, key), WithKey(payload, key);
    if k < |h| {
      assert (h + body)[..k] == h[..k];
      CutHeader(|payload|, key, k);
    } else {
      assert (h + body)[..k] == h + body[..k - |h|];
      ReadHeaderBack(|payload|, key, body[..k - |h|]);
    }
  }

  /** Every strict prefix of a frame is rejected. */
  lemma StrictPrefixRejected(payload: seq<Byte>, key: Key, k: nat, cap: nat)
    requires |payload| < 0x1_0000_0000_0000_0000 && k < |Frame(payload, key)|
    ensures Decode(Frame(payload, key)[..k], cap) == None
  {
    CutFrame(payload, key, k);
  }

  /** The first byte, with the FIN bit and the opcode, is not looked at: control frames and
      fragments are decoded like whole text frames. */
  lemma OpcodeIgnored(b: seq<Byte>, x: Byte, cap: nat)
    requires b != []
    ensures Decode(b[0 := x], cap) == Decode(b, cap)
  {}

  /** Every form of the length is taken, shortest or not: with ext length bytes behind the two first
      ones, where the first byte may be anything. */
  lemma AnyFormDecoded(x: Byte, b1: Byte, digits: seq<Byte>, payload: seq<Byte>, key: Key, rest: seq<Byte>, cap: nat)
    requires |digits| == (if b1 % 128 == 126 then 2 else if b1 % 128 == 127 then 8 else 0)
    requires |payload| == if digits == [] then b1 % 128 else FromBig(digits)
    requires b1 >= 128 <==> key.Some?
    ensures Decode([x, b1] + digits + (if key.Some? then key.value else []) + WithKey(payload, key) + rest, cap)
            == if |payload| <= cap then Some(payload) else None
  {
    var k := if key.Some? then key.value else [];
    var body := WithKey(payload, key);
    var b := [x, b1] + digits + k + body + rest;
    FiveParts([x, b1], digits, k, body, rest, b);
    HeaderOfParts(b, digits, k, key, |payload|);
    WithKeyTwice(payload, key);
  }

  lemma FiveParts(a: seq<Byte>, c: seq<Byte>, k: seq<Byte>, d: seq<Byte>, e: seq<Byte>, b: seq<Byte>)
    requires b == a + c + k + d + e && |a| == 2
    ensures b[0] == a[0] && b[1] == a[1] && |b| == 2 + |c| + |k| + |d| + |e|
    ensures b[2..2 + |c|] == c && b[2 + |c|..2 + |c| + |k|] == k
    ensures b[2 + |c| + |k|..2 + |c| + |k| + |d|] == d
  {}

  lemma HeaderOfParts(b: seq<Byte>, digits: seq<Byte>, k: seq<Byte>, key: Key, n: nat)
    requires |b| >= 2 + |digits| + |k| && |digits| == LengthBytes(b[1]) && b[2..2 + |digits|] == digits
    requires b[2 + |digits|..2 + |digits| + |k|] == k && (b[1] >= 128 <==> key.Some?)
    requires k == (if key.Some? then key.value else []) && n == if digits == [] then b[1] % 128 else FromBig(digits)
    ensures ReadHeader(b) == Header(n, key, 2 + |digits| + |k|)
  {}

  // ---------------------------------------------------------------- what is accepted

  lemma {:induction false} BigEndianOfFrom(s: seq<Byte>)
    ensures FromBig(s) < Power256(|s|) && BigEndian(FromBig(s), |s|) == s
  {
    if s == [] {
    } else {
      var t, x := s[..|s| - 1], s[|s| - 1];
      BigEndianOfFrom(t);
      Quotient256(FromBig(t), x);
      assert s == t + [x];
    }
  }

  lemma Quotient256(q: nat, x: Byte)
    ensures (q * 256 + x) / 256 == q && (q * 256 + x) % 256 == x
  {}

  /** The payload length is given in the shortest form, as section 5.2 demands. */
  predicate ShortestLength(b: seq<Byte>)
    requires |b| >= 2
  {
    match LengthBytes(b[1])
    case 0 => true
    case 2 => |b| >= 4 && FromBig(b[2..4]) > 125
    case _ => |b| >= 10 && FromBig(b[2..10]) > 65535
  }

  /** The three reserved bits, which must be zero, are. */
  predicate ReservedClear(x: Byte) {
    (x / 16) % 8 == 0
  }

  /** A frame with any FIN bit and opcode: first byte x, and for the rest the format above. */
  function AnyFrame(x: Byte, payload: seq<Byte>, key: Key): seq<Byte>
    requires |payload| < 0x1_0000_0000_0000_0000
  {
    Frame(payload, key)[0 := x]
  }

  /** b starts with a frame of section 5.2 whose payload fits. */
  ghost predicate StartsWithFrame(b: seq<Byte>, cap: nat) {
    exists x: Byte, payload: seq<Byte>, key: Key {:trigger AnyFrame(x, payload, key)} ::
      && ReservedClear(x) && |payload| < 0x1_0000_0000_0000_0000 && |payload| <= cap
      && AnyFrame(x, payload, key) <= b
  }

  /** The length of a header in the shortest form, and the bytes it came from. */
  lemma ShortestForm(b: seq<Byte>)
    requires ReadHeader(b).Header? && ShortestLength(b)
    ensures var n, ext := ReadHeader(b).len, LengthBytes(b[1]);
            && n < 0x1_0000_0000_0000_0000 && |b| >= 2 + ext
            && (ext == 0 ==> n == b[1] % 128 <= 125)
            && (ext == 2 ==> 125 < n <= 65535 && BigEndian(n, 2) == b[2..4])
            && (ext == 8 ==> 65535 < n && BigEndian(n, 8) == b[2..10])
  {
    var ext := LengthBytes(b[1]);
    if ext > 0 {
      BigEndianOfFrom(b[2..2 + ext]);
      LengthLimit(b[2..2 + ext]);
    }
  }

  /** The parts of a header. */
  lemma HeaderForm(n: nat, key: Key, b1: Byte, digits: seq<Byte>)
    requires n < 0x1_0000_0000_0000_0000 && (b1 >= 128 <==> key.Some?)
    requires digits == if n <= 125 then [] else if n <= 65535 then BigEndian(n, 2) else BigEndian(n, 8)
    requires b1 % 128 == if n <= 125 then n else if n <= 65535 then 126 else 127
    ensures HeaderBytes(n, key) == [0x81, b1] + digits + if key.Some? then key.value else []
  {}

  /** A header in the shortest form is the header its parts denote. */
  lemma HeaderRebuilt(b: seq<Byte>)
    requires ReadHeader(b).Header? && ShortestLength(b)
    ensures var h := ReadHeader(b);
            h.len < 0x1_0000_0000_0000_0000 && HeaderBytes(h.len, h.key)[0 := b[0]] == b[..h.size]
  {
    var h, ext := ReadHeader(b), LengthBytes(b[1]);
    ShortestForm(b);
    var digits := b[2..2 + ext];
    var k := if h.key.Some? then h.key.value else [];
    HeaderForm(h.len, h.key, b[1], digits);
    assert b[..h.size] == [b[0], b[1]] + digits + k;
  }

  lemma LengthLimit(s: seq<Byte>)
    requires |s| == 2 || |s| == 8
    ensures |s| == 2 ==> FromBig(s) <= 65535
    ensures |s| == 8 ==> FromBig(s) < 0x1_0000_0000_0000_0000
  {
    BigEndianOfFrom(s);
    assert Power256(2) == 65536 && Power256(4) == 0x1_0000_0000;
    assert Power256(8) == 0x1_0000_0000_0000_0000 by { assert Power256(6) == 0x1_0000_0000_0000; }
  }

  /** What is decoded is a frame again when it is encoded: the buffer starts with the frame of the
      payload returned, its first byte aside. */
  lemma FrameRebuilt(b: seq<Byte>, cap: nat)
    requires Decode(b, cap).Some? && ShortestLength(b)
    ensures var p, key := Decode(b, cap).value, ReadHeader(b).key;
            |p| < 0x1_0000_0000_0000_0000 && |p| <= cap && AnyFrame(b[0], p, key) <= b
  {
    var h := ReadHeader(b);
    var p := Decode(b, cap).value;
    HeaderRebuilt(b);
    WithKeyTwice(b[h.size..h.size + h.len], h.key);
    AnyFrameIs(b[0], p, h.key);
    Behind(b, HeaderBytes(h.len, h.key)[0 := b[0]], WithKey(p, h.key), h.size, h.len);
  }

  lemma AnyFrameIs(x: Byte, p: seq<Byte>, key: Key)
    requires |p| < 0x1_0000_0000_0000_0000
    ensures AnyFrame(x, p, key) == HeaderBytes(|p|, key)[0 := x] + WithKey(p, key)
  {}

  lemma Behind(b: seq<Byte>, h: seq<Byte>, body: seq<Byte>, size: nat, len: nat)
    requires size + len <= |b| && h == b[..size] && body == b[size..size + len]
    ensures h + body <= b
  {}

  /** A frame has the shortest length, and is decoded whatever its first byte. */
  lemma FrameAccepted(x: Byte, payload: seq<Byte>, key: Key, b: seq<Byte>, cap: nat)
    requires |payload| < 0x1_0000_0000_0000_0000 && |payload| <= cap && AnyFrame(x, payload, key) <= b
    ensures Decode(b, cap) == Some(payload) && b[0] == x && ShortestLength(b)
  {
    var f := Frame(payload, key);
    var rest := b[|f|..];
    var whole: seq<Byte> := f + rest;
    assert b == whole[0 := x];
    DecodeFrameInverts(payload, key, rest, cap);
    OpcodeIgnored(whole, x, cap);
    FrameParts(payload, key, rest);
    HeaderShortest(|payload|, key, HeaderBytes(|payload|, key), WithKey(payload, key) + rest, b);
  }

  lemma HeaderShortest(n: nat, key: Key, h: seq<Byte>, body: seq<Byte>, b: seq<Byte>)
    requires n < 0x1_0000_0000_0000_0000 && h == HeaderBytes(n, key)
    requires |b| == |h + body| && b[1..] == (h + body)[1..]
    ensures ShortestLength(b)
  {
    HeaderParts(n, key);
    LengthForm(n, key);
    ShortestOf(b, h, body, n);
  }

  lemma FrameParts(payload: seq<Byte>, key: Key, rest: seq<Byte>)
    requires |payload| < 0x1_0000_0000_0000_0000
    ensures Frame(payload, key) + rest == HeaderBytes(|payload|, key) + (WithKey(payload, key) + rest)
  {}

  lemma LengthForm(n: nat, key: Key)
    requires n < 0x1_0000_0000_0000_0000
    ensures var ext := LengthBytes(HeaderBytes(n, key)[1]);
            (ext == 2 ==> n > 125) && (ext == 8 ==> n > 65535)
  {
    if n > 125 {
      LengthFits(n);
      LengthPart(n, key, if n <= 65535 then 2 else 8);
    }
  }

  lemma ShortestOf(b: seq<Byte>, h: seq<Byte>, body: seq<Byte>, n: nat)
    requires |h| >= 2 && |h| >= 2 + LengthBytes(h[1]) && |b| == |h + body| && b[1..] == (h + body)[1..]
    requires LengthBytes(h[1]) > 0 ==> n == FromBig(h[2..2 + LengthBytes(h[1])])
    requires (LengthBytes(h[1]) == 2 ==> n > 125) && (LengthBytes(h[1]) == 8 ==> n > 65535)
    ensures ShortestLength(b)
  {
    SameLengthBytes(b, h, body, LengthBytes(h[1]));
  }

  lemma SameLengthBytes(b: seq<Byte>, h: seq<Byte>, body: seq<Byte>, ext: nat)
    requires |h| >= 2 + ext && |b| == |h + body| && b[1..] == (h + body)[1..]
    ensures b[1] == h[1] && b[2..2 + ext] == h[2..2 + ext]
  {
    var t, u := b[1..], (h + body)[1..];
    assert b[1] == t[0] == u[0] == h[1];
    var p, q := b[2..2 + ext], h[2..2 + ext];
    forall k | 0 <= k < ext ensures p[k] == q[k] {
      assert p[k] == b[2 + k] == t[1 + k] && q[k] == h[2 + k] == u[1 + k];
    }
  }

  /** The documentation promises -1 for malformed frames. The decoder keeps that promise on a buffer
      exactly if, where it accepts it, the reserved bits are clear and the length is in shortest form. */
  lemma MalformedExactly(b: seq<Byte>, cap: nat)
    ensures (Decode(b, cap).Some? <==> StartsWithFrame(b, cap))
            <==> (Decode(b, cap).Some? ==> ReservedClear(b[0]) && ShortestLength(b))
  {
    if StartsWithFrame(b, cap) {
      var x: Byte, payload: seq<Byte>, key: Key {:trigger AnyFrame(x, payload, key)} :|
        && ReservedClear(x) && |payload| < 0x1_0000_0000_0000_0000 && |payload| <= cap
        && AnyFrame(x, payload, key) <= b;
      FrameAccepted(x, payload, key, b, cap);
    } else if Decode(b, cap).Some? && ReservedClear(b[0]) && ShortestLength(b) {
      FrameRebuilt(b, cap);
      assert false;
    }
  }

  /** Inputs: a frame with reserved bits set, and a length of one in the two-byte form, are decoded. */
  lemma MalformedAccepted()
    ensures Decode([0xF1, 0], 0) == Some([]) && !ReservedClear(0xF1)
    ensures Decode([0x81, 126, 0, 1, 65], 1) == Some([65]) && !ShortestLength([0x81, 126, 0, 1, 65])
  {
    var b: seq<Byte> := [0x81, 126, 0, 1, 65];
    assert b[2..4] == [0, 1] && b[4..5] == [65];
    TwoBytes(0, 1);
  }

  // ---------------------------------------------------------------- the code

  /** out with the bytes p written at place off. */
  function Written(out: seq<Byte>, off: nat, p: seq<Byte>): seq<Byte>
    requires off + |p| <= |out|
  {
    out[..off] + p + out[off + |p|..]
  }

  /** ws_encode_frame: writes an unmasked frame if it fits into cap bytes. */
  method EncodeFrame(out: array<Byte>, cap: nat, msg: seq<Byte>) returns (n: nat)
    requires cap <= out.Length && |msg| < 0x1_0000_0000_0000_0000
    modifies out
    ensures n == if |Frame(msg, None)| <= cap then |Frame(msg, None)| else 0
    ensures out[..] == if n == 0 then old(out[..]) else Written(old(out[..]), 0, Frame(msg, None))
  {
    var len := |msg|;
    var hdr := if len <= 125 then 2 else if len <= 65535 then 4 else 10;
    if cap < hdr + len {
      return 0;
    }
    WriteHeader(out, len);
    WriteBytes(out, hdr, msg);
    n := hdr + len;
    assert Frame(msg, None) == HeaderBytes(len, None) + msg;
    WrittenTwice(old(out[..]), HeaderBytes(len, None), msg);
  }

  lemma WrittenTwice(out: seq<Byte>, p: seq<Byte>, q: seq<Byte>)
    requires |p| + |q| <= |out|
    ensures Written(Written(out, 0, p), |p|, q) == Written(out, 0, p + q)
  {}

  method WriteHeader(out: array<Byte>, len: nat)
    requires HeaderSize(len, None) <= out.Length && len < 0x1_0000_0000_0000_0000
    modifies out
    ensures out[..] == Written(old(out[..]), 0, HeaderBytes(len, None))
  {
    out[0] := 0x81;
    if len <= 125 {
      out[1] := len;
    } else if len <= 65535 {
      out[1] := 126;
      WriteBig(out, 2, len, 2);
    } else {
      out[1] := 127;
      WriteBig(out, 2, len, 8);
    }
  }

  method WriteBytes(out: array<Byte>, off: nat, p: seq<Byte>)
    requires off + |p| <= out.Length
    modifies out
    ensures out[..] == Written(old(out[..]), off, p)
  {
    ghost var s := out[..];
    for i := 0 to |p|
      invariant out[..] == Written(s, off, p[..i])
    {
      WrittenOne(s, off, p, i);
      out[off + i] := p[i];
    }
    assert p[..|p|] == p;
  }

  /** Writes n in network byte order at place off. */
  method WriteBig(out: array<Byte>, off: nat, n: nat, k: nat)
    requires off + k <= out.Length
    modifies out
    ensures out[..] == Written(old(out[..]), off, BigEndian(n, k))
  {
    ghost var s, p := out[..], BigEndian(n, k);
    for i := 0 to k
      invariant out[..] == Written(s, off, p[..i])
    {
      BigEndianDigit(n, k, i);
      WrittenOne(s, off, p, i);
      out[off + i] := Shifted(n, k - 1 - i) % 256;
    }
    assert p[..k] == p;
  }

  /** ws_decode_frame: writes the payload and returns its length, or -1. */
  method DecodeFrame(buf: array<Byte>, bufLen: nat, out: array<Byte>, outCap: nat) returns (n: int)
    requires bufLen <= buf.Length && outCap <= out.Length && buf != out
    modifies out
    ensures var d := Decode(buf[..bufLen], outCap);
            if d.None? then n == -1 && out[..] == old(out[..])
            else n == |d.value| <= out.Length && out[..] == Written(old(out[..]), 0, d.value)
  {
    var h := DecodeHeader(buf, bufLen);
    if h.Short? || h.len > outCap || bufLen < h.size + h.len {
      return -1;
    }
    assert buf[..bufLen][h.size..h.size + h.len] == buf[h.size..h.size + h.len];
    CopyPayload(buf, h.size, out, h.len, h.key);
    n := h.len;
  }

  /** The first half of ws_decode_frame. */
  method DecodeHeader(buf: array<Byte>, bufLen: nat) returns (h: Header)
    requires bufLen <= buf.Length
    ensures h == ReadHeader(buf[..bufLen])
  {
    ghost var b := buf[..bufLen];
    if bufLen < 2 {
      return Short;
    }
    var b1 := buf[1];
    assert b1 == b[1];
    var len: nat, off: nat;
    if b1 % 128 == 126 {
      if bufLen < 4 { return Short; }
      var hi: int, lo: int := buf[2], buf[3];
      len := hi * 256 + lo;
      TwoBytes(buf[2], buf[3]);
      assert b[2..4] == [buf[2], buf[3]];
      off := 4;
    } else if b1 % 128 == 127 {
      if bufLen < 10 { return Short; }
      len := ReadBig(buf, 2, 8);
      assert b[2..10] == buf[2..10];
      off := 10;
    } else {
      len := b1 % 128;
      off := 2;
    }
    if b1 < 128 {
      return Header(len, None, off);
    }
    if bufLen < off + 4 {
      return Short;
    }
    assert b[off..off + 4] == buf[off..off + 4];
    h := Header(len, Some(buf[off..off + 4]), off + 4);
  }

  lemma TwoBytes(x: Byte, y: Byte)
    ensures FromBig([x, y]) == x * 256 + y
  {
    assert [x, y][..1] == [x] && [x][..0] == [] && FromBig([x]) == x;
  }

  /** Reads k bytes in network order at place off. */
  method ReadBig(buf: array<Byte>, off: nat, k: nat) returns (n: nat)
    requires off + k <= buf.Length
    ensures n == FromBig(buf[off..off + k])
  {
    n := 0;
    for i := 0 to k
      invariant n == FromBig(buf[off..off + i])
    {
      n := n * 256 + buf[off + i];
      assert buf[off..off + i + 1][..i] == buf[off..off + i];
    }
  }

  method CopyPayload(buf: array<Byte>, off: nat, out: array<Byte>, len: nat, key: Key)
    requires off + len <= buf.Length && len <= out.Length && buf != out
    modifies out
    ensures out[..] == Written(old(out[..]), 0, WithKey(buf[off..off + len], key))
  {
    ghost var s, b := out[..], buf[..];
    ghost var d := b[off..off + len];
    ghost var p := WithKey(d, key);
    for i := 0 to len
      invariant buf[..] == b && out[..] == Written(s, 0, p[..i])
    {
      WrittenOne(s, 0, p, i);
      out[i] := ByteWithKey(buf[off + i], key, i);
      assert out[i] == p[i];
    }
    assert p[..len] == p && d == buf[off..off + len];
  }

  /** Writing one more byte. */
  lemma WrittenOne(s: seq<Byte>, off: nat, p: seq<Byte>, i: nat)
    requires i < |p| && off + |p| <= |s|
    ensures Written(s, off, p[..i])[off + i := p[i]] == Written(s, off, p[..i + 1])
  {}

  function ByteWithKey(x: Byte, key: Key, i: nat): Byte {
    if key.Some? then Xor(x, key.value[i % 4]) else x
  }
}
