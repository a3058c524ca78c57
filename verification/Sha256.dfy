/** SHA-256 and HMAC-SHA-256 (src/abs_crypto.c) against section 6.2 of FIPS 180-4 and section 2 of
    RFC 2104. */
module Sha256 {
  import opened Common
  import opened Blocks

  // ---------------------------------------------------------------- FIPS 180-4

  // Section 4.1.2. A rotation is written as in section 3.2: x >> n | x << 32 - n.
  function Ch(x: bv32, y: bv32, z: bv32): bv32 { (x & y) ^ (!x & z) }

  function Maj(x: bv32, y: bv32, z: bv32): bv32 { (x & y) ^ (x & z) ^ (y & z) }

  function BigSigma0(x: bv32): bv32 { ((x >> 2) | (x << 30)) ^ ((x >> 13) | (x << 19)) ^ ((x >> 22) | (x << 10)) }

  function BigSigma1(x: bv32): bv32 { ((x >> 6) | (x << 26)) ^ ((x >> 11) | (x << 21)) ^ ((x >> 25) | (x << 7)) }

  function SmallSigma0(x: bv32): bv32 { ((x >> 7) | (x << 25)) ^ ((x >> 18) | (x << 14)) ^ (x >> 3) }

  function SmallSigma1(x: bv32): bv32 { ((x >> 17) | (x << 15)) ^ ((x >> 19) | (x << 13)) ^ (x >> 10) }

  /** Bit by bit, Ch takes y where x is set and z where x is clear. */
  lemma ChSelects(x: bv32, y: bv32, z: bv32)
    ensures Ch(x, y, z) & x == y & x
    ensures Ch(x, y, z) & !x == z & !x
  {}

  /** Bit by bit, Maj is set where two of its arguments are set and clear where two are clear. */
  lemma MajAgrees(x: bv32, y: bv32, z: bv32)
    ensures Maj(x, y, z) & x & y == x & y && Maj(x, y, z) & !x & !y == 0
    ensures Maj(x, y, z) & x & z == x & z && Maj(x, y, z) & !x & !z == 0
    ensures Maj(x, y, z) & y & z == y & z && Maj(x, y, z) & !y & !z == 0
  {
    MajFirstPair(x, y, z);
    MajOuterPair(x, y, z);
    MajLastPair(x, y, z);
  }

  lemma MajFirstPair(x: bv32, y: bv32, z: bv32)
    ensures Maj(x, y, z) & x & y == x & y && Maj(x, y, z) & !x & !y == 0
  {}

  lemma MajOuterPair(x: bv32, y: bv32, z: bv32)
    ensures Maj(x, y, z) & x & z == x & z && Maj(x, y, z) & !x & !z == 0
  {}

  lemma MajLastPair(x: bv32, y: bv32, z: bv32)
    ensures Maj(x, y, z) & y & z == y & z && Maj(x, y, z) & !y & !z == 0
  {}

  /** These are the rotations the standard names. */
  lemma SigmasRotate(x: bv32)
    ensures BigSigma0(x) == x.RotateRight(2) ^ x.RotateRight(13) ^ x.RotateRight(22)
    ensures BigSigma1(x) == x.RotateRight(6) ^ x.RotateRight(11) ^ x.RotateRight(25)
    ensures SmallSigma0(x) == x.RotateRight(7) ^ x.RotateRight(18) ^ (x >> 3)
    ensures SmallSigma1(x) == x.RotateRight(17) ^ x.RotateRight(19) ^ (x >> 10)
  {}

  /** Section 4.2.2. */
  const K: Words :=
    (([0x428a2f98, 0x71374491, 0xb5c0fbcf, 0xe9b5dba5, 0x3956c25b, 0x59f111f1, 0x923f82a4, 0xab1c5ed5] +
      [0xd807aa98, 0x12835b01, 0x243185be, 0x550c7dc3, 0x72be5d74, 0x80deb1fe, 0x9bdc06a7, 0xc19bf174]) +
     ([0xe49b69c1, 0xefbe4786, 0x0fc19dc6, 0x240ca1cc, 0x2de92c6f, 0x4a7484aa, 0x5cb0a9dc, 0x76f988da] +
      [0x983e5152, 0xa831c66d, 0xb00327c8, 0xbf597fc7, 0xc6e00bf3, 0xd5a79147, 0x06ca6351, 0x14292967])) +
    (([0x27b70a85, 0x2e1b2138, 0x4d2c6dfc, 0x53380d13, 0x650a7354, 0x766a0abb, 0x81c2c92e, 0x92722c85] +
      [0xa2bfe8a1, 0xa81a664b, 0xc24b8b70, 0xc76c51a3, 0xd192e819, 0xd6990624, 0xf40e3585, 0x106aa070]) +
     ([0x19a4c116, 0x1e376c08, 0x2748774c, 0x34b0bcb5, 0x391c0cb3, 0x4ed8aa4a, 0x5b9cca4f, 0x682e6ff3] +
      [0x748f82ee, 0x78a5636f, 0x84c87814, 0x8cc70208, 0x90befffa, 0xa4506ceb, 0xbef9a3f7, 0xc67178f2]))

  /** Section 5.3.3. */
  const IV: Words := [
    0x6a09e667, 0xbb67ae85, 0x3c6ef372, 0xa54ff53a, 0x510e527f, 0x9b05688c, 0x1f83d9ab, 0x5be0cd19]

  /** The word operations of sections 4.1.2 and 2.2.2, with + modulo 2^32. The schedule and the
      rounds are stated over any such operations; BV32 are those on 32-bit words. */
  datatype Arith<!T> = Arith(
    add: (T, T) -> T,
    ch: (T, T, T) -> T,
    maj: (T, T, T) -> T,
    bigSigma0: T -> T,
    bigSigma1: T -> T,
    smallSigma0: T -> T,
    smallSigma1: T -> T)

  function Add(x: bv32, y: bv32): bv32 { x + y }

  const BV32: Arith<bv32> :=
    Arith(Add, Ch, Maj, BigSigma0, BigSigma1, SmallSigma0, SmallSigma1)

  /** Section 6.2.2, step 1: the recurrence of the message schedule. */
  function Mix<T>(ar: Arith<T>, w2: T, w7: T, w15: T, w16: T): T {
    ar.add(ar.add(ar.add(ar.smallSigma1(w2), w7), ar.smallSigma0(w15)), w16)
  }

  /** The first t words of the message schedule for the 16 words of a block. */
  function Schedule<T>(ar: Arith<T>, words: seq<T>, t: nat): (r: seq<T>)
    requires |words| == 16
    ensures |r| == t
  {
    if t == 0 then []
    else
      var w := Schedule(ar, words, t - 1);
      w + [if t <= 16 then words[t - 1] else Mix(ar, w[t - 3], w[t - 8], w[t - 16], w[t - 17])]
  }

  lemma {:induction false} ScheduleStart<T>(ar: Arith<T>, words: seq<T>, t: nat)
    requires |words| == 16 && t <= 16
    ensures Schedule(ar, words, t) == words[..t]
  {
    if t == 0 {
    } else {
      ScheduleStart(ar, words, t - 1);
    }
  }

  /** The schedule satisfies the equations of the standard. */
  lemma {:induction false} ScheduleAt<T>(ar: Arith<T>, words: seq<T>, n: nat, t: nat)
    requires |words| == 16 && t < n
    ensures var w := Schedule(ar, words, n);
            w[t] == if t < 16 then words[t] else Mix(ar, w[t - 2], w[t - 7], w[t - 15], w[t - 16])
  {
    if t == n - 1 {
    } else {
      ScheduleAt(ar, words, n - 1, t);
    }
  }

  datatype Vars<T> = Vars(a: T, b: T, c: T, d: T, e: T, f: T, g: T, h: T)

  /** Step 3: the working variables after a round with constant k and schedule word w. */
  function Round<T>(ar: Arith<T>, v: Vars<T>, k: T, w: T): Vars<T> {
    var t1 := ar.add(ar.add(ar.add(ar.add(v.h, ar.bigSigma1(v.e)), ar.ch(v.e, v.f, v.g)), k), w);
    var t2 := ar.add(ar.bigSigma0(v.a), ar.maj(v.a, v.b, v.c));
    Vars(ar.add(t1, t2), v.a, v.b, v.c, ar.add(v.d, t1), v.e, v.f, v.g)
  }

  /** The working variables after t rounds with constants k and schedule w. */
  function Rounds<T>(ar: Arith<T>, s: Vars<T>, k: seq<T>, w: seq<T>, t: nat): Vars<T>
    requires t <= |w| == |k|
  {
    if t == 0 then s else Round(ar, Rounds(ar, s, k, w, t - 1), k[t - 1], w[t - 1])
  }

  function VarsOf<T>(s: seq<T>): Vars<T>
    requires |s| == 8
  {
    Vars(s[0], s[1], s[2], s[3], s[4], s[5], s[6], s[7])
  }

  function Sum<T>(ar: Arith<T>, s: seq<T>, v: Vars<T>): (r: seq<T>)
    requires |s| == 8
    ensures |r| == 8
  {
    [ar.add(s[0], v.a), ar.add(s[1], v.b), ar.add(s[2], v.c), ar.add(s[3], v.d),
     ar.add(s[4], v.e), ar.add(s[5], v.f), ar.add(s[6], v.g), ar.add(s[7], v.h)]
  }

  /** Steps 2 to 4 for the 16 words of a block. */
  function Next<T>(ar: Arith<T>, s: seq<T>, k: seq<T>, words: seq<T>): (r: seq<T>)
    requires |s| == 8 && |words| == 16
    ensures |r| == 8
  {
    Sum(ar, s, Rounds(ar, VarsOf(s), k, Schedule(ar, words, |k|), |k|))
  }

  /** The next intermediate hash value. */
  function Compress(s: Words, block: Bytes): (r: Words)
    ensures |r| == |s|
  {
    if |s| != 8 || |block| != BLOCK then s else Next(BV32, s, K, BlockWords(block))
  }

  /** The message digest. */
  function Digest(msg: Bytes): Bytes {
    BytesOf(Fold(Compress, IV, Pad(msg)))
  }

  lemma {:induction false} FoldSize(s: Words, m: Bytes)
    ensures |Fold(Compress, s, m)| == |s|
    decreases |m|
  {
    if |m| < BLOCK {
    } else {
      FoldSize(Compress(s, m[..BLOCK]), m[BLOCK..]);
    }
  }

  /** A digest has 32 bytes. */
  lemma DigestSize(msg: Bytes)
    ensures |Digest(msg)| == 32
  {
    FoldSize(IV, Pad(msg));
  }

  // ---------------------------------------------------------------- the code

  /** The second loop of sha256_transform: the message schedule behind the words of the block. */
  method FillSchedule<T>(ar: Arith<T>, ghost words: seq<T>, m: array<T>)
    requires |words| == 16 && m.Length >= 16 && m[..16] == words
    modifies m
    ensures m[..] == Schedule(ar, words, m.Length)
  {
    ScheduleStart(ar, words, 16);
    for i := 16 to m.Length
      invariant m[..i] == Schedule(ar, words, i)
    {
      ghost var s := m[..i];
      assert s[i - 2] == m[i - 2] && s[i - 7] == m[i - 7] && s[i - 15] == m[i - 15] && s[i - 16] == m[i - 16];
      m[i] := ar.add(ar.add(ar.add(ar.smallSigma1(m[i - 2]), m[i - 7]), ar.smallSigma0(m[i - 15])), m[i - 16]);
      assert m[..i + 1] == s + [m[i]];
    }
    assert m[..m.Length] == m[..];
  }

  /** sha256_transform from there on, with round constants k and the words of the block in m. */
  method TransformWords<T>(ar: Arith<T>, state: array<T>, k: seq<T>, m: array<T>)
    requires state != m && state.Length == 8 && m.Length == |k| >= 16
    modifies state, m
    ensures state[..] == Next(ar, old(state[..]), k, old(m[..16]))
  {
    FillSchedule(ar, m[..16], m);
    ghost var w := m[..];
    var a, b, c, d, e, f, g, h :=
      state[0], state[1], state[2], state[3], state[4], state[5], state[6], state[7];
    ghost var start := Vars(a, b, c, d, e, f, g, h);
    for i := 0 to |k|
      invariant Vars(a, b, c, d, e, f, g, h) == Rounds(ar, start, k, w, i) && m[..] == w
      invariant state[..] == old(state[..])
    {
      assert m[i] == w[i];
      var t1 := ar.add(ar.add(ar.add(ar.add(h, ar.bigSigma1(e)), ar.ch(e, f, g)), k[i]), m[i]);
      var t2 := ar.add(ar.bigSigma0(a), ar.maj(a, b, c));
      h := g; g := f; f := e; e := ar.add(d, t1); d := c; c := b; b := a; a := ar.add(t1, t2);
    }
    state[0] := ar.add(state[0], a);
    state[1] := ar.add(state[1], b);
    state[2] := ar.add(state[2], c);
    state[3] := ar.add(state[3], d);
    state[4] := ar.add(state[4], e);
    state[5] := ar.add(state[5], f);
    state[6] := ar.add(state[6], g);
    state[7] := ar.add(state[7], h);
  }

  /** sha256_transform. */
  method Transform(state: array<bv32>, data: Bytes)
    requires state.Length == 8 && |data| == BLOCK
    modifies state
    ensures state[..] == Compress(old(state[..]), data)
  {
    var m := new bv32[64];
    LoadWords(m, data);
    TransformWords(BV32, state, K, m);
  }

  /** The loop over the whole blocks of the message. */
  method WholeBlocks(state: array<bv32>, msg: Bytes) returns (i: nat)
    requires state.Length == 8
    modifies state
    ensures i % BLOCK == 0 && i <= |msg| < i + BLOCK
    ensures state[..] == Fold(Compress, old(state[..]), msg[..i])
  {
    i := 0;
    while |msg| - i >= BLOCK
      invariant i % BLOCK == 0 && i <= |msg| && state[..] == Fold(Compress, old(state[..]), msg[..i])
    {
      NextBlock(state, msg, i, old(state[..]));
      NextMultiple(i);
      i := i + BLOCK;
    }
  }

  /** The loop body: start is the state before the loop. */
  method NextBlock(state: array<bv32>, msg: Bytes, i: nat, ghost start: Words)
    requires state.Length == 8 && i % BLOCK == 0 && i + BLOCK <= |msg| && state[..] == Fold(Compress, start, msg[..i])
    modifies state
    ensures state[..] == Fold(Compress, start, msg[..i + BLOCK])
  {
    FoldNext(Compress, start, msg, i);
    Transform(state, msg[i..i + BLOCK]);
  }

  /** The tail: the rest of the message, the one bit, zeros and the length, in one or two blocks. */
  method Tail(state: array<bv32>, rest: Bytes, bits: nat)
    requires state.Length == 8 && |rest| < BLOCK
    modifies state
    ensures state[..] == if |rest| < 56 then Compress(old(state[..]), LastBlock(rest, bits))
                         else Compress(Compress(old(state[..]), OverflowBlock(rest)), LengthBlock(bits))
  {
    var buf := new bv8[BLOCK](_ => 0);
    MarkEnd(buf, rest);
    var rem := |rest| + 1;
    if rem > 56 {
      ZeroRest(buf, rem, rest);
      Transform(state, buf[..]);
      rem := 0;
    }
    ghost var head := buf[..rem];
    Finish(buf, rem, bits);
    TailBlockIs(buf[..], rem, head, rest, bits);
    Transform(state, buf[..]);
  }

  /** sha256_bytes. */
  method Sha256Bytes(msg: Bytes, out: array<bv8>)
    requires 32 <= out.Length && 8 * |msg| < 0x1_0000_0000_0000_0000
    modifies out
    ensures out[..32] == Digest(msg) && out[32..] == old(out[32..])
  {
    var state := new bv32[8](i requires 0 <= i < 8 => IV[i]);
    assert state[..] == IV;
    var i := WholeBlocks(state, msg);
    Tail(state, msg[i..], 8 * |msg|);
    FoldPadded(Compress, IV, msg, i);
    Output(state, out, 8);
  }

  // ---------------------------------------------------------------- RFC 2104

  function XorAll(s: Bytes, x: bv8): (r: Bytes)
    ensures |r| == |s|
  {
    seq(|s|, i requires 0 <= i < |s| => s[i] ^ x)
  }

  /** The key as one block: a longer key is hashed first, then zeros are appended. */
  function KeyBlock(key: Bytes): Bytes {
    var k := if |key| > BLOCK then Digest(key) else key;
    k + Zeros(if |k| < BLOCK then BLOCK - |k| else 0)
  }

  /** H(K XOR opad, H(K XOR ipad, text)). */
  function Hmac(key: Bytes, text: Bytes): Bytes {
    Digest(XorAll(KeyBlock(key), 0x5c) + Digest(XorAll(KeyBlock(key), 0x36) + text))
  }

  /** Section 2 of RFC 2104 in its own terms: K is a key of 64 bytes, filled up with zero bytes, or
      hashed first when it is longer; opad is 0x5C and ipad is 0x36, each repeated. */
  lemma HmacStandard(key: Bytes, text: Bytes, k: Bytes, opad: Bytes, ipad: Bytes)
    requires |k| == |opad| == |ipad| == 64
    requires var start := if |key| > 64 then Digest(key) else key;
             |start| <= 64 && k[..|start|] == start && forall i :: |start| <= i < 64 ==> k[i] == 0
    requires forall i :: 0 <= i < 64 ==> opad[i] == k[i] ^ 0x5c && ipad[i] == k[i] ^ 0x36
    ensures Hmac(key, text) == Digest(opad + Digest(ipad + text))
  {
    var start := if |key| > 64 then Digest(key) else key;
    KeyBlockSize(key);
    assert k == start + Zeros(64 - |start|) == KeyBlock(key);
    assert opad == XorAll(k, 0x5c) && ipad == XorAll(k, 0x36);
  }

  /** The key block: k zero-filled, the key or its digest in front. */
  method LoadKey(key: Bytes) returns (k: array<bv8>)
    requires 8 * |key| < 0x1_0000_0000_0000_0000
    ensures fresh(k) && k[..] == KeyBlock(key)
  {
    k := new bv8[BLOCK](_ => 0);
    ghost var zeros := k[..];
    assert zeros == Zeros(BLOCK);
    if |key| > BLOCK {
      Sha256Bytes(key, k);
      assert k[..] == k[..32] + zeros[32..];
    } else {
      Copy(k, 0, key);
      assert k[..] == key + zeros[|key|..];
    }
    KeyBlockIs(key);
  }

  lemma KeyBlockIs(key: Bytes)
    ensures KeyBlock(key) == if |key| > BLOCK then Digest(key) + Zeros(BLOCK)[32..] else key + Zeros(BLOCK)[|key|..]
  {
    DigestSize(key);
  }

  /** sha256_bytes into a new buffer of 32 bytes. */
  method Hash(msg: Bytes) returns (r: Bytes)
    requires 8 * |msg| < 0x1_0000_0000_0000_0000
    ensures r == Digest(msg)
  {
    var out := new bv8[32](_ => 0);
    Sha256Bytes(msg, out);
    r := out[..];
    assert out[..] == out[..32];
  }

  /** hmac_sha256; oom says that there is no memory for the inner buffer. */
  method HmacSha256(key: Option<Bytes>, msg: Option<Bytes>, oom: bool) returns (r: Outcome<string>)
    requires key.Some? ==> 8 * |key.value| < 0x1_0000_0000_0000_0000
    requires msg.Some? ==> 8 * (BLOCK + |msg.value|) < 0x1_0000_0000_0000_0000
    ensures r == if key.None? || msg.None? then Error("hmac_sha256 requires key and message")
                 else if oom then Error("Out of memory")
                 else Done(Hex(Hmac(key.value, msg.value)))
  {
    if key.None? || msg.None? {
      return Error("hmac_sha256 requires key and message");
    }
    var k := LoadKey(key.value);
    var oKey := Padded(k, 0x5c);
    var iKey := Padded(k, 0x36);
    if oom {
      return Error("Out of memory");
    }
    KeyBlockSize(key.value);
    var outer := HashTwice(oKey, iKey, msg.value);
    var hex := HexFromBytes(outer);
    r := Done(hex);
  }

  lemma KeyBlockSize(key: Bytes)
    ensures |KeyBlock(key)| == BLOCK
  {
    DigestSize(key);
  }

  /** The inner and the outer hash. */
  method HashTwice(oKey: Bytes, iKey: Bytes, msg: Bytes) returns (outer: Bytes)
    requires |oKey| == |iKey| == BLOCK && 8 * (BLOCK + |msg|) < 0x1_0000_0000_0000_0000
    ensures outer == Digest(oKey + Digest(iKey + msg))
  {
    var inner := Hash(iKey + msg);
    DigestSize(iKey + msg);
    outer := Hash(oKey + inner);
  }

  /** sha256. */
  method Sha256Text(input: Option<Bytes>) returns (r: Outcome<string>)
    requires input.Some? ==> 8 * |input.value| < 0x1_0000_0000_0000_0000
    ensures r == if input.None? then Error("sha256 requires a string") else Done(Hex(Digest(input.value)))
  {
    if input.None? {
      return Error("sha256 requires a string");
    }
    var digest := Hash(input.value);
    var hex := HexFromBytes(digest);
    r := Done(hex);
  }

  // ---------------------------------------------------------------- hexadecimal

  /** A digit of "%x". */
  function HexDigit(d: bv8): char
    requires d < 16
  {
    "0123456789abcdef"[d as int]
  }

  /** "%02x" for each byte. */
  function Hex(s: Bytes): (r: string)
    ensures |r| == 2 * |s|
  {
    if s == [] then "" else Hex(s[..|s| - 1]) + [HexDigit(s[|s| - 1] >> 4), HexDigit(s[|s| - 1] & 15)]
  }

  method HexFromBytes(digest: Bytes) returns (hex: string)
    ensures hex == Hex(digest)
  {
    hex := "";
    for i := 0 to |digest|
      invariant hex == Hex(digest[..i])
    {
      assert digest[..i + 1][..i] == digest[..i];
      hex := hex + [HexDigit(digest[i] >> 4), HexDigit(digest[i] & 15)];
    }
    assert digest[..|digest|] == digest;
  }

  lemma HexLast(s: Bytes, n: nat)
    requires |s| == n + 1
    ensures Hex(s)[..2 * n] == Hex(s[..n])
    ensures Hex(s)[2 * n] == HexDigit(s[n] >> 4) && Hex(s)[2 * n + 1] == HexDigit(s[n] & 15)
  {}

  /** The value of a digit, lower case only. */
  function DigitValue(c: char): bv8 {
    if '0' <= c <= '9' then (c as int - '0' as int) as bv8
    else if 'a' <= c <= 'f' then (c as int - 'a' as int + 10) as bv8
    else 0xff
  }

  lemma DigitOfValue(d: bv8)
    requires d < 16
    ensures DigitValue(HexDigit(d)) == d
  {
    match d {
      case 0 =>
      case 1 =>
      case 2 =>
      case 3 =>
      case 4 =>
      case 5 =>
      case 6 =>
      case 7 =>
      case 8 =>
      case 9 =>
      case 10 =>
      case 11 =>
      case 12 =>
      case 13 =>
      case 14 =>
      case _ =>
    }
  }

  /** The text has two lower-case digits for each byte, its high half first. */
  lemma {:induction false} HexValue(s: Bytes, i: nat)
    requires i < |s|
    ensures DigitValue(Hex(s)[2 * i]) < 16 && DigitValue(Hex(s)[2 * i + 1]) < 16
    ensures (DigitValue(Hex(s)[2 * i]) << 4) | DigitValue(Hex(s)[2 * i + 1]) == s[i]
  {
    var n := |s| - 1;
    HexLast(s, n);
    if i == n {
      DigitOfValue(s[n] >> 4);
      DigitOfValue(s[n] & 15);
      Halves(s[n]);
    } else {
      HexValue(s[..n], i);
      assert Hex(s)[2 * i] == Hex(s)[..2 * n][2 * i] && Hex(s)[2 * i + 1] == Hex(s)[..2 * n][2 * i + 1];
    }
  }

  lemma Halves(x: bv8)
    ensures x >> 4 < 16 && x & 15 < 16 && ((x >> 4) << 4) | (x & 15) == x
  {}

  /** Different digests have different texts. */
  lemma HexUnique(s: Bytes, t: Bytes)
    requires Hex(s) == Hex(t)
    ensures s == t
  {
    assert 2 * |s| == |Hex(s)| == |Hex(t)| == 2 * |t|;
    forall i | 0 <= i < |s| ensures s[i] == t[i] {
      HexValue(s, i);
      HexValue(t, i);
    }
  }

  /** One of the two padded keys. */
  method Padded(k: array<bv8>, x: bv8) returns (r: Bytes)
    ensures r == XorAll(k[..], x)
  {
    r := [];
    for i := 0 to k.Length
      invariant r == XorAll(k[..], x)[..i]
    {
      r := r + [k[i] ^ x];
    }
  }
}
