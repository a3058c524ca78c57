/** What SHA-1 and SHA-256 share: big-endian words, the padding of section 5.1.1 of FIPS 180-4
    (section 4 of RFC 3174), the fold of a compression function over 64-byte blocks, and the
    buffer operations of the tail. */
module Blocks {
  import Numerals

  type Bytes = seq<bv8>
  type Words = seq<bv32>

  const BLOCK := 64

  function Zeros(n: nat): (r: Bytes)
    ensures |r| == n
  {
    seq(n, _ => 0)
  }

  /** n in k bytes, most significant first. */
  function BigEndian(n: nat, k: nat): (r: Bytes)
    ensures |r| == k
  {
    var digits := Numerals.BigEndian(n, k);
    seq(k, i requires 0 <= i < k => digits[i] as bv8)
  }

  /** With k zero bytes after the one bit the length ends a block. */
  predicate Fills(n: nat, k: nat) {
    (n + 1 + k + 8) % BLOCK == 0
  }

  /** The number of zero bytes: the smallest possible. */
  function ZeroCount(n: nat): (k: nat)
    ensures k < BLOCK && Fills(n, k)
    ensures forall j: nat :: Fills(n, j) ==> k <= j
  {
    (55 - n) % BLOCK
  }

  /** A one bit, zeros, and the length in bits as a 64-bit number. */
  function Pad(msg: Bytes): Bytes {
    msg + [0x80] + Zeros(ZeroCount(|msg|)) + BigEndian(8 * |msg|, 8)
  }

  /** The fold of a compression function over the blocks of s. */
  function Fold(f: (Words, Bytes) -> Words, state: Words, s: Bytes): Words
    decreases |s|
  {
    if |s| < BLOCK then state else Fold(f, f(state, s[..BLOCK]), s[BLOCK..])
  }

  lemma {:induction false} FoldAppend(f: (Words, Bytes) -> Words, state: Words, s: Bytes, t: Bytes)
    requires |s| % BLOCK == 0
    ensures Fold(f, state, s + t) == Fold(f, Fold(f, state, s), t)
    decreases |s|
  {
    if s == [] {
      assert s + t == t;
    } else {
      assert (s + t)[..BLOCK] == s[..BLOCK] && (s + t)[BLOCK..] == s[BLOCK..] + t;
      FoldAppend(f, f(state, s[..BLOCK]), s[BLOCK..], t);
    }
  }

  lemma FoldBlock(f: (Words, Bytes) -> Words, state: Words, s: Bytes)
    requires |s| == BLOCK
    ensures Fold(f, state, s) == f(state, s)
  {
    assert s[..BLOCK] == s;
  }

  /** The next whole block of a message. */
  lemma FoldNext(f: (Words, Bytes) -> Words, state: Words, msg: Bytes, i: nat)
    requires i % BLOCK == 0 && i + BLOCK <= |msg|
    ensures Fold(f, state, msg[..i + BLOCK]) == f(Fold(f, state, msg[..i]), msg[i..i + BLOCK])
  {
    assert msg[..i + BLOCK] == msg[..i] + msg[i..i + BLOCK];
    FoldAppend(f, state, msg[..i], msg[i..i + BLOCK]);
    FoldBlock(f, Fold(f, state, msg[..i]), msg[i..i + BLOCK]);
  }

  lemma NextMultiple(i: nat)
    requires i % BLOCK == 0
    ensures (i + BLOCK) % BLOCK == 0
  {}

  /** The last block, or the last two, of a padded message whose last rem bytes fill no block. */
  function LastBlock(rem: Bytes, bits: nat): (r: Bytes)
    requires |rem| < 56
    ensures |r| == BLOCK
  {
    rem + [0x80] + Zeros(55 - |rem|) + BigEndian(bits, 8)
  }

  function OverflowBlock(rem: Bytes): (r: Bytes)
    requires 56 <= |rem| < BLOCK
    ensures |r| == BLOCK
  {
    rem + [0x80] + Zeros(63 - |rem|)
  }

  function LengthBlock(bits: nat): (r: Bytes)
    ensures |r| == BLOCK
  {
    Zeros(56) + BigEndian(bits, 8)
  }

  lemma TailZeros(n: nat, i: nat)
    requires i % BLOCK == 0 && i <= n < i + BLOCK
    ensures ZeroCount(n) == if n - i < 56 then 55 - (n - i) else 119 - (n - i)
  {
    var r, q := n - i, i / BLOCK;
    assert 55 - n == BLOCK * (-q) + (55 - r);
    if r >= 56 { assert 55 - n == BLOCK * (-q - 1) + (119 - r); }
  }

  lemma PadTail(msg: Bytes, i: nat)
    requires i % BLOCK == 0 && i <= |msg| < i + BLOCK
    ensures Pad(msg) == msg[..i] + if |msg| - i < 56 then LastBlock(msg[i..], 8 * |msg|)
                                   else OverflowBlock(msg[i..]) + LengthBlock(8 * |msg|)
  {
    TailZeros(|msg|, i);
    var rem := msg[i..];
    assert msg == msg[..i] + rem;
    if |rem| >= 56 {
      assert Zeros(119 - |rem|) == Zeros(63 - |rem|) + Zeros(56);
    }
  }

  /** The padded message is its whole blocks, followed by one or two blocks for the tail. */
  lemma FoldPadded(f: (Words, Bytes) -> Words, state: Words, msg: Bytes, i: nat)
    requires i % BLOCK == 0 && i <= |msg| < i + BLOCK
    ensures var mid := Fold(f, state, msg[..i]);
            Fold(f, state, Pad(msg))
            == if |msg| - i < 56 then f(mid, LastBlock(msg[i..], 8 * |msg|))
               else f(f(mid, OverflowBlock(msg[i..])), LengthBlock(8 * |msg|))
  {
    var mid := Fold(f, state, msg[..i]);
    PadTail(msg, i);
    if |msg| - i < 56 {
      var b := LastBlock(msg[i..], 8 * |msg|);
      FoldAppend(f, state, msg[..i], b);
      FoldBlock(f, mid, b);
    } else {
      var b, c := OverflowBlock(msg[i..]), LengthBlock(8 * |msg|);
      FoldAppend(f, state, msg[..i], b + c);
      FoldAppend(f, mid, b, c);
      FoldBlock(f, mid, b);
      FoldBlock(f, f(mid, b), c);
    }
  }

  // ---------------------------------------------------------------- words and bytes

  /** Word j of a block. */
  function WordAt(block: Bytes, j: nat): bv32
    requires 4 * j + 4 <= |block|
  {
    ((block[4 * j] as bv32) << 24) | ((block[4 * j + 1] as bv32) << 16)
    | ((block[4 * j + 2] as bv32) << 8) | (block[4 * j + 3] as bv32)
  }

  /** The 16 words of a block. */
  function BlockWords(block: Bytes): (r: Words)
    requires |block| == BLOCK
    ensures |r| == 16
  {
    seq(16, i requires 0 <= i < 16 => WordAt(block, i))
  }

  /** The first loop of a transform: reads the 16 words of a block. */
  method LoadWords(m: array<bv32>, data: Bytes)
    requires m.Length >= 16 && |data| == BLOCK
    modifies m
    ensures m[..16] == BlockWords(data)
  {
    var j := 0;
    for i := 0 to 16
      invariant j == 4 * i && m[..i] == BlockWords(data)[..i]
    {
      m[i] := ((data[j] as bv32) << 24) | ((data[j + 1] as bv32) << 16)
              | ((data[j + 2] as bv32) << 8) | (data[j + 3] as bv32);
      assert m[..i + 1] == m[..i] + [m[i]];
      j := j + 4;
    }
  }

  function WordBytes(w: bv32): Bytes {
    [(w >> 24) as bv8, ((w >> 16) & 0xFF) as bv8, ((w >> 8) & 0xFF) as bv8, (w & 0xFF) as bv8]
  }

  function BytesOf(ws: Words): (r: Bytes)
    ensures |r| == 4 * |ws|
  {
    if ws == [] then [] else BytesOf(ws[..|ws| - 1]) + WordBytes(ws[|ws| - 1])
  }

  lemma {:induction false} BytesAt(ws: Words, j: nat)
    requires j < |ws|
    ensures BytesOf(ws)[4 * j..4 * j + 4] == WordBytes(ws[j])
  {
    var n := |ws| - 1;
    if j == n {
    } else {
      BytesAt(ws[..n], j);
      assert BytesOf(ws)[..4 * n] == BytesOf(ws[..n]);
      assert BytesOf(ws)[4 * j..4 * j + 4] == BytesOf(ws)[..4 * n][4 * j..4 * j + 4];
    }
  }

  /** Reading the words back from the bytes. */
  lemma WordsOfBytes(ws: Words, j: nat)
    requires j < |ws|
    ensures WordAt(BytesOf(ws), j) == ws[j]
  {
    BytesAt(ws, j);
    SameWord(BytesOf(ws), BytesOf(ws)[4 * j..4 * j + 4], j);
    WordOfBytes(ws[j]);
  }

  lemma SameWord(s: Bytes, t: Bytes, j: nat)
    requires 4 * j + 4 <= |s| && t == s[4 * j..4 * j + 4]
    ensures WordAt(s, j) == WordAt(t, 0)
  {}

  lemma WordOfBytes(w: bv32)
    ensures WordAt(WordBytes(w), 0) == w
  {}

  // ---------------------------------------------------------------- the buffer of the tail

  /** memcpy and memset on the 64-byte buffer. */
  method Copy(buf: array<bv8>, off: nat, s: Bytes)
    requires off + |s| <= buf.Length
    modifies buf
    ensures buf[..] == old(buf[..off]) + s + old(buf[off + |s|..])
  {
    for i := 0 to |s|
      invariant buf[..] == old(buf[..off]) + s[..i] + old(buf[off + i..])
    {
      buf[off + i] := s[i];
      assert s[..i + 1] == s[..i] + [s[i]];
    }
    assert s[..|s|] == s;
  }

  /** Writes the length in bits, last byte first. */
  method PutLength(buf: array<bv8>, bits: nat)
    requires buf.Length == BLOCK
    modifies buf
    ensures buf[..] == old(buf[..56]) + BigEndian(bits, 8)
  {
    ghost var s, l := buf[..], BigEndian(bits, 8);
    for i := 0 to 8
      invariant LengthPut(buf[..], s, l, i)
    {
      LengthByte(bits, i);
      LengthStep(buf[..], s, l, i);
      buf[63 - i] := (Numerals.Shifted(bits, i) % 256) as bv8;
    }
    LengthDone(buf[..], s, l);
  }

  lemma LengthByte(bits: nat, i: nat)
    requires i < 8
    ensures BigEndian(bits, 8)[7 - i] == (Numerals.Shifted(bits, i) % 256) as bv8
  {
    Numerals.BigEndianDigit(bits, 8, 7 - i);
  }

  lemma LengthDone(buf: Bytes, s: Bytes, l: Bytes)
    requires LengthPut(buf, s, l, 8)
    ensures buf == s[..56] + l
  {
    assert buf == buf[..56] + buf[56..] && l[0..] == l;
  }

  /** The last i bytes of the length are in place. */
  ghost predicate LengthPut(buf: Bytes, s: Bytes, l: Bytes, i: nat) {
    |buf| == |s| == BLOCK && |l| == 8 && i <= 8 && buf[..64 - i] == s[..64 - i] && buf[64 - i..] == l[8 - i..]
  }

  lemma LengthStep(buf: Bytes, s: Bytes, l: Bytes, i: nat)
    requires i < 8 && LengthPut(buf, s, l, i)
    ensures LengthPut(buf[63 - i := l[7 - i]], s, l, i + 1)
  {
    var b := buf[63 - i := l[7 - i]];
    assert b[63 - i..] == [l[7 - i]] + buf[64 - i..] && l[7 - i..] == [l[7 - i]] + l[8 - i..];
    assert b[..63 - i] == buf[..64 - i][..63 - i] == s[..63 - i];
  }

  /** The rest of the message and the one bit at the front of the buffer. */
  method MarkEnd(buf: array<bv8>, rest: Bytes)
    requires buf.Length == BLOCK && |rest| < BLOCK
    modifies buf
    ensures buf[..|rest| + 1] == rest + [0x80]
  {
    Copy(buf, 0, rest);
    buf[|rest|] := 0x80;
  }

  /** Zeros behind them when the length does not fit. */
  method ZeroRest(buf: array<bv8>, rem: nat, ghost rest: Bytes)
    requires buf.Length == BLOCK && 56 < rem <= BLOCK && rem == |rest| + 1 && buf[..rem] == rest + [0x80]
    modifies buf
    ensures buf[..] == OverflowBlock(rest)
  {
    Copy(buf, rem, Zeros(64 - rem));
  }

  /** Zeros behind the first rem bytes, and the length. */
  method Finish(buf: array<bv8>, rem: nat, bits: nat)
    requires buf.Length == BLOCK && rem <= 56
    modifies buf
    ensures buf[..] == old(buf[..rem]) + Zeros(56 - rem) + BigEndian(bits, 8)
  {
    ghost var head := buf[..rem];
    Copy(buf, rem, Zeros(56 - rem));
    assert buf[..56] == head + Zeros(56 - rem);
    PutLength(buf, bits);
  }

  lemma TailBlockIs(buf: Bytes, rem: nat, head: Bytes, rest: Bytes, bits: nat)
    requires rem == |head| <= 56 && buf == head + Zeros(56 - rem) + BigEndian(bits, 8)
    requires rem > 0 ==> head == rest + [0x80]
    ensures rem > 0 ==> buf == LastBlock(rest, bits)
    ensures rem == 0 ==> buf == LengthBlock(bits)
  {
    if rem == 0 {
      assert head == [];
    }
  }

  /** The words of the state as bytes, most significant byte first. */
  method Output(state: array<bv32>, out: array<bv8>, n: nat)
    requires state.Length == n && 4 * n <= out.Length
    modifies out
    ensures out[..4 * n] == BytesOf(state[..]) && out[4 * n..] == old(out[4 * n..])
  {
    for i := 0 to n
      invariant out[..4 * i] == BytesOf(state[..i]) && out[4 * n..] == old(out[4 * n..])
    {
      var w := state[i];
      Copy(out, 4 * i, WordBytes(w));
      assert state[..i + 1][..i] == state[..i];
      assert out[..4 * i + 4] == out[..4 * i] + WordBytes(w);
    }
    assert state[..n] == state[..];
  }
}
