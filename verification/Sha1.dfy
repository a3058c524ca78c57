/** SHA-1 (src/abs_ws.c) against sections 4 to 6.1 of RFC 3174. */
module Sha1 {
  import opened Blocks

  // ---------------------------------------------------------------- RFC 3174

  function Rol1(x: bv32): bv32 { (x << 1) | (x >> 31) }

  function Rol5(x: bv32): bv32 { (x << 5) | (x >> 27) }

  function Rol30(x: bv32): bv32 { (x << 30) | (x >> 2) }

  /** Section 3: these are circular left shifts. */
  lemma RolsRotate(x: bv32)
    ensures Rol1(x) == x.RotateLeft(1) && Rol5(x) == x.RotateLeft(5) && Rol30(x) == x.RotateLeft(30)
  {}

  /** Section 5, the three forms of f. */
  function Choose(b: bv32, c: bv32, d: bv32): bv32 { (b & c) | (!b & d) }

  function Parity(b: bv32, c: bv32, d: bv32): bv32 { b ^ c ^ d }

  function Majority(b: bv32, c: bv32, d: bv32): bv32 { (b & c) | (b & d) | (c & d) }

  /** Bit by bit, Choose takes c where b is set and d where it is clear. */
  lemma ChooseSelects(b: bv32, c: bv32, d: bv32)
    ensures Choose(b, c, d) & b == c & b && Choose(b, c, d) & !b == d & !b
  {}

  /** Parity is set where d is clear and one of the others is set, or d is set and both or none are. */
  lemma ParityCounts(b: bv32, c: bv32, d: bv32)
    ensures Parity(b, c, d) & !d == ((b & !c) | (!b & c)) & !d
    ensures Parity(b, c, d) & d == ((b & c) | (!b & !c)) & d
  {}

  /** Majority is set where two arguments are set and clear where two are clear. */
  lemma MajorityAgrees(b: bv32, c: bv32, d: bv32)
    ensures Majority(b, c, d) & b & c == b & c && Majority(b, c, d) & !b & !c == 0
    ensures Majority(b, c, d) & b & d == b & d && Majority(b, c, d) & !b & !d == 0
    ensures Majority(b, c, d) & c & d == c & d && Majority(b, c, d) & !c & !d == 0
  {
    MajorityFirstPair(b, c, d);
    MajorityOuterPair(b, c, d);
    MajorityLastPair(b, c, d);
  }

  lemma MajorityFirstPair(b: bv32, c: bv32, d: bv32)
    ensures Majority(b, c, d) & b & c == b & c && Majority(b, c, d) & !b & !c == 0
  {}

  lemma MajorityOuterPair(b: bv32, c: bv32, d: bv32)
    ensures Majority(b, c, d) & b & d == b & d && Majority(b, c, d) & !b & !d == 0
  {}

  lemma MajorityLastPair(b: bv32, c: bv32, d: bv32)
    ensures Majority(b, c, d) & c & d == c & d && Majority(b, c, d) & !c & !d == 0
  {}

  /** Section 5: the constants of the four ranges of rounds. */
  const K: Words := [0x5A827999, 0x6ED9EBA1, 0x8F1BBCDC, 0xCA62C1D6]

  /** Section 6.1: the initial value. */
  const IV: Words := [0x67452301, 0xEFCDAB89, 0x98BADCFE, 0x10325476, 0xC3D2E1F0]

  const ROUNDS := 80

  /** The word operations; the schedule and the rounds are stated over any such operations, and
      BV32 are those on 32-bit words. */
  datatype Arith<!T> = Arith(
    add: (T, T) -> T,
    xor: (T, T) -> T,
    rol1: T -> T,
    rol5: T -> T,
    rol30: T -> T,
    choose: (T, T, T) -> T,
    parity: (T, T, T) -> T,
    majority: (T, T, T) -> T)

  function Add(x: bv32, y: bv32): bv32 { x + y }

  function Xor(x: bv32, y: bv32): bv32 { x ^ y }

  const BV32: Arith<bv32> :=
    Arith(Add, Xor, Rol1, Rol5, Rol30, Choose, Parity, Majority)

  /** Section 6.1, step b: the first t words of the schedule for the 16 words of a block. */
  function Schedule<T>(ar: Arith<T>, words: seq<T>, t: nat): (r: seq<T>)
    requires |words| == 16
    ensures |r| == t
  {
    if t == 0 then []
    else
      var w := Schedule(ar, words, t - 1);
      w + [if t <= 16 then words[t - 1]
           else ar.rol1(ar.xor(ar.xor(ar.xor(w[t - 4], w[t - 9]), w[t - 15]), w[t - 17]))]
  }

  lemma {:induction false} ScheduleStart<T>(ar: Arith<T>, words: seq<T>, t: nat)
    requires |words| == 16 && t <= 16
    ensures Schedule(ar, words, t) == words[..t]
  {
    if t == 0 {
    } else {
      ScheduleStart(ar, words, t - 1);
    }
  }

  /** The schedule satisfies the equations of the standard. */
  lemma {:induction false} ScheduleAt<T>(ar: Arith<T>, words: seq<T>, n: nat, t: nat)
    requires |words| == 16 && t < n
    ensures var w := Schedule(ar, words, n);
            w[t] == if t < 16 then words[t]
                    else ar.rol1(ar.xor(ar.xor(ar.xor(w[t - 3], w[t - 8]), w[t - 14]), w[t - 16]))
  {
    if t == n - 1 {
    } else {
      ScheduleAt(ar, words, n - 1, t);
    }
  }

  datatype Vars<T> = Vars(a: T, b: T, c: T, d: T, e: T)

  function F<T>(ar: Arith<T>, t: nat, b: T, c: T, d: T): T {
    if t < 20 then ar.choose(b, c, d)
    else if 40 <= t < 60 then ar.majority(b, c, d)
    else ar.parity(b, c, d)
  }

  /** The constant of round t. */
  function KOf<T>(k: seq<T>, t: nat): T
    requires |k| == 4 && t < ROUNDS
  {
    k[if t < 20 then 0 else if t < 40 then 1 else if t < 60 then 2 else 3]
  }

  /** Step d, one round. */
  function Round<T>(ar: Arith<T>, v: Vars<T>, t: nat, k: T, w: T): Vars<T> {
    var temp := ar.add(ar.add(ar.add(ar.add(ar.rol5(v.a), F(ar, t, v.b, v.c, v.d)), v.e), k), w);
    Vars(temp, v.a, ar.rol30(v.b), v.c, v.d)
  }

  function Rounds<T>(ar: Arith<T>, s: Vars<T>, k: seq<T>, w: seq<T>, t: nat): Vars<T>
    requires t <= |w| == ROUNDS && |k| == 4
  {
    if t == 0 then s else Round(ar, Rounds(ar, s, k, w, t - 1), t - 1, KOf(k, t - 1), w[t - 1])
  }

  /** Steps c to e for the 16 words of a block. */
  function Next<T>(ar: Arith<T>, s: seq<T>, k: seq<T>, words: seq<T>): (r: seq<T>)
    requires |s| == 5 && |k| == 4 && |words| == 16
    ensures |r| == 5
  {
    var v := Rounds(ar, Vars(s[0], s[1], s[2], s[3], s[4]), k, Schedule(ar, words, ROUNDS), ROUNDS);
    [ar.add(s[0], v.a), ar.add(s[1], v.b), ar.add(s[2], v.c), ar.add(s[3], v.d), ar.add(s[4], v.e)]
  }

  function Compress(s: Words, block: Bytes): (r: Words)
    ensures |r| == |s|
  {
    if |s| != 5 || |block| != BLOCK then s else Next(BV32, s, K, BlockWords(block))
  }

  /** The message digest. */
  function Digest(msg: Bytes): Bytes {
    BytesOf(Fold(Compress, IV, Pad(msg)))
  }

  // ---------------------------------------------------------------- the code

  /** The second loop of sha1_transform: the schedule behind the words of the block. */
  method FillSchedule<T>(ar: Arith<T>, ghost words: seq<T>, m: array<T>)
    requires |words| == 16 && m.Length >= 16 && m[..16] == words
    modifies m
    ensures m[..] == Schedule(ar, words, m.Length)
  {
    ScheduleStart(ar, words, 16);
    for i := 16 to m.Length
      invariant m[..i] == Schedule(ar, words, i)
    {
      ghost var s := m[..i];
      assert s[i - 3] == m[i - 3] && s[i - 8] == m[i - 8] && s[i - 14] == m[i - 14] && s[i - 16] == m[i - 16];
      m[i] := ar.rol1(ar.xor(ar.xor(ar.xor(m[i - 3], m[i - 8]), m[i - 14]), m[i - 16]));
      assert m[..i + 1] == s + [m[i]];
    }
    assert m[..m.Length] == m[..];
  }

  /** The function value and the constant of round i. */
  method Select<T>(ar: Arith<T>, i: nat, ks: seq<T>, b: T, c: T, d: T) returns (f: T, k: T)
    requires i < ROUNDS && |ks| == 4
    ensures f == F(ar, i, b, c, d) && k == KOf(ks, i)
  {
    if i < 20 {
      f := ar.choose(b, c, d);
      k := ks[0];
    } else if i < 40 {
      f := ar.parity(b, c, d);
      k := ks[1];
    } else if i < 60 {
      f := ar.majority(b, c, d);
      k := ks[2];
    } else {
      f := ar.parity(b, c, d);
      k := ks[3];
    }
  }

  /** sha1_transform from there on, with the words of the block in m. */
  method TransformWords<T>(ar: Arith<T>, state: array<T>, ks: seq<T>, m: array<T>)
    requires state != m && state.Length == 5 && m.Length == ROUNDS && |ks| == 4
    modifies state, m
    ensures state[..] == Next(ar, old(state[..]), ks, old(m[..16]))
  {
    FillSchedule(ar, m[..16], m);
    ghost var w := m[..];
    var a, b, c, d, e := state[0], state[1], state[2], state[3], state[4];
    ghost var start := Vars(a, b, c, d, e);
    for i := 0 to ROUNDS
      invariant Vars(a, b, c, d, e) == Rounds(ar, start, ks, w, i) && m[..] == w
      invariant state[..] == old(state[..])
    {
      assert m[i] == w[i];
      var f, k := Select(ar, i, ks, b, c, d);
      var t := ar.add(ar.add(ar.add(ar.add(ar.rol5(a), f), e), k), m[i]);
      e := d; d := c; c := ar.rol30(b); b := a; a := t;
    }
    state[0] := ar.add(state[0], a);
    state[1] := ar.add(state[1], b);
    state[2] := ar.add(state[2], c);
    state[3] := ar.add(state[3], d);
    state[4] := ar.add(state[4], e);
  }

  /** sha1_transform. */
  method Transform(state: array<bv32>, data: Bytes)
    requires state.Length == 5 && |data| == BLOCK
    modifies state
    ensures state[..] == Compress(old(state[..]), data)
  {
    var m := new bv32[ROUNDS];
    LoadWords(m, data);
    TransformWords(BV32, state, K, m);
  }

  /** The loop over the whole blocks of the message. */
  method WholeBlocks(state: array<bv32>, msg: Bytes) returns (i: nat)
    requires state.Length == 5
    modifies state
    ensures i % BLOCK == 0 && i <= |msg| < i + BLOCK
    ensures state[..] == Fold(Compress, old(state[..]), msg[..i])
  {
    i := 0;
    while |msg| - i >= BLOCK
      invariant i % BLOCK == 0 && i <= |msg| && state[..] == Fold(Compress, old(state[..]), msg[..i])
    {
      NextBlock(state, msg, i, old(state[..]));
      NextMultiple(i);
      i := i + BLOCK;
    }
  }

  /** The loop body: start is the state before the loop. */
  method NextBlock(state: array<bv32>, msg: Bytes, i: nat, ghost start: Words)
    requires state.Length == 5 && i % BLOCK == 0 && i + BLOCK <= |msg| && state[..] == Fold(Compress, start, msg[..i])
    modifies state
    ensures state[..] == Fold(Compress, start, msg[..i + BLOCK])
  {
    FoldNext(Compress, start, msg, i);
    Transform(state, msg[i..i + BLOCK]);
  }

  /** The tail: the rest of the message, the one bit, zeros and the length, in one or two blocks. */
  method Tail(state: array<bv32>, rest: Bytes, bits: nat)
    requires state.Length == 5 && |rest| < BLOCK
    modifies state
    ensures state[..] == if |rest| < 56 then Compress(old(state[..]), LastBlock(rest, bits))
                         else Compress(Compress(old(state[..]), OverflowBlock(rest)), LengthBlock(bits))
  {
    var buf := new bv8[BLOCK](_ => 0);
    MarkEnd(buf, rest);
    var rem := |rest| + 1;
    if rem > 56 {
      ZeroRest(buf, rem, rest);
      Transform(state, buf[..]);
      rem := 0;
    }
    ghost var head := buf[..rem];
    Finish(buf, rem, bits);
    TailBlockIs(buf[..], rem, head, rest, bits);
    Transform(state, buf[..]);
  }

  /** sha1_bytes. */
  method Sha1Bytes(msg: Bytes, out: array<bv8>)
    requires 20 <= out.Length && 8 * |msg| < 0x1_0000_0000_0000_0000
    modifies out
    ensures out[..20] == Digest(msg) && out[20..] == old(out[20..])
  {
    var state := new bv32[5](i requires 0 <= i < 5 => IV[i]);
    assert state[..] == IV;
    var i := WholeBlocks(state, msg);
    Tail(state, msg[i..], 8 * |msg|);
    FoldPadded(Compress, IV, msg, i);
    Output(state, out, 5);
  }
}
