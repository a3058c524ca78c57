/** Numbers as bytes, most significant byte first. */
module Numerals {
  type Byte = b: int | 0 <= b < 256

  /** n in k bytes. */
  function BigEndian(n: nat, k: nat): (r: seq<Byte>)
    ensures |r| == k
  {
    if k == 0 then [] else BigEndian(n / 256, k - 1) + [n % 256]
  }

  /** n shifted right by j bytes. */
  function Shifted(n: nat, j: nat): nat {
    if j == 0 then n else Shifted(n / 256, j - 1)
  }

  /** Shifting and masking, as the loops do it, gives the bytes one by one. */
  lemma {:induction false} BigEndianDigit(n: nat, k: nat, i: nat)
    requires i < k
    ensures BigEndian(n, k)[i] == Shifted(n, k - 1 - i) % 256
  {
    if i == k - 1 {
    } else {
      BigEndianDigit(n / 256, k - 1, i);
    }
  }
}
