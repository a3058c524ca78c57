/** Where the constants of SHA-256 and SHA-1 come from (sections 4.2.2 and 5.3.3 of FIPS 180-4):
    the first bits of the fractions of roots of the first primes. */
module HashConstants {
  import opened Blocks
  import opened NumberTheory
  import KnownAnswers
  import Sha256
  import Sha1

  function Square(x: int): int { x * x }

  function Cube(x: int): int { x * x * x }

  /** k holds the first 32 bits of the fraction of the cube root of p: c is the whole part. */
  ghost predicate CubeRootBits(k: bv32, p: int) {
    exists c: nat :: CubeRootWith(k, p, c)
  }

  ghost predicate CubeRootWith(k: bv32, p: int, c: nat) {
    var r := c * 0x1_0000_0000 + k as int;
    Cube(r) <= p * Cube(0x1_0000_0000) < Cube(r + 1)
  }

  // ---------------------------------------------------------------- the first primes

  /** The primes up to the last of ps, in order and without a gap. */
  ghost predicate FirstPrimes(ps: seq<int>) {
    && (forall i :: 0 <= i < |ps| ==> Prime(ps[i]))
    && (forall i, j :: 0 <= i < j < |ps| ==> ps[i] < ps[j])
    && (forall i, n :: 0 <= i < |ps| && Prime(n) && n <= ps[i] ==> n in ps)
  }

  /** n has one of the primes up to 17 as a proper factor. */
  predicate Sieved(n: int) {
    || (n % 2 == 0 && n > 2) || (n % 3 == 0 && n > 3) || (n % 5 == 0 && n > 5) || (n % 7 == 0 && n > 7)
    || (n % 11 == 0 && n > 11) || (n % 13 == 0 && n > 13) || (n % 17 == 0 && n > 17)
  }

  lemma ProperFactor(d: int, n: int)
    requires 2 <= d < n && n % d == 0
    ensures !Prime(n)
  {
    DividesIsRemainder(d, n);
  }

  lemma SievedNotPrime(n: int)
    requires Sieved(n)
    ensures !Prime(n)
  {
    if n % 2 == 0 && n > 2 { ProperFactor(2, n); }
    else if n % 3 == 0 && n > 3 { ProperFactor(3, n); }
    else if n % 5 == 0 && n > 5 { ProperFactor(5, n); }
    else if n % 7 == 0 && n > 7 { ProperFactor(7, n); }
    else if n % 11 == 0 && n > 11 { ProperFactor(11, n); }
    else if n % 13 == 0 && n > 13 { ProperFactor(13, n); }
    else { ProperFactor(17, n); }
  }

  /** What the sieve leaves below 18 * 18 is prime. */
  lemma LeftIsPrime(n: int)
    requires 2 <= n < 324 && !Sieved(n)
    ensures Prime(n)
  {
    forall d | 2 <= d < 18 && d < n ensures !Divides(d, n) {
      LeftHasNoFactor(n, d);
    }
    if n >= 18 {
      RootSuffices(n, 18);
    }
  }

  lemma LeftHasNoFactor(n: int, d: int)
    requires !Sieved(n) && 2 <= d < 18 && d < n
    ensures !Divides(d, n)
  {
    var p := if d % 2 == 0 then 2 else if d % 3 == 0 then 3 else d;
    assert p in {2, 3, 5, 7, 11, 13, 17};
    DividesIsRemainder(p, n);
    DividesIsRemainder(p, d);
    SmallFactor(p, d, n);
  }

  // ---------------------------------------------------------------- SHA-256

  /** The whole part of the cube root of a number below 343. */
  function WholeCubeRoot(p: int): nat {
    if p < 8 then 1 else if p < 27 then 2 else if p < 64 then 3 else if p < 125 then 4 else if p < 216 then 5 else 6
  }

  ghost predicate NoneBetween(p: int, q: int) {
    forall n :: p < n < q ==> !Prime(n)
  }

  /** The constant at place i belongs to ps[i], the next prime behind ps[i - 1]. */
  ghost predicate CubeRootAt(ks: Words, ps: seq<int>, i: nat) {
    && i < |ks| && i < |ps| && Prime(ps[i]) && CubeRootWith(ks[i], ps[i], WholeCubeRoot(ps[i]))
    && if i == 0 then ps[i] == 2 else ps[i - 1] < ps[i] && NoneBetween(ps[i - 1], ps[i])
  }

  predicate SievedBetween(p: int, q: int)
    decreases q - p
  {
    p + 1 >= q || (Sieved(q - 1) && SievedBetween(p, q - 1))
  }

  lemma {:induction false} SievedInside(p: int, q: int, n: int)
    requires SievedBetween(p, q) && p < n < q
    ensures Sieved(n)
    decreases q - p
  {
    if n == q - 1 {
    } else {
      SievedInside(p, q - 1, n);
    }
  }

  /** What evaluation shows of one constant: p is the prime before q, or 1. */
  ghost predicate Checked(k: bv32, p: int, q: int) {
    p < q < 324 && !Sieved(q) && SievedBetween(p, q) && CubeRootWith(k, q, WholeCubeRoot(q))
  }

  function Before(ps: seq<int>, i: nat): int
    requires i < |ps|
  {
    if i == 0 then 1 else ps[i - 1]
  }

  ghost predicate CheckedAt(ks: Words, ps: seq<int>, i: nat) {
    i < |ks| && i < |ps| && (i == 0 ==> ps[0] == 2) && Before(ps, i) >= 1 && Checked(ks[i], Before(ps, i), ps[i])
  }

  lemma Root(ks: Words, ps: seq<int>, i: nat)
    requires CheckedAt(ks, ps, i)
    ensures CubeRootAt(ks, ps, i)
  {
    var p, q := Before(ps, i), ps[i];
    LeftIsPrime(q);
    forall n | p < n < q ensures !Prime(n) {
      SievedInside(p, q, n);
      SievedNotPrime(n);
    }
  }

  ghost predicate IntRow(s: seq<int>, t: nat, a: int, b: int, c: int, d: int, e: int, f: int, g: int, h: int) {
    && t + 8 <= |s| && s[t] == a && s[t + 1] == b && s[t + 2] == c && s[t + 3] == d
    && s[t + 4] == e && s[t + 5] == f && s[t + 6] == g && s[t + 7] == h
  }

  ghost predicate PrimeTable(ps: seq<int>) {
    && |ps| == 64
    && IntRow(ps, 0, 2, 3, 5, 7, 11, 13, 17, 19)
    && IntRow(ps, 8, 23, 29, 31, 37, 41, 43, 47, 53)
    && IntRow(ps, 16, 59, 61, 67, 71, 73, 79, 83, 89)
    && IntRow(ps, 24, 97, 101, 103, 107, 109, 113, 127, 131)
  }

  ghost predicate LatePrimeTable(ps: seq<int>) {
    && |ps| == 64
    && IntRow(ps, 32, 137, 139, 149, 151, 157, 163, 167, 173)
    && IntRow(ps, 40, 179, 181, 191, 193, 197, 199, 211, 223)
    && IntRow(ps, 48, 227, 229, 233, 239, 241, 251, 257, 263)
    && IntRow(ps, 56, 269, 271, 277, 281, 283, 293, 307, 311)
  }

  lemma Roots8(ks: Words, ps: seq<int>)
    requires KnownAnswers.Constants256(ks) && PrimeTable(ps)
    ensures forall i :: 0 <= i < 8 ==> CheckedAt(ks, ps, i)
  {
    assert Checked(0x428a2f98, 1, 2);
    assert Checked(0x71374491, 2, 3);
    assert Checked(0xb5c0fbcf, 3, 5);
    assert Checked(0xe9b5dba5, 5, 7);
    assert Checked(0x3956c25b, 7, 11);
    assert Checked(0x59f111f1, 11, 13);
    assert Checked(0x923f82a4, 13, 17);
    assert Checked(0xab1c5ed5, 17, 19);
  }

  lemma Roots16(ks: Words, ps: seq<int>)
    requires KnownAnswers.Constants256(ks) && PrimeTable(ps)
    ensures forall i :: 8 <= i < 16 ==> CheckedAt(ks, ps, i)
  {
    assert Checked(0xd807aa98, 19, 23);
    assert Checked(0x12835b01, 23, 29);
    assert Checked(0x243185be, 29, 31);
    assert Checked(0x550c7dc3, 31, 37);
    assert Checked(0x72be5d74, 37, 41);
    assert Checked(0x80deb1fe, 41, 43);
    assert Checked(0x9bdc06a7, 43, 47);
    assert Checked(0xc19bf174, 47, 53);
  }

  lemma Roots24(ks: Words, ps: seq<int>)
    requires KnownAnswers.Constants256(ks) && PrimeTable(ps)
    ensures forall i :: 16 <= i < 24 ==> CheckedAt(ks, ps, i)
  {
    assert Checked(0xe49b69c1, 53, 59);
    assert Checked(0xefbe4786, 59, 61);
    assert Checked(0x0fc19dc6, 61, 67);
    assert Checked(0x240ca1cc, 67, 71);
    assert Checked(0x2de92c6f, 71, 73);
    assert Checked(0x4a7484aa, 73, 79);
    assert Checked(0x5cb0a9dc, 79, 83);
    assert Checked(0x76f988da, 83, 89);
  }

  lemma Roots32(ks: Words, ps: seq<int>)
    requires KnownAnswers.Constants256(ks) && PrimeTable(ps)
    ensures forall i :: 24 <= i < 32 ==> CheckedAt(ks, ps, i)
  {
    assert Checked(0x983e5152, 89, 97);
    assert Checked(0xa831c66d, 97, 101);
    assert Checked(0xb00327c8, 101, 103);
    assert Checked(0xbf597fc7, 103, 107);
    assert Checked(0xc6e00bf3, 107, 109);
    assert Checked(0xd5a79147, 109, 113);
    assert Checked(0x06ca6351, 113, 127);
    assert Checked(0x14292967, 127, 131);
  }

  lemma Roots40(ks: Words, ps: seq<int>)
    requires KnownAnswers.LateConstants256(ks) && PrimeTable(ps) && LatePrimeTable(ps)
    ensures forall i :: 32 <= i < 40 ==> CheckedAt(ks, ps, i)
  {
    assert Checked(0x27b70a85, 131, 137);
    assert Checked(0x2e1b2138, 137, 139);
    assert Checked(0x4d2c6dfc, 139, 149);
    assert Checked(0x53380d13, 149, 151);
    assert Checked(0x650a7354, 151, 157);
    assert Checked(0x766a0abb, 157, 163);
    assert Checked(0x81c2c92e, 163, 167);
    assert Checked(0x92722c85, 167, 173);
  }

  lemma Roots48(ks: Words, ps: seq<int>)
    requires KnownAnswers.LateConstants256(ks) && PrimeTable(ps) && LatePrimeTable(ps)
    ensures forall i :: 40 <= i < 48 ==> CheckedAt(ks, ps, i)
  {
    assert Checked(0xa2bfe8a1, 173, 179);
    assert Checked(0xa81a664b, 179, 181);
    assert Checked(0xc24b8b70, 181, 191);
    assert Checked(0xc76c51a3, 191, 193);
    assert Checked(0xd192e819, 193, 197);
    assert Checked(0xd6990624, 197, 199);
    assert Checked(0xf40e3585, 199, 211);
    assert Checked(0x106aa070, 211, 223);
  }

  lemma Roots56(ks: Words, ps: seq<int>)
    requires KnownAnswers.LateConstants256(ks) && PrimeTable(ps) && LatePrimeTable(ps)
    ensures forall i :: 48 <= i < 56 ==> CheckedAt(ks, ps, i)
  {
    assert Checked(0x19a4c116, 223, 227);
    assert Checked(0x1e376c08, 227, 229);
    assert Checked(0x2748774c, 229, 233);
    assert Checked(0x34b0bcb5, 233, 239);
    assert Checked(0x391c0cb3, 239, 241);
    assert Checked(0x4ed8aa4a, 241, 251);
    assert Checked(0x5b9cca4f, 251, 257);
    assert Checked(0x682e6ff3, 257, 263);
  }

  lemma Roots64(ks: Words, ps: seq<int>)
    requires KnownAnswers.LateConstants256(ks) && PrimeTable(ps) && LatePrimeTable(ps)
    ensures forall i :: 56 <= i < 64 ==> CheckedAt(ks, ps, i)
  {
    assert Checked(0x748f82ee, 263, 269);
    assert Checked(0x78a5636f, 269, 271);
    assert Checked(0x84c87814, 271, 277);
    assert Checked(0x8cc70208, 277, 281);
    assert Checked(0x90befffa, 281, 283);
    assert Checked(0xa4506ceb, 283, 293);
    assert Checked(0xbef9a3f7, 293, 307);
    assert Checked(0xc67178f2, 307, 311);
  }

  /** The first 64 primes. */
  const PRIMES: seq<int> :=
    (([2, 3, 5, 7, 11, 13, 17, 19] + [23, 29, 31, 37, 41, 43, 47, 53]) +
     ([59, 61, 67, 71, 73, 79, 83, 89] + [97, 101, 103, 107, 109, 113, 127, 131])) +
    (([137, 139, 149, 151, 157, 163, 167, 173] + [179, 181, 191, 193, 197, 199, 211, 223]) +
     ([227, 229, 233, 239, 241, 251, 257, 263] + [269, 271, 277, 281, 283, 293, 307, 311]))

  lemma TableOfPrimes()
    ensures PrimeTable(PRIMES)
  {}

  lemma LateTableOfPrimes()
    ensures LatePrimeTable(PRIMES)
  {}

  lemma AllChecked(ks: Words, ps: seq<int>, i: nat)
    requires KnownAnswers.Constants256(ks) && KnownAnswers.LateConstants256(ks)
    requires PrimeTable(ps) && LatePrimeTable(ps) && i < 64
    ensures CubeRootAt(ks, ps, i)
  {
    if i < 8 { Roots8(ks, ps); }
    else if i < 16 { Roots16(ks, ps); }
    else if i < 24 { Roots24(ks, ps); }
    else if i < 32 { Roots32(ks, ps); }
    else if i < 40 { Roots40(ks, ps); }
    else if i < 48 { Roots48(ks, ps); }
    else if i < 56 { Roots56(ks, ps); }
    else { Roots64(ks, ps); }
    Root(ks, ps, i);
  }

  lemma {:induction false} Increasing(ks: Words, ps: seq<int>, i: nat, j: nat)
    requires |ks| == |ps| && forall k :: 0 <= k < |ps| ==> CubeRootAt(ks, ps, k)
    requires i < j < |ps|
    ensures ps[i] < ps[j]
  {
    assert CubeRootAt(ks, ps, j);
    if i == j - 1 {
    } else {
      Increasing(ks, ps, i, j - 1);
    }
  }

  lemma {:induction false} NoneSkipped(ks: Words, ps: seq<int>, i: nat, n: int)
    requires |ks| == |ps| && forall k :: 0 <= k < |ps| ==> CubeRootAt(ks, ps, k)
    requires i < |ps| && Prime(n) && n <= ps[i]
    ensures n in ps
  {
    assert CubeRootAt(ks, ps, i);
    if n == ps[i] || i == 0 {
    } else {
      NoneSkipped(ks, ps, i - 1, n);
    }
  }

  /** The constants of the rounds are the first 32 bits of the fractions of the cube roots of the
      first 64 primes, one for each prime in turn. */
  lemma RoundConstants()
    ensures FirstPrimes(PRIMES) && |Sha256.K| == |PRIMES| == 64
    ensures forall i :: 0 <= i < 64 ==> CubeRootBits(Sha256.K[i], PRIMES[i])
  {
    var ks, ps := Sha256.K, PRIMES;
    KnownAnswers.Table256();
    KnownAnswers.LateTable256();
    TableOfPrimes();
    LateTableOfPrimes();
    forall i | 0 <= i < 64 ensures CubeRootAt(ks, ps, i) {
      AllChecked(ks, ps, i);
    }
    Gathered(ks, ps);
  }

  lemma Gathered(ks: Words, ps: seq<int>)
    requires |ks| == |ps| && forall i :: 0 <= i < |ps| ==> CubeRootAt(ks, ps, i)
    ensures FirstPrimes(ps) && forall i :: 0 <= i < |ps| ==> CubeRootBits(ks[i], ps[i])
  {
    forall i | 0 <= i < |ps| ensures Prime(ps[i]) && CubeRootBits(ks[i], ps[i]) {
      assert CubeRootAt(ks, ps, i);
    }
    forall i, j | 0 <= i < j < |ps| ensures ps[i] < ps[j] {
      Increasing(ks, ps, i, j);
    }
    forall i, n | 0 <= i < |ps| && Prime(n) && n <= ps[i] ensures n in ps {
      NoneSkipped(ks, ps, i, n);
    }
  }

  /** k holds the first 32 bits of the fraction of the square root of p. */
  ghost predicate SquareRootBits(k: bv32, p: int) {
    exists c: nat :: SquareRootWith(k, p, c)
  }

  ghost predicate SquareRootWith(k: bv32, p: int, c: nat) {
    var r := c * 0x1_0000_0000 + k as int;
    Square(r) <= p * Square(0x1_0000_0000) < Square(r + 1)
  }

  /** The initial hash value is taken from the square roots of the first eight primes. */
  lemma InitialValue()
    ensures |Sha256.IV| == 8 && |PRIMES| == 64 && forall i :: 0 <= i < 8 ==> SquareRootBits(Sha256.IV[i], PRIMES[i])
  {
    TableOfPrimes();
    assert SquareRootWith(0x6a09e667, 2, 1);
    assert SquareRootWith(0xbb67ae85, 3, 1);
    assert SquareRootWith(0x3c6ef372, 5, 2);
    assert SquareRootWith(0xa54ff53a, 7, 2);
    assert SquareRootWith(0x510e527f, 11, 3);
    assert SquareRootWith(0x9b05688c, 13, 3);
    assert SquareRootWith(0x1f83d9ab, 17, 4);
    assert SquareRootWith(0x5be0cd19, 19, 4);
  }

  // ---------------------------------------------------------------- SHA-1

  /** k is 2^30 times the square root of n, rounded down. */
  ghost predicate ScaledRoot(k: bv32, n: int) {
    Square(k as int) <= n * Square(0x4000_0000) < Square(k as int + 1)
  }

  /** The constants of the four ranges of rounds come from the square roots of 2, 3, 5 and 10. */
  lemma RangeConstants()
    ensures |Sha1.K| == 4
    ensures ScaledRoot(Sha1.K[0], 2) && ScaledRoot(Sha1.K[1], 3) && ScaledRoot(Sha1.K[2], 5)
    ensures ScaledRoot(Sha1.K[3], 10)
  {
    assert ScaledRoot(0x5A827999, 2) && ScaledRoot(0x6ED9EBA1, 3);
    assert ScaledRoot(0x8F1BBCDC, 5) && ScaledRoot(0xCA62C1D6, 10);
  }
}