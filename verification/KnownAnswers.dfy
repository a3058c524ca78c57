/** The digests of "abc" as FIPS 180-2 prints them in appendices A.1 and B.1, with the message
    schedule and the working variables after every round. They fix the order in which the
    operations, the constants, the words and the bytes are put together. */
module KnownAnswers {
  import opened Blocks
  import Sha256
  import Sha1
  import Numerals

  const Abc: Bytes := [0x61, 0x62, 0x63]

  /** The words of s from place t on. */
  ghost predicate Row(s: Words, t: nat, a: bv32, b: bv32, c: bv32, d: bv32, e: bv32, f: bv32, g: bv32, h: bv32) {
    && t + 8 <= |s| && s[t] == a && s[t + 1] == b && s[t + 2] == c && s[t + 3] == d
    && s[t + 4] == e && s[t + 5] == f && s[t + 6] == g && s[t + 7] == h
  }

  // ---------------------------------------------------------------- the padded message

  /** The block of the padded message: 24 bits. */
  lemma AbcPadded()
    ensures |Pad(Abc)| == BLOCK && Pad(Abc) == Abc + [0x80] + Zeros(59) + [0x18]
  {
    assert ZeroCount(3) == 52;
    AbcLength();
    assert BigEndian(24, 8) == Zeros(7) + [0x18];
  }

  lemma AbcLength()
    ensures forall i :: 0 <= i < 8 ==> BigEndian(24, 8)[i] == if i == 7 then 0x18 else 0
  {
    var digits := Numerals.BigEndian(24, 8);
    assert digits == [0, 0, 0, 0, 0, 0, 0, 24];
  }

  /** One character in each of the first three bytes, the one bit behind them, and the length. */
  ghost predicate AbcBlock(words: Words) {
    Row(words, 0, 0x61626380, 0, 0, 0, 0, 0, 0, 0) && Row(words, 8, 0, 0, 0, 0, 0, 0, 0, 0x18)
  }

  lemma AbcWords()
    ensures |Pad(Abc)| == BLOCK && AbcBlock(BlockWords(Pad(Abc)))
  {
    AbcPadded();
  }

  // ---------------------------------------------------------------- SHA-256

  /** Section 4.2.2 of FIPS 180-2. */
  ghost predicate Constants256(ks: Words) {
    && |ks| == 64
    && Row(ks, 0, 0x428a2f98, 0x71374491, 0xb5c0fbcf, 0xe9b5dba5, 0x3956c25b, 0x59f111f1, 0x923f82a4, 0xab1c5ed5)
    && Row(ks, 8, 0xd807aa98, 0x12835b01, 0x243185be, 0x550c7dc3, 0x72be5d74, 0x80deb1fe, 0x9bdc06a7, 0xc19bf174)
    && Row(ks, 16, 0xe49b69c1, 0xefbe4786, 0x0fc19dc6, 0x240ca1cc, 0x2de92c6f, 0x4a7484aa, 0x5cb0a9dc, 0x76f988da)
    && Row(ks, 24, 0x983e5152, 0xa831c66d, 0xb00327c8, 0xbf597fc7, 0xc6e00bf3, 0xd5a79147, 0x06ca6351, 0x14292967)
  }

  ghost predicate LateConstants256(ks: Words) {
    && |ks| == 64
    && Row(ks, 32, 0x27b70a85, 0x2e1b2138, 0x4d2c6dfc, 0x53380d13, 0x650a7354, 0x766a0abb, 0x81c2c92e, 0x92722c85)
    && Row(ks, 40, 0xa2bfe8a1, 0xa81a664b, 0xc24b8b70, 0xc76c51a3, 0xd192e819, 0xd6990624, 0xf40e3585, 0x106aa070)
    && Row(ks, 48, 0x19a4c116, 0x1e376c08, 0x2748774c, 0x34b0bcb5, 0x391c0cb3, 0x4ed8aa4a, 0x5b9cca4f, 0x682e6ff3)
    && Row(ks, 56, 0x748f82ee, 0x78a5636f, 0x84c87814, 0x8cc70208, 0x90befffa, 0xa4506ceb, 0xbef9a3f7, 0xc67178f2)
  }

  ghost predicate Schedule256(ws: Words) {
    && |ws| == 64
    && AbcBlock(ws)
    && Row(ws, 16, 0x61626380, 0x000f0000, 0x7da86405, 0x600003c6, 0x3e9d7b78, 0x0183fc00, 0x12dcbfdb, 0xe2e2c38e)
    && Row(ws, 24, 0xc8215c1a, 0xb73679a2, 0xe5bc3909, 0x32663c5b, 0x9d209d67, 0xec8726cb, 0x702138a4, 0xd3b7973b)
    && Row(ws, 32, 0x93f5997f, 0x3b68ba73, 0xaff4ffc1, 0xf10a5c62, 0x0a8b3996, 0x72af830a, 0x9409e33e, 0x24641522)
    && Row(ws, 40, 0x9f47bf94, 0xf0a64f5a, 0x3e246a79, 0x27333ba3, 0x0c4763f2, 0x840abf27, 0x7a290d5d, 0x065c43da)
    && Row(ws, 48, 0xfb3e89cb, 0xcc7617db, 0xb9e66c34, 0xa9993667, 0x84badedd, 0xc21462bc, 0x1487472c, 0xb20f7a99)
    && Row(ws, 56, 0xef57b9cd, 0xebe6b238, 0x9fe3095e, 0x78bc8d4b, 0xa43fcf15, 0x668b2ff8, 0xeeaba2cc, 0x12b1edeb)
  }

  lemma Table256()
    ensures Constants256(Sha256.K)
  {}

  lemma LateTable256()
    ensures LateConstants256(Sha256.K)
  {}

  function Mixed256(x2: bv32, x7: bv32, x15: bv32, x16: bv32): bv32 {
    Sha256.Add(Sha256.Add(Sha256.Add(Sha256.SmallSigma1(x2), x7), Sha256.SmallSigma0(x15)), x16)
  }

  ghost predicate Recurs256(ws: Words, t: nat) {
    16 <= t < |ws| && ws[t] == Mixed256(ws[t - 2], ws[t - 7], ws[t - 15], ws[t - 16])
  }

  ghost predicate RowRecurs256(ws: Words, t: nat) {
    && Recurs256(ws, t) && Recurs256(ws, t + 1) && Recurs256(ws, t + 2) && Recurs256(ws, t + 3)
    && Recurs256(ws, t + 4) && Recurs256(ws, t + 5) && Recurs256(ws, t + 6) && Recurs256(ws, t + 7)
  }

  lemma Expands256(ws: Words)
    requires |ws| == 64 && forall t :: 16 <= t < 64 ==> Recurs256(ws, t)
    requires AbcBlock(ws)
    ensures Schedule256(ws)
  {
    assert RowRecurs256(ws, 16);
    assert RowRecurs256(ws, 24);
    assert RowRecurs256(ws, 32);
    assert RowRecurs256(ws, 40);
    assert RowRecurs256(ws, 48);
    assert RowRecurs256(ws, 56);
  }

  function After256(ks: Words, ws: Words, t: nat): Sha256.Vars<bv32>
    requires t <= |ws| == |ks|
  {
    Sha256.Rounds(Sha256.BV32, Sha256.VarsOf(Sha256.IV), ks, ws, t)
  }

  function Sum256(e: bv32, f: bv32, g: bv32, h: bv32, k: bv32, w: bv32): bv32 {
    Sha256.Add(Sha256.Add(Sha256.Add(Sha256.Add(h, Sha256.BigSigma1(e)), Sha256.Ch(e, f, g)), k), w)
  }

  /** The round from known working variables. */
  lemma At256(ks: Words, ws: Words, t: nat, a: bv32, b: bv32, c: bv32, d: bv32, e: bv32, f: bv32, g: bv32, h: bv32)
    requires t < |ws| == |ks| && After256(ks, ws, t) == Sha256.Vars(a, b, c, d, e, f, g, h)
    ensures var t1, t2 := Sum256(e, f, g, h, ks[t], ws[t]), Sha256.Add(Sha256.BigSigma0(a), Sha256.Maj(a, b, c));
            After256(ks, ws, t + 1) == Sha256.Vars(Sha256.Add(t1, t2), a, b, c, Sha256.Add(d, t1), e, f, g)
  {}

  lemma Rounds256To16(ks: Words, ws: Words)
    requires Constants256(ks) && Schedule256(ws)
    ensures After256(ks, ws, 16) == Sha256.Vars(
      0xb0fa238e, 0xc0645fde, 0xd932eb16, 0x87912990, 0x07590dcd, 0x0b92f20c, 0x745a48de, 0x1e578218)
  {
    At256(ks, ws, 0, 0x6a09e667, 0xbb67ae85, 0x3c6ef372, 0xa54ff53a, 0x510e527f, 0x9b05688c, 0x1f83d9ab, 0x5be0cd19);
    At256(ks, ws, 1, 0x5d6aebcd, 0x6a09e667, 0xbb67ae85, 0x3c6ef372, 0xfa2a4622, 0x510e527f, 0x9b05688c, 0x1f83d9ab);
    At256(ks, ws, 2, 0x5a6ad9ad, 0x5d6aebcd, 0x6a09e667, 0xbb67ae85, 0x78ce7989, 0xfa2a4622, 0x510e527f, 0x9b05688c);
    At256(ks, ws, 3, 0xc8c347a7, 0x5a6ad9ad, 0x5d6aebcd, 0x6a09e667, 0xf92939eb, 0x78ce7989, 0xfa2a4622, 0x510e527f);
    At256(ks, ws, 4, 0xd550f666, 0xc8c347a7, 0x5a6ad9ad, 0x5d6aebcd, 0x24e00850, 0xf92939eb, 0x78ce7989, 0xfa2a4622);
    At256(ks, ws, 5, 0x04409a6a, 0xd550f666, 0xc8c347a7, 0x5a6ad9ad, 0x43ada245, 0x24e00850, 0xf92939eb, 0x78ce7989);
    At256(ks, ws, 6, 0x2b4209f5, 0x04409a6a, 0xd550f666, 0xc8c347a7, 0x714260ad, 0x43ada245, 0x24e00850, 0xf92939eb);
    At256(ks, ws, 7, 0xe5030380, 0x2b4209f5, 0x04409a6a, 0xd550f666, 0x9b27a401, 0x714260ad, 0x43ada245, 0x24e00850);
    At256(ks, ws, 8, 0x85a07b5f, 0xe5030380, 0x2b4209f5, 0x04409a6a, 0x0c657a79, 0x9b27a401, 0x714260ad, 0x43ada245);
    At256(ks, ws, 9, 0x8e04ecb9, 0x85a07b5f, 0xe5030380, 0x2b4209f5, 0x32ca2d8c, 0x0c657a79, 0x9b27a401, 0x714260ad);
    At256(ks, ws, 10, 0x8c87346b, 0x8e04ecb9, 0x85a07b5f, 0xe5030380, 0x1cc92596, 0x32ca2d8c, 0x0c657a79, 0x9b27a401);
    At256(ks, ws, 11, 0x4798a3f4, 0x8c87346b, 0x8e04ecb9, 0x85a07b5f, 0x436b23e8, 0x1cc92596, 0x32ca2d8c, 0x0c657a79);
    At256(ks, ws, 12, 0xf71fc5a9, 0x4798a3f4, 0x8c87346b, 0x8e04ecb9, 0x816fd6e9, 0x436b23e8, 0x1cc92596, 0x32ca2d8c);
    At256(ks, ws, 13, 0x87912990, 0xf71fc5a9, 0x4798a3f4, 0x8c87346b, 0x1e578218, 0x816fd6e9, 0x436b23e8, 0x1cc92596);
    At256(ks, ws, 14, 0xd932eb16, 0x87912990, 0xf71fc5a9, 0x4798a3f4, 0x745a48de, 0x1e578218, 0x816fd6e9, 0x436b23e8);
    At256(ks, ws, 15, 0xc0645fde, 0xd932eb16, 0x87912990, 0xf71fc5a9, 0x0b92f20c, 0x745a48de, 0x1e578218, 0x816fd6e9);
  }

  lemma Rounds256To32(ks: Words, ws: Words)
    requires Constants256(ks) && Schedule256(ws)
    requires After256(ks, ws, 16) == Sha256.Vars(
      0xb0fa238e, 0xc0645fde, 0xd932eb16, 0x87912990, 0x07590dcd, 0x0b92f20c, 0x745a48de, 0x1e578218)
    ensures After256(ks, ws, 32) == Sha256.Vars(
      0x73b33bf5, 0xea992a22, 0xa0060b30, 0x363482c9, 0xba591112, 0x0109ab3a, 0xade79437, 0x6112a3b7)
  {
    At256(ks, ws, 16, 0xb0fa238e, 0xc0645fde, 0xd932eb16, 0x87912990, 0x07590dcd, 0x0b92f20c, 0x745a48de, 0x1e578218);
    At256(ks, ws, 17, 0x21da9a9b, 0xb0fa238e, 0xc0645fde, 0xd932eb16, 0x8034229c, 0x07590dcd, 0x0b92f20c, 0x745a48de);
    At256(ks, ws, 18, 0xc2fbd9d1, 0x21da9a9b, 0xb0fa238e, 0xc0645fde, 0x846ee454, 0x8034229c, 0x07590dcd, 0x0b92f20c);
    At256(ks, ws, 19, 0xfe777bbf, 0xc2fbd9d1, 0x21da9a9b, 0xb0fa238e, 0xcc899961, 0x846ee454, 0x8034229c, 0x07590dcd);
    At256(ks, ws, 20, 0xe1f20c33, 0xfe777bbf, 0xc2fbd9d1, 0x21da9a9b, 0xb0638179, 0xcc899961, 0x846ee454, 0x8034229c);
    At256(ks, ws, 21, 0x9dc68b63, 0xe1f20c33, 0xfe777bbf, 0xc2fbd9d1, 0x8ada8930, 0xb0638179, 0xcc899961, 0x846ee454);
    At256(ks, ws, 22, 0xc2606d6d, 0x9dc68b63, 0xe1f20c33, 0xfe777bbf, 0xe1257970, 0x8ada8930, 0xb0638179, 0xcc899961);
    At256(ks, ws, 23, 0xa7a3623f, 0xc2606d6d, 0x9dc68b63, 0xe1f20c33, 0x49f5114a, 0xe1257970, 0x8ada8930, 0xb0638179);
    At256(ks, ws, 24, 0xc5d53d8d, 0xa7a3623f, 0xc2606d6d, 0x9dc68b63, 0xaa47c347, 0x49f5114a, 0xe1257970, 0x8ada8930);
    At256(ks, ws, 25, 0x1c2c2838, 0xc5d53d8d, 0xa7a3623f, 0xc2606d6d, 0x2823ef91, 0xaa47c347, 0x49f5114a, 0xe1257970);
    At256(ks, ws, 26, 0xcde8037d, 0x1c2c2838, 0xc5d53d8d, 0xa7a3623f, 0x14383d8e, 0x2823ef91, 0xaa47c347, 0x49f5114a);
    At256(ks, ws, 27, 0xb62ec4bc, 0xcde8037d, 0x1c2c2838, 0xc5d53d8d, 0xc74c6516, 0x14383d8e, 0x2823ef91, 0xaa47c347);
    At256(ks, ws, 28, 0x77d37528, 0xb62ec4bc, 0xcde8037d, 0x1c2c2838, 0xedffbff8, 0xc74c6516, 0x14383d8e, 0x2823ef91);
    At256(ks, ws, 29, 0x363482c9, 0x77d37528, 0xb62ec4bc, 0xcde8037d, 0x6112a3b7, 0xedffbff8, 0xc74c6516, 0x14383d8e);
    At256(ks, ws, 30, 0xa0060b30, 0x363482c9, 0x77d37528, 0xb62ec4bc, 0xade79437, 0x6112a3b7, 0xedffbff8, 0xc74c6516);
    At256(ks, ws, 31, 0xea992a22, 0xa0060b30, 0x363482c9, 0x77d37528, 0x0109ab3a, 0xade79437, 0x6112a3b7, 0xedffbff8);
  }

  lemma Rounds256To48(ks: Words, ws: Words)
    requires LateConstants256(ks) && Schedule256(ws)
    requires After256(ks, ws, 32) == Sha256.Vars(
      0x73b33bf5, 0xea992a22, 0xa0060b30, 0x363482c9, 0xba591112, 0x0109ab3a, 0xade79437, 0x6112a3b7)
    ensures After256(ks, ws, 48) == Sha256.Vars(
      0x4172328d, 0xa14c14b0, 0x72ab4b91, 0x26628815, 0xfecf0bc6, 0xd57b94a9, 0xb7755da1, 0xa80f11f0)
  {
    At256(ks, ws, 32, 0x73b33bf5, 0xea992a22, 0xa0060b30, 0x363482c9, 0xba591112, 0x0109ab3a, 0xade79437, 0x6112a3b7);
    At256(ks, ws, 33, 0x98e12507, 0x73b33bf5, 0xea992a22, 0xa0060b30, 0x9cd9f5f6, 0xba591112, 0x0109ab3a, 0xade79437);
    At256(ks, ws, 34, 0xfe604df5, 0x98e12507, 0x73b33bf5, 0xea992a22, 0x59249dd3, 0x9cd9f5f6, 0xba591112, 0x0109ab3a);
    At256(ks, ws, 35, 0xa9a7738c, 0xfe604df5, 0x98e12507, 0x73b33bf5, 0x085f3833, 0x59249dd3, 0x9cd9f5f6, 0xba591112);
    At256(ks, ws, 36, 0x65a0cfe4, 0xa9a7738c, 0xfe604df5, 0x98e12507, 0xf4b002d6, 0x085f3833, 0x59249dd3, 0x9cd9f5f6);
    At256(ks, ws, 37, 0x41a65cb1, 0x65a0cfe4, 0xa9a7738c, 0xfe604df5, 0x0772a26b, 0xf4b002d6, 0x085f3833, 0x59249dd3);
    At256(ks, ws, 38, 0x34df1604, 0x41a65cb1, 0x65a0cfe4, 0xa9a7738c, 0xa507a53d, 0x0772a26b, 0xf4b002d6, 0x085f3833);
    At256(ks, ws, 39, 0x6dc57a8a, 0x34df1604, 0x41a65cb1, 0x65a0cfe4, 0xf0781bc8, 0xa507a53d, 0x0772a26b, 0xf4b002d6);
    At256(ks, ws, 40, 0x79ea687a, 0x6dc57a8a, 0x34df1604, 0x41a65cb1, 0x1efbc0a0, 0xf0781bc8, 0xa507a53d, 0x0772a26b);
    At256(ks, ws, 41, 0xd6670766, 0x79ea687a, 0x6dc57a8a, 0x34df1604, 0x26352d63, 0x1efbc0a0, 0xf0781bc8, 0xa507a53d);
    At256(ks, ws, 42, 0xdf46652f, 0xd6670766, 0x79ea687a, 0x6dc57a8a, 0x838b2711, 0x26352d63, 0x1efbc0a0, 0xf0781bc8);
    At256(ks, ws, 43, 0x17aa0dfe, 0xdf46652f, 0xd6670766, 0x79ea687a, 0xdecd4715, 0x838b2711, 0x26352d63, 0x1efbc0a0);
    At256(ks, ws, 44, 0x9d4baf93, 0x17aa0dfe, 0xdf46652f, 0xd6670766, 0xfda24c2e, 0xdecd4715, 0x838b2711, 0x26352d63);
    At256(ks, ws, 45, 0x26628815, 0x9d4baf93, 0x17aa0dfe, 0xdf46652f, 0xa80f11f0, 0xfda24c2e, 0xdecd4715, 0x838b2711);
    At256(ks, ws, 46, 0x72ab4b91, 0x26628815, 0x9d4baf93, 0x17aa0dfe, 0xb7755da1, 0xa80f11f0, 0xfda24c2e, 0xdecd4715);
    At256(ks, ws, 47, 0xa14c14b0, 0x72ab4b91, 0x26628815, 0x9d4baf93, 0xd57b94a9, 0xb7755da1, 0xa80f11f0, 0xfda24c2e);
  }

  lemma Rounds256To64(ks: Words, ws: Words)
    requires LateConstants256(ks) && Schedule256(ws)
    requires After256(ks, ws, 48) == Sha256.Vars(
      0x4172328d, 0xa14c14b0, 0x72ab4b91, 0x26628815, 0xfecf0bc6, 0xd57b94a9, 0xb7755da1, 0xa80f11f0)
    ensures After256(ks, ws, 64) == Sha256.Vars(
      0x506e3058, 0xd39a2165, 0x04d24d6c, 0xb85e2ce9, 0x5ef50f24, 0xfb121210, 0x948d25b6, 0x961f4894)
  {
    At256(ks, ws, 48, 0x4172328d, 0xa14c14b0, 0x72ab4b91, 0x26628815, 0xfecf0bc6, 0xd57b94a9, 0xb7755da1, 0xa80f11f0);
    At256(ks, ws, 49, 0x05757ceb, 0x4172328d, 0xa14c14b0, 0x72ab4b91, 0xbd714038, 0xfecf0bc6, 0xd57b94a9, 0xb7755da1);
    At256(ks, ws, 50, 0xf11bfaa8, 0x05757ceb, 0x4172328d, 0xa14c14b0, 0x6e5c390c, 0xbd714038, 0xfecf0bc6, 0xd57b94a9);
    At256(ks, ws, 51, 0x7a0508a1, 0xf11bfaa8, 0x05757ceb, 0x4172328d, 0x52f1ccf7, 0x6e5c390c, 0xbd714038, 0xfecf0bc6);
    At256(ks, ws, 52, 0x886e7a22, 0x7a0508a1, 0xf11bfaa8, 0x05757ceb, 0x49231c1e, 0x52f1ccf7, 0x6e5c390c, 0xbd714038);
    At256(ks, ws, 53, 0x101fd28f, 0x886e7a22, 0x7a0508a1, 0xf11bfaa8, 0x529e7d00, 0x49231c1e, 0x52f1ccf7, 0x6e5c390c);
    At256(ks, ws, 54, 0xf5702fdb, 0x101fd28f, 0x886e7a22, 0x7a0508a1, 0x9f4787c3, 0x529e7d00, 0x49231c1e, 0x52f1ccf7);
    At256(ks, ws, 55, 0x3ec45cdb, 0xf5702fdb, 0x101fd28f, 0x886e7a22, 0xe50e1b4f, 0x9f4787c3, 0x529e7d00, 0x49231c1e);
    At256(ks, ws, 56, 0x38cc9913, 0x3ec45cdb, 0xf5702fdb, 0x101fd28f, 0x54cb266b, 0xe50e1b4f, 0x9f4787c3, 0x529e7d00);
    At256(ks, ws, 57, 0xfcd1887b, 0x38cc9913, 0x3ec45cdb, 0xf5702fdb, 0x9b5e906c, 0x54cb266b, 0xe50e1b4f, 0x9f4787c3);
    At256(ks, ws, 58, 0xc062d46f, 0xfcd1887b, 0x38cc9913, 0x3ec45cdb, 0x7e44008e, 0x9b5e906c, 0x54cb266b, 0xe50e1b4f);
    At256(ks, ws, 59, 0xffb70472, 0xc062d46f, 0xfcd1887b, 0x38cc9913, 0x6d83bfc6, 0x7e44008e, 0x9b5e906c, 0x54cb266b);
    At256(ks, ws, 60, 0xb6ae8fff, 0xffb70472, 0xc062d46f, 0xfcd1887b, 0xb21bad3d, 0x6d83bfc6, 0x7e44008e, 0x9b5e906c);
    At256(ks, ws, 61, 0xb85e2ce9, 0xb6ae8fff, 0xffb70472, 0xc062d46f, 0x961f4894, 0xb21bad3d, 0x6d83bfc6, 0x7e44008e);
    At256(ks, ws, 62, 0x04d24d6c, 0xb85e2ce9, 0xb6ae8fff, 0xffb70472, 0x948d25b6, 0x961f4894, 0xb21bad3d, 0x6d83bfc6);
    At256(ks, ws, 63, 0xd39a2165, 0x04d24d6c, 0xb85e2ce9, 0xb6ae8fff, 0xfb121210, 0x948d25b6, 0x961f4894, 0xb21bad3d);
  }

  lemma Schedule256Of(words: Words)
    requires |words| == 16
    requires AbcBlock(words)
    ensures Schedule256(Sha256.Schedule(Sha256.BV32, words, 64))
  {
    var ws := Sha256.Schedule(Sha256.BV32, words, 64);
    forall t | 0 <= t < 64 ensures t < 16 ==> ws[t] == words[t]
                           ensures 16 <= t ==> Recurs256(ws, t) {
      Sha256.ScheduleAt(Sha256.BV32, words, 64, t);
    }
    Expands256(ws);
  }

  lemma Compressed256(words: Words)
    requires |words| == 16
    requires AbcBlock(words)
    ensures |Sha256.K| == 64
    ensures Sha256.Next(Sha256.BV32, Sha256.IV, Sha256.K, words)
      == [0xba7816bf, 0x8f01cfea, 0x414140de, 0x5dae2223, 0xb00361a3, 0x96177a9c, 0xb410ff61, 0xf20015ad]
  {
    Table256();
    LateTable256();
    Schedule256Of(words);
    var ks, ws := Sha256.K, Sha256.Schedule(Sha256.BV32, words, 64);
    Rounds256To16(ks, ws);
    Rounds256To32(ks, ws);
    Rounds256To48(ks, ws);
    Rounds256To64(ks, ws);
    Summed256();
  }

  lemma Summed256()
    ensures Sha256.Sum(Sha256.BV32, Sha256.IV, Sha256.Vars(
      0x506e3058, 0xd39a2165, 0x04d24d6c, 0xb85e2ce9, 0x5ef50f24, 0xfb121210, 0x948d25b6, 0x961f4894))
      == [0xba7816bf, 0x8f01cfea, 0x414140de, 0x5dae2223, 0xb00361a3, 0x96177a9c, 0xb410ff61, 0xf20015ad]
  {}

  /** SHA-256 of "abc". */
  lemma Sha256OfAbc()
    ensures Sha256.Digest(Abc) == BytesOf([
      0xba7816bf, 0x8f01cfea, 0x414140de, 0x5dae2223, 0xb00361a3, 0x96177a9c, 0xb410ff61, 0xf20015ad])
  {
    AbcPadded();
    AbcWords();
    FoldBlock(Sha256.Compress, Sha256.IV, Pad(Abc));
    Compressed256(BlockWords(Pad(Abc)));
  }

  // ---------------------------------------------------------------- SHA-1

  ghost predicate Early160(ws: Words) {
    && |ws| == 80
    && AbcBlock(ws)
    && Row(ws, 16, 0xc2c4c700, 0x00000000, 0x00000030, 0x85898e01, 0x00000000, 0x00000060, 0x0b131c03, 0x00000030)
    && Row(ws, 24, 0x85898ec1, 0x16263806, 0x00000000, 0x00000180, 0x2c4c700c, 0x000000f0, 0x93afb507, 0x5898e048)
  }

  ghost predicate Middle160(ws: Words) {
    && |ws| == 80
    && Row(ws, 32, 0x8e9a9202, 0x00000600, 0xb131c0f0, 0x16263bc6, 0x4ebed41e, 0x626380a1, 0x16263806, 0x000018c0)
    && Row(ws, 40, 0xd2e138c4, 0x00000f00, 0x3afb5079, 0x898e04e5, 0xe2ba3c2b, 0x000060c0, 0x053a37cd, 0x74458547)
    && Row(ws, 48, 0xda9415ed, 0x26380a16, 0x626383a1, 0x4ebf54de, 0x3835b44b, 0x0000f600, 0x1e84c7a3, 0x98e04d98)
  }

  ghost predicate Late160(ws: Words) {
    && |ws| == 80
    && Row(ws, 56, 0x651d16a0, 0x62658ca1, 0x458544d6, 0x44584cb7, 0x7ba06619, 0x6380aea2, 0x0ae55269, 0x627b49a1)
    && Row(ws, 64, 0x7cd45c9d, 0x000f0000, 0xfb50753a, 0xec6765e8, 0xba3c2be2, 0x0060c000, 0x3a37cd05, 0x458546f4)
    && Row(ws, 72, 0xb8599dd6, 0x380a1a26, 0x01e02203, 0xe7cc3456, 0xe6e60b69, 0x00f60a00, 0x5795ef4f, 0x822e0879)
  }

  ghost predicate Schedule160(ws: Words) {
    Early160(ws) && Middle160(ws) && Late160(ws)
  }

  function Mixed160(x3: bv32, x8: bv32, x14: bv32, x16: bv32): bv32 {
    Sha1.Rol1(Sha1.Xor(Sha1.Xor(Sha1.Xor(x3, x8), x14), x16))
  }

  ghost predicate Recurs160(ws: Words, t: nat) {
    16 <= t < |ws| && ws[t] == Mixed160(ws[t - 3], ws[t - 8], ws[t - 14], ws[t - 16])
  }

  ghost predicate RowRecurs160(ws: Words, t: nat) {
    && Recurs160(ws, t) && Recurs160(ws, t + 1) && Recurs160(ws, t + 2) && Recurs160(ws, t + 3)
    && Recurs160(ws, t + 4) && Recurs160(ws, t + 5) && Recurs160(ws, t + 6) && Recurs160(ws, t + 7)
  }

  ghost predicate Recurs160All(ws: Words) {
    |ws| == 80 && forall t :: 16 <= t < 80 ==> Recurs160(ws, t)
  }

  lemma EarlyExpands160(ws: Words)
    requires Recurs160All(ws)
    requires AbcBlock(ws)
    ensures Early160(ws)
  {
    assert RowRecurs160(ws, 16);
    assert RowRecurs160(ws, 24);
  }

  lemma MiddleExpands160(ws: Words)
    requires Recurs160All(ws)
    requires Early160(ws)
    ensures Middle160(ws)
  {
    assert RowRecurs160(ws, 32);
    assert RowRecurs160(ws, 40);
    assert RowRecurs160(ws, 48);
  }

  lemma LateExpands160(ws: Words)
    requires Recurs160All(ws)
    requires Early160(ws) && Middle160(ws)
    ensures Late160(ws)
  {
    assert RowRecurs160(ws, 56);
    assert RowRecurs160(ws, 64);
    assert RowRecurs160(ws, 72);
  }

  function After160(ws: Words, t: nat): Sha1.Vars<bv32>
    requires t <= |ws| == 80 && |Sha1.K| == 4 && |Sha1.IV| == 5
  {
    var s := Sha1.IV;
    Sha1.Rounds(Sha1.BV32, Sha1.Vars(s[0], s[1], s[2], s[3], s[4]), Sha1.K, ws, t)
  }

  function Sum160(t: nat, a: bv32, b: bv32, c: bv32, d: bv32, e: bv32, k: bv32, w: bv32): bv32 {
    Sha1.Add(Sha1.Add(Sha1.Add(Sha1.Add(Sha1.Rol5(a), Sha1.F(Sha1.BV32, t, b, c, d)), e), k), w)
  }

  /** The round from known working variables. */
  lemma At160(ws: Words, t: nat, a: bv32, b: bv32, c: bv32, d: bv32, e: bv32)
    requires t < |ws| == 80 && |Sha1.K| == 4 && |Sha1.IV| == 5
    requires After160(ws, t) == Sha1.Vars(a, b, c, d, e)
    ensures After160(ws, t + 1)
            == Sha1.Vars(Sum160(t, a, b, c, d, e, Sha1.KOf(Sha1.K, t), ws[t]), a, Sha1.Rol30(b), c, d)
  {}

  lemma Rounds160To16(ws: Words)
    requires |Sha1.K| == 4 && |Sha1.IV| == 5 && Schedule160(ws)
    ensures After160(ws, 16) == Sha1.Vars(0x20bdd62f, 0x196bee77, 0x644a3da5, 0x1181ed99, 0x18c623f9)
  {
    At160(ws, 0, 0x67452301, 0xefcdab89, 0x98badcfe, 0x10325476, 0xc3d2e1f0);
    At160(ws, 1, 0x0116fc33, 0x67452301, 0x7bf36ae2, 0x98badcfe, 0x10325476);
    At160(ws, 2, 0x8990536d, 0x0116fc33, 0x59d148c0, 0x7bf36ae2, 0x98badcfe);
    At160(ws, 3, 0xa1390f08, 0x8990536d, 0xc045bf0c, 0x59d148c0, 0x7bf36ae2);
    At160(ws, 4, 0xcdd8e11b, 0xa1390f08, 0x626414db, 0xc045bf0c, 0x59d148c0);
    At160(ws, 5, 0xcfd499de, 0xcdd8e11b, 0x284e43c2, 0x626414db, 0xc045bf0c);
    At160(ws, 6, 0x3fc7ca40, 0xcfd499de, 0xf3763846, 0x284e43c2, 0x626414db);
    At160(ws, 7, 0x993e30c1, 0x3fc7ca40, 0xb3f52677, 0xf3763846, 0x284e43c2);
    At160(ws, 8, 0x9e8c07d4, 0x993e30c1, 0x0ff1f290, 0xb3f52677, 0xf3763846);
    At160(ws, 9, 0x4b6ae328, 0x9e8c07d4, 0x664f8c30, 0x0ff1f290, 0xb3f52677);
    At160(ws, 10, 0x8351f929, 0x4b6ae328, 0x27a301f5, 0x664f8c30, 0x0ff1f290);
    At160(ws, 11, 0xfbda9e89, 0x8351f929, 0x12dab8ca, 0x27a301f5, 0x664f8c30);
    At160(ws, 12, 0x63188fe4, 0xfbda9e89, 0x60d47e4a, 0x12dab8ca, 0x27a301f5);
    At160(ws, 13, 0x4607b664, 0x63188fe4, 0x7ef6a7a2, 0x60d47e4a, 0x12dab8ca);
    At160(ws, 14, 0x9128f695, 0x4607b664, 0x18c623f9, 0x7ef6a7a2, 0x60d47e4a);
    At160(ws, 15, 0x196bee77, 0x9128f695, 0x1181ed99, 0x18c623f9, 0x7ef6a7a2);
  }

  lemma Rounds160To32(ws: Words)
    requires |Sha1.K| == 4 && |Sha1.IV| == 5 && Schedule160(ws)
    requires After160(ws, 16) == Sha1.Vars(0x20bdd62f, 0x196bee77, 0x644a3da5, 0x1181ed99, 0x18c623f9)
    ensures After160(ws, 32) == Sha1.Vars(0x3b845d33, 0x1267b407, 0x717eebd7, 0xa0dc2d4b, 0xd2aa1365)
  {
    At160(ws, 16, 0x20bdd62f, 0x196bee77, 0x644a3da5, 0x1181ed99, 0x18c623f9);
    At160(ws, 17, 0x4e925823, 0x20bdd62f, 0xc65afb9d, 0x644a3da5, 0x1181ed99);
    At160(ws, 18, 0x82aa6728, 0x4e925823, 0xc82f758b, 0xc65afb9d, 0x644a3da5);
    At160(ws, 19, 0xdc64901d, 0x82aa6728, 0xd3a49608, 0xc82f758b, 0xc65afb9d);
    At160(ws, 20, 0xfd9e1d7d, 0xdc64901d, 0x20aa99ca, 0xd3a49608, 0xc82f758b);
    At160(ws, 21, 0x1a37b0ca, 0xfd9e1d7d, 0x77192407, 0x20aa99ca, 0xd3a49608);
    At160(ws, 22, 0x33a23bfc, 0x1a37b0ca, 0x7f67875f, 0x77192407, 0x20aa99ca);
    At160(ws, 23, 0x21283486, 0x33a23bfc, 0x868dec32, 0x7f67875f, 0x77192407);
    At160(ws, 24, 0xd541f12d, 0x21283486, 0x0ce88eff, 0x868dec32, 0x7f67875f);
    At160(ws, 25, 0xc7567dc6, 0xd541f12d, 0x884a0d21, 0x0ce88eff, 0x868dec32);
    At160(ws, 26, 0x48413ba4, 0xc7567dc6, 0x75507c4b, 0x884a0d21, 0x0ce88eff);
    At160(ws, 27, 0xbe35fbd5, 0x48413ba4, 0xb1d59f71, 0x75507c4b, 0x884a0d21);
    At160(ws, 28, 0x4aa84d97, 0xbe35fbd5, 0x12104ee9, 0xb1d59f71, 0x75507c4b);
    At160(ws, 29, 0x8370b52e, 0x4aa84d97, 0x6f8d7ef5, 0x12104ee9, 0xb1d59f71);
    At160(ws, 30, 0xc5fbaf5d, 0x8370b52e, 0xd2aa1365, 0x6f8d7ef5, 0x12104ee9);
    At160(ws, 31, 0x1267b407, 0xc5fbaf5d, 0xa0dc2d4b, 0xd2aa1365, 0x6f8d7ef5);
  }

  lemma Rounds160To48(ws: Words)
    requires |Sha1.K| == 4 && |Sha1.IV| == 5 && Schedule160(ws)
    requires After160(ws, 32) == Sha1.Vars(0x3b845d33, 0x1267b407, 0x717eebd7, 0xa0dc2d4b, 0xd2aa1365)
    ensures After160(ws, 48) == Sha1.Vars(0xbead02ca, 0xa01b846c, 0x8714787c, 0x503ca382, 0xfb86c6ab)
  {
    At160(ws, 32, 0x3b845d33, 0x1267b407, 0x717eebd7, 0xa0dc2d4b, 0xd2aa1365);
    At160(ws, 33, 0x046faa0a, 0x3b845d33, 0xc499ed01, 0x717eebd7, 0xa0dc2d4b);
    At160(ws, 34, 0x2c0ebc11, 0x046faa0a, 0xcee1174c, 0xc499ed01, 0x717eebd7);
    At160(ws, 35, 0x21796ad4, 0x2c0ebc11, 0x811bea82, 0xcee1174c, 0xc499ed01);
    At160(ws, 36, 0xdcbbb0cb, 0x21796ad4, 0x4b03af04, 0x811bea82, 0xcee1174c);
    At160(ws, 37, 0x0f511fd8, 0xdcbbb0cb, 0x085e5ab5, 0x4b03af04, 0x811bea82);
    At160(ws, 38, 0xdc63973f, 0x0f511fd8, 0xf72eec32, 0x085e5ab5, 0x4b03af04);
    At160(ws, 39, 0x4c986405, 0xdc63973f, 0x03d447f6, 0xf72eec32, 0x085e5ab5);
    At160(ws, 40, 0x32de1cba, 0x4c986405, 0xf718e5cf, 0x03d447f6, 0xf72eec32);
    At160(ws, 41, 0xfc87dedf, 0x32de1cba, 0x53261901, 0xf718e5cf, 0x03d447f6);
    At160(ws, 42, 0x970a0d5c, 0xfc87dedf, 0x8cb7872e, 0x53261901, 0xf718e5cf);
    At160(ws, 43, 0x7f193dc5, 0x970a0d5c, 0xff21f7b7, 0x8cb7872e, 0x53261901);
    At160(ws, 44, 0xee1b1aaf, 0x7f193dc5, 0x25c28357, 0xff21f7b7, 0x8cb7872e);
    At160(ws, 45, 0x40f28e09, 0xee1b1aaf, 0x5fc64f71, 0x25c28357, 0xff21f7b7);
    At160(ws, 46, 0x1c51e1f2, 0x40f28e09, 0xfb86c6ab, 0x5fc64f71, 0x25c28357);
    At160(ws, 47, 0xa01b846c, 0x1c51e1f2, 0x503ca382, 0xfb86c6ab, 0x5fc64f71);
  }

  lemma Rounds160To64(ws: Words)
    requires |Sha1.K| == 4 && |Sha1.IV| == 5 && Schedule160(ws)
    requires After160(ws, 48) == Sha1.Vars(0xbead02ca, 0xa01b846c, 0x8714787c, 0x503ca382, 0xfb86c6ab)
    ensures After160(ws, 64) == Sha1.Vars(0x6b61c9e1, 0xb66c020b, 0x9523272c, 0xf5d5b051, 0x8fd4b796)
  {
    At160(ws, 48, 0xbead02ca, 0xa01b846c, 0x8714787c, 0x503ca382, 0xfb86c6ab);
    At160(ws, 49, 0xbaf39337, 0xbead02ca, 0x2806e11b, 0x8714787c, 0x503ca382);
    At160(ws, 50, 0x120731c5, 0xbaf39337, 0xafab40b2, 0x2806e11b, 0x8714787c);
    At160(ws, 51, 0x641db2ce, 0x120731c5, 0xeebce4cd, 0xafab40b2, 0x2806e11b);
    At160(ws, 52, 0x3847ad66, 0x641db2ce, 0x4481cc71, 0xeebce4cd, 0xafab40b2);
    At160(ws, 53, 0xe490436d, 0x3847ad66, 0x99076cb3, 0x4481cc71, 0xeebce4cd);
    At160(ws, 54, 0x27e9f1d8, 0xe490436d, 0x8e11eb59, 0x99076cb3, 0x4481cc71);
    At160(ws, 55, 0x7b71f76d, 0x27e9f1d8, 0x792410db, 0x8e11eb59, 0x99076cb3);
    At160(ws, 56, 0x5e6456af, 0x7b71f76d, 0x09fa7c76, 0x792410db, 0x8e11eb59);
    At160(ws, 57, 0xc846093f, 0x5e6456af, 0x5edc7ddb, 0x09fa7c76, 0x792410db);
    At160(ws, 58, 0xd262ff50, 0xc846093f, 0xd79915ab, 0x5edc7ddb, 0x09fa7c76);
    At160(ws, 59, 0x09d785fd, 0xd262ff50, 0xf211824f, 0xd79915ab, 0x5edc7ddb);
    At160(ws, 60, 0x3f52de5a, 0x09d785fd, 0x3498bfd4, 0xf211824f, 0xd79915ab);
    At160(ws, 61, 0xd756c147, 0x3f52de5a, 0x4275e17f, 0x3498bfd4, 0xf211824f);
    At160(ws, 62, 0x548c9cb2, 0xd756c147, 0x8fd4b796, 0x4275e17f, 0x3498bfd4);
    At160(ws, 63, 0xb66c020b, 0x548c9cb2, 0xf5d5b051, 0x8fd4b796, 0x4275e17f);
  }

  lemma Rounds160To80(ws: Words)
    requires |Sha1.K| == 4 && |Sha1.IV| == 5 && Schedule160(ws)
    requires After160(ws, 64) == Sha1.Vars(0x6b61c9e1, 0xb66c020b, 0x9523272c, 0xf5d5b051, 0x8fd4b796)
    ensures After160(ws, 80) == Sha1.Vars(0x42541b35, 0x5738d5e1, 0x21834873, 0x681e6df6, 0xd8fdf6ad)
  {
    At160(ws, 64, 0x6b61c9e1, 0xb66c020b, 0x9523272c, 0xf5d5b051, 0x8fd4b796);
    At160(ws, 65, 0x19dfa7ac, 0x6b61c9e1, 0xed9b0082, 0x9523272c, 0xf5d5b051);
    At160(ws, 66, 0x101655f9, 0x19dfa7ac, 0x5ad87278, 0xed9b0082, 0x9523272c);
    At160(ws, 67, 0x0c3df2b4, 0x101655f9, 0x0677e9eb, 0x5ad87278, 0xed9b0082);
    At160(ws, 68, 0x78dd4d2b, 0x0c3df2b4, 0x4405957e, 0x0677e9eb, 0x5ad87278);
    At160(ws, 69, 0x497093c0, 0x78dd4d2b, 0x030f7cad, 0x4405957e, 0x0677e9eb);
    At160(ws, 70, 0x3f2588c2, 0x497093c0, 0xde37534a, 0x030f7cad, 0x4405957e);
    At160(ws, 71, 0xc199f8c7, 0x3f2588c2, 0x125c24f0, 0xde37534a, 0x030f7cad);
    At160(ws, 72, 0x39859de7, 0xc199f8c7, 0x8fc96230, 0x125c24f0, 0xde37534a);
    At160(ws, 73, 0xedb42de4, 0x39859de7, 0xf0667e31, 0x8fc96230, 0x125c24f0);
    At160(ws, 74, 0x11793f6f, 0xedb42de4, 0xce616779, 0xf0667e31, 0x8fc96230);
    At160(ws, 75, 0x5ee76897, 0x11793f6f, 0x3b6d0b79, 0xce616779, 0xf0667e31);
    At160(ws, 76, 0x63f7dab7, 0x5ee76897, 0xc45e4fdb, 0x3b6d0b79, 0xce616779);
    At160(ws, 77, 0xa079b7d9, 0x63f7dab7, 0xd7b9da25, 0xc45e4fdb, 0x3b6d0b79);
    At160(ws, 78, 0x860d21cc, 0xa079b7d9, 0xd8fdf6ad, 0xd7b9da25, 0xc45e4fdb);
    At160(ws, 79, 0x5738d5e1, 0x860d21cc, 0x681e6df6, 0xd8fdf6ad, 0xd7b9da25);
  }

  lemma Schedule160Of(words: Words)
    requires |words| == 16
    requires AbcBlock(words)
    ensures Schedule160(Sha1.Schedule(Sha1.BV32, words, 80))
  {
    var ws := Sha1.Schedule(Sha1.BV32, words, 80);
    forall t | 0 <= t < 80 ensures t < 16 ==> ws[t] == words[t]
                           ensures 16 <= t ==> Recurs160(ws, t) {
      Sha1.ScheduleAt(Sha1.BV32, words, 80, t);
    }
    EarlyExpands160(ws);
    MiddleExpands160(ws);
    LateExpands160(ws);
  }

  lemma Compressed160(words: Words)
    requires |words| == 16
    requires AbcBlock(words)
    ensures |Sha1.K| == 4 && |Sha1.IV| == 5
    ensures Sha1.Next(Sha1.BV32, Sha1.IV, Sha1.K, words)
      == [0xa9993e36, 0x4706816a, 0xba3e2571, 0x7850c26c, 0x9cd0d89d]
  {
    Schedule160Of(words);
    var ws := Sha1.Schedule(Sha1.BV32, words, 80);
    Rounds160To16(ws);
    Rounds160To32(ws);
    Rounds160To48(ws);
    Rounds160To64(ws);
    Rounds160To80(ws);
  }

  /** SHA-1 of "abc". */
  lemma Sha1OfAbc()
    ensures Sha1.Digest(Abc) == BytesOf([0xa9993e36, 0x4706816a, 0xba3e2571, 0x7850c26c, 0x9cd0d89d])
  {
    AbcPadded();
    AbcWords();
    FoldBlock(Sha1.Compress, Sha1.IV, Pad(Abc));
    Compressed160(BlockWords(Pad(Abc)));
  }}
